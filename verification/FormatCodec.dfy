/** The format parsers and the codec together: where the two parsers agree, what the compile-time one
    makes the logging side store is what the decode-time one makes the decoder read. */
module FormatCodec {
  import opened Wrappers
  import opened Bytes
  import opened Packing
  import opened Arguments
  import opened ArgumentCompress
  import opened ArgumentDecode
  import opened Formats
  import opened FormatGrammar
  import opened FormatParameters
  import opened MicroCode
  import opened FormatAgreement
  import opened Entries
  import opened Encoders
  import opened ExtentReader
  import opened Decoders
  import opened CodecTheorems

  /** The arguments are passed for the parameters of the format, as the compile-time parser lists them. */
  predicate PassedFor(params: seq<ParamType>, args: seq<Argument>) {
    |args| == |params| && forall i :: 0 <= i < |args| ==> args[i].kind == params[i]
  }

  predicate AllPrint(needs: seq<FormatType>, args: seq<Argument>)
    requires AllValid(args)
  {
    |needs| == |args| && forall i :: 0 <= i < |args| ==> Prints(needs[i], args[i])
  }

  // ---- What the fragments need ----

  lemma {:induction false} NeedsOfOne(f: Fragment)
    ensures |Needs(f)| == |FragmentShapes(f)|
    ensures forall i :: 0 <= i < |Needs(f)| ==> (FragmentShapes(f)[i].StringShape? <==> IsStringType(Needs(f)[i]))
  {
  }

  /** The strings among the values that the fragments print are those among their shapes. */
  lemma {:induction false} NeedsShapes(fragments: seq<Fragment>)
    ensures |AllNeeds(fragments)| == |AllShapes(fragments)|
    ensures forall i :: 0 <= i < |AllNeeds(fragments)| ==>
              (AllShapes(fragments)[i].StringShape? <==> IsStringType(AllNeeds(fragments)[i]))
  {
    hide Needs, FragmentShapes, IsStringType;
    if fragments != [] {
      NeedsOfOne(fragments[0]);
      NeedsShapes(fragments[1..]);
    }
  }

  lemma {:induction false} MatchesIs(f: FormatType, a: Argument)
    requires a.Valid()
    ensures Matches(f, a) <==> Prints(f, a) && (IsString(a.kind) <==> IsStringType(f))
  {
    hide Prints;
  }

  // ---- What the arguments have ----

  function Kinds(args: seq<Argument>): (r: seq<ParamType>)
    ensures |r| == |args|
  {
    seq(|args|, i requires 0 <= i < |args| => args[i].kind)
  }

  lemma {:induction false} TagsOfShapes(args: seq<Argument>)
    requires AllValid(args)
    ensures |Tags(args)| == NotStrings(ParamShapes(Kinds(args)))
  {
    hide Code;
    if args != [] {
      TagsOfShapes(args[1..]);
      assert Kinds(args)[1..] == Kinds(args[1..]);
      assert ParamShapes(Kinds(args))[1..] == ParamShapes(Kinds(args[1..]));
    }
  }

  /** The compile-time parser counts exactly the nibbles that the arguments take. */
  lemma {:induction false} NibblesOfArguments(fmt: string, args: seq<Argument>)
    requires AllValid(args) && PassedFor(Params(fmt).params, args)
    ensures |Tags(args)| == NibblesNeeded(Params(fmt).params)
  {
    hide Params, NibblesNeeded, NotStrings, Tags;
    NeverInvalid(fmt);
    NibblesOfParams(Params(fmt).params);
    TagsOfShapes(args);
    assert Kinds(args) == Params(fmt).params;
  }

  /** The two parsers and the arguments of a statement: what was stored is what is read back. */
  lemma {:induction false} FormatMatches(fmt: string, args: seq<Argument>)
    requires Agree(fmt) && AllValid(args) && PassedFor(Params(fmt).params, args)
    requires AllPrint(AllNeeds(FragmentsOf(fmt).value), args)
    ensures MatchFrom(AllNeeds(FragmentsOf(fmt).value), args)
    ensures |Tags(args)| == NibblesNeeded(Params(fmt).params) == AllNibblesOf(FragmentsOf(fmt).value)
  {
    NibblesOfArguments(fmt, args);
    SameNibbles(fmt);
    hide Params, FragmentsOf, NibblesNeeded, AllNibblesOf, Tags, Prints, Matches;
    var fragments := FragmentsOf(fmt).value;
    NeedsShapes(fragments);
    forall i | 0 <= i < |args| ensures Matches(AllNeeds(fragments)[i], args[i]) {
      MatchesIs(AllNeeds(fragments)[i], args[i]);
      assert AllShapes(fragments)[i] == ShapeOf(args[i].kind);
    }
  }

  // ---- Truncation ----

  lemma {:induction false} CutPrints(f: FormatType, a: Argument, previous: nat)
    requires a.Valid() && Prints(f, a)
    ensures Prints(f, Cut(a, previous))
  {
    hide Pow256, CopyWidth, IntTypeOf;
  }

  /** Cutting strings to their precisions changes nothing of what a format asks for. */
  lemma {:induction false} TruncatedPrints(needs: seq<FormatType>, params: seq<ParamType>, args: seq<Argument>)
    requires AllValid(args) && AllPrint(needs, args) && PassedFor(params, args)
    ensures var cut := Truncated(args, NO_PRECISION);
            AllPrint(needs, cut) && PassedFor(params, cut)
  {
    hide Prints, Cut;
    var cut := Truncated(args, NO_PRECISION);
    forall i | 0 <= i < |args| ensures Prints(needs[i], cut[i]) {
      TruncatedAt(args, NO_PRECISION, i);
      CutPrints(needs[i], args[i], PrecisionBefore(args, i, NO_PRECISION));
    }
  }

  // ---- From the format string to the values ----

  /** analyzeFormatString: the parameters of a format, for as many arguments as are passed. */
  method AnalyzeFormatString(fmt: string, numParams: nat) returns (kinds: seq<ParamType>)
    requires Params(fmt).ok && numParams == |Params(fmt).params|
    ensures kinds == Params(fmt).params
  {
    hide Params;
    kinds := [];
    for i := 0 to numParams
      invariant kinds == Params(fmt).params[..i]
    {
      var info := GetParamInfo(fmt, i);
      kinds := kinds + [info.param];
    }
  }

  /** What is known statically of the arguments, as the compression function gets it. */
  function Parameters(kinds: seq<ParamType>, args: seq<Argument>): seq<Parameter>
    requires |kinds| == |args|
  {
    seq(|args|, i requires 0 <= i < |args| => Parameter(kinds[i], args[i].ctype))
  }

  lemma {:induction false} ParametersDescribe(kinds: seq<ParamType>, args: seq<Argument>)
    requires AllValid(args) && PassedFor(kinds, args)
    ensures Describes(Parameters(kinds, args), Truncated(args, NO_PRECISION))
  {
    hide Cut;
  }

  lemma {:induction false} AgreeParts(fmt: string)
    requires Agree(fmt)
    ensures Params(fmt).ok && FragmentsOf(fmt).Some?
  {
  }

  lemma {:induction false} MatchFromParts(needs: seq<FormatType>, args: seq<Argument>)
    ensures MatchFrom(needs, args) <==> AllValid(args) && AllMatch(needs, args)
  {
  }

  lemma {:induction false} NeedsAppend(a: seq<Fragment>, b: seq<Fragment>)
    ensures AllNeeds(a + b) == AllNeeds(a) + AllNeeds(b)
  {
    hide Needs;
    if a == [] {
      assert a + b == b;
    } else {
      assert (a + b)[0] == a[0] && (a + b)[1..] == a[1..] + b;
      NeedsAppend(a[1..], b);
      assert Needs(a[0]) + (AllNeeds(a[1..]) + AllNeeds(b)) == Needs(a[0]) + AllNeeds(a[1..]) + AllNeeds(b);
    }
  }

  lemma {:induction false} TakeAtLeast(fragments: seq<Fragment>)
    requires TakeArguments(fragments)
    ensures |AllNeeds(fragments)| >= |fragments|
  {
    if fragments != [] { TakeAtLeast(fragments[1..]); }
  }

  /** What the decoder's loop over its counter of eight bits leaves unread. */
  lemma {:induction false} CounterLeaves(s: string)
    requires FragmentsOf(s).Some?
    ensures var all := FragmentsOf(s).value; var n := |all| % 256;
            && AllNeeds(all) == AllNeeds(all[..n]) + AllNeeds(all[n..])
            && (AllNeeds(all[n..]) == [] <==> |all| < 256)
  {
    hide FragmentsOf, AllNeeds;
    var all := FragmentsOf(s).value;
    var n := |all| % 256;
    NeedsAppend(all[..n], all[n..]);
    assert all[..n] + all[n..] == all;
    if |all| < 256 {
      NothingNeeded();
      assert all[n..] == [];
    } else {
      FragmentsTake(s);
      TakeAtLeast(all[n..]);
    }
  }

  lemma {:induction false} NothingNeeded()
    ensures AllNeeds([]) == []
  {
  }

  /** A format string and its arguments, from the statement to the values read back: both parsers run
      on the format, the arguments are stored, compressed and decoded, with as many fragments as the
      decoder has counted in eight bits.  The values are the first ones, strings cut to their
      precisions, and they are all if and only if there are fewer than 256 fragments.  It fails only
      for a string too long to store. */
  method FormatRoundTrip(fmt: string, args: seq<Argument>) returns (ok: bool, values: seq<Decoded>)
    requires Agree(fmt) && AllValid(args) && PassedFor(Params(fmt).params, args)
    requires AllPrint(AllNeeds(FragmentsOf(fmt).value), args)
    requires NibblesNeeded(Params(fmt).params) < 256
    ensures AllMatch(AllNeeds(FragmentsOf(fmt).value), Truncated(args, NO_PRECISION))
    ensures ok <==> Storable(Truncated(args, NO_PRECISION))
    ensures var all := FragmentsOf(fmt).value;
            var expected := AllExpected(AllNeeds(all), Truncated(args, NO_PRECISION));
            ok ==> && values <= expected && |values| == |AllNeeds(all[..|all| % 256])|
                   && (values == expected <==> |all| < 256)
  {
    hide *;
    AgreeParts(fmt);
    ghost var cut := Truncated(args, NO_PRECISION);
    PassedIs(Params(fmt).params, args);
    var kinds := AnalyzeFormatString(fmt, |args|);
    var nibblesStored := GetNumNibblesNeeded(fmt);
    var compiled, fragments, numNibbles, numPrintFragments := CreateMicroCode(fmt);
    TruncatedPrints(AllNeeds(fragments), kinds, args);
    FormatMatches(fmt, cut);
    ParametersDescribe(kinds, args);
    assert numNibbles == nibblesStored.value;
    CounterLeaves(fmt);
    MatchFromParts(AllNeeds(fragments), cut);
    ok, values := ArgumentRoundTrip(args, Parameters(kinds, args), numNibbles, fragments[..numPrintFragments],
                                    AllNeeds(fragments[numPrintFragments..]));
    MatchLength(AllNeeds(fragments), cut);
    ghost var first, later := AllNeeds(fragments[..numPrintFragments]), AllNeeds(fragments[numPrintFragments..]);
    assert fragments == FragmentsOf(fmt).value;
    assert first + later == AllNeeds(fragments);
  }

  lemma {:induction false} MatchLength(needs: seq<FormatType>, args: seq<Argument>)
    requires AllValid(args) && AllMatch(needs, args)
    ensures |needs| == |args|
  {
  }

  // ---- A format with too many fragments ----

  const STRING := Spec("", Digits(""), None, "", 's')

  function Strings(n: nat): seq<Piece> {
    if n == 0 then [] else [Conversion(STRING)] + Strings(n - 1)
  }

  lemma {:induction false} StringParts()
    ensures IsSpec(STRING) && AfterPercent(STRING) == "s" && IsRegexSpec(STRING)
    ensures FormatTypeOf(STRING.length, STRING.terminal) == Some(CharPointer)
    ensures !STRING.width.Star? && STRING.precision.None?
  {
  }

  lemma {:induction false} StringsAre(n: nat)
    ensures ArePieces(Strings(n)) && AllSupported(Strings(n)) && |Render(Strings(n))| == 2 * n
    ensures n > 0 ==> Render(Strings(n)) == "%s" + Render(Strings(n - 1))
  {
    StringParts();
    hide IsRegexSpec, FormatTypeOf, AfterPercent, IsSpec;
    if n > 0 {
      StringsAre(n - 1);
      assert Strings(n)[1..] == Strings(n - 1);
    }
  }

  lemma {:induction false} StringsSplit(n: nat)
    ensures var r := SplitFormat(Render(Strings(n)), 0, ""); r.Split? && |r.fragments| == n
  {
    StringParts();
    StringsAre(n);
    hide *;
    if n == 0 {
      SplitStep("", 0, "");
      assert Render(Strings(n)) == "";
    } else {
      var rest := Render(Strings(n - 1));
      StringsSplit(n - 1);
      SplitRegexSpec(STRING, rest, 0, "");
      assert Render(Strings(n)) == "%" + "s" + rest;
      PrependParts(Fragment(CharPointer, false, false, "" + ("%" + "s")), SplitFormat(rest, 0, ""));
    }
  }

  lemma {:induction false} FinishedCount(split: Split)
    requires split.Split? && split.fragments != []
    ensures Finished(split).Some? && |Finished(split).value| == |split.fragments|
  {
  }

  /** 256 times "%s": the parsers agree and no nibble is needed, but the decoder's counter of fragments
      is back at zero, so it reads none of the strings. */
  lemma {:induction false} CounterWraps()
    ensures var fmt := Render(Strings(256));
            && Agree(fmt) && NibblesNeeded(Params(fmt).params) == 0 && |Params(fmt).params| == 256
            && |FragmentsOf(fmt).value| == 256 && MetadataOf(fmt) == Some(Metadata(0, []))
  {
    var fmt := Render(Strings(256));
    hide *;
    StringsAre(256);
    PiecesAgreeIff(Strings(256));
    StringsSplit(256);
    ParamsOfPieces(Strings(256));
    StringsTake(256);
    FinishedCount(SplitFormat(fmt, 0, ""));
    SameNibbles(fmt);
    EmptyMetadata(fmt);
  }

  lemma {:induction false} StringsTake(n: nat)
    requires ArePieces(Strings(n))
    ensures |PieceParams(Strings(n))| == n && NibblesNeeded(PieceParams(Strings(n))) == 0
  {
    OnlyStrings(n);
    hide PieceParams;
    NoNibblesNeeded(PieceParams(Strings(n)));
  }

  lemma {:induction false} OnlyStrings(n: nat)
    requires ArePieces(Strings(n))
    ensures |PieceParams(Strings(n))| == n
    ensures forall i :: 0 <= i < n ==> PieceParams(Strings(n))[i] == StringWithNoPrecision
  {
    if n > 0 {
      StringParts();
      hide IsSpec, IsRegexSpec, FormatTypeOf, AfterPercent;
      assert Strings(n)[1..] == Strings(n - 1);
      StringsAre(n - 1);
      OnlyStrings(n - 1);
      assert SpecParams(STRING) == [StringWithNoPrecision];
    }
  }

  lemma {:induction false} NoNibblesNeeded(params: seq<ParamType>)
    requires forall i :: 0 <= i < |params| ==> params[i] == StringWithNoPrecision
    ensures NibblesNeeded(params) == 0
    decreases |params|
  {
    if params != [] { NoNibblesNeeded(params[..|params| - 1]); }
  }

  lemma {:induction false} EmptyMetadata(fmt: string)
    requires FragmentsOf(fmt).Some? && |FragmentsOf(fmt).value| == 256 && AllNibblesOf(FragmentsOf(fmt).value) == 0
    ensures MetadataOf(fmt) == Some(Metadata(0, []))
  {
    hide FragmentsOf, AllNibblesOf;
  }

  lemma {:induction false} PassedIs(params: seq<ParamType>, args: seq<Argument>)
    requires PassedFor(params, args)
    ensures |args| == |params|
  {
  }

  // ---- From formats to whole extents ----

  /** The entry was logged by the statement with this format. */
  predicate LoggedBy(fmt: string, e: Entry) {
    && e.Valid() && Agree(fmt)
    && PassedFor(Params(fmt).params, e.args) && AllPrint(AllNeeds(FragmentsOf(fmt).value), e.args)
  }

  /** Encoder and decoder know the statements by what their own parsers make of the formats. */
  predicate KnownFormats(formats: seq<string>, dictionary: seq<Site>, metadata: seq<Metadata>) {
    && |dictionary| <= |formats| == |metadata|
    && (forall i :: 0 <= i < |dictionary| ==> dictionary[i].numNibbles == NibblesNeeded(Params(formats[i]).params))
    && forall i :: 0 <= i < |metadata| && MetadataOf(formats[i]).Some? ==> metadata[i] == MetadataOf(formats[i]).value
  }

  /** The decoder's counters of the format's fragments and nibbles have not wrapped around. */
  predicate Counted(fmt: string) {
    FragmentsOf(fmt).Some? && |FragmentsOf(fmt).value| < 256 && AllNibblesOf(FragmentsOf(fmt).value) < 256
  }

  lemma {:induction false} LoggedByParts(fmt: string, e: Entry)
    requires LoggedBy(fmt, e)
    ensures e.Valid() && AllValid(e.args) && Agree(fmt) && FragmentsOf(fmt).Some? && PassedFor(Params(fmt).params, e.args)
    ensures AllPrint(AllNeeds(FragmentsOf(fmt).value), e.args)
  {
    hide Params, FragmentsOf, NibblesNeeded, AllPrint, PassedFor, AllShapes, ParamShapes;
  }

  lemma {:induction false} KnownAt(formats: seq<string>, dictionary: seq<Site>, metadata: seq<Metadata>, i: nat)
    requires KnownFormats(formats, dictionary, metadata) && i < |formats|
    ensures |metadata| == |formats| && (i < |dictionary| ==> dictionary[i].numNibbles == NibblesNeeded(Params(formats[i]).params))
    ensures FragmentsOf(formats[i]).Some? ==>
              var all := FragmentsOf(formats[i]).value;
              metadata[i] == Metadata(AllNibblesOf(all) % 256, all[..|all| % 256])
  {
    hide Params, FragmentsOf, NibblesNeeded, AllNibblesOf;
  }

  /** With this metadata the message can be read back if and only if no argument is left over and the
      nibbles are as many as the arguments have. */
  lemma {:induction false} ReadableIff(metadata: seq<Metadata>, e: Entry, needs: seq<FormatType>, later: seq<FormatType>)
    requires e.Valid() && e.fmtId < |metadata| && needs == AllNeeds(metadata[e.fmtId].fragments)
    requires MatchFrom(needs + later, e.args)
    ensures Readable(metadata, e) <==> later == [] && metadata[e.fmtId].numNibbles == |Tags(e.args)|
  {
    hide Tags, AllNeeds, Matches;
    if later == [] { assert needs + later == needs; }
  }

  lemma {:induction false} DescribesIs(site: Site, e: Entry)
    requires e.Valid() && Describes(site.params, e.args) && site.numNibbles == |Tags(e.args)|
    ensures DescribesEntry(site, e)
  {
    hide Tags;
  }

  lemma {:induction false} EntrySuffices(formats: seq<string>, dictionary: seq<Site>, metadata: seq<Metadata>, e: Entry)
    requires KnownFormats(formats, dictionary, metadata) && e.fmtId < |formats| && LoggedBy(formats[e.fmtId], e)
    ensures e.Valid() && (Readable(metadata, e) <==> Counted(formats[e.fmtId]))
    ensures e.fmtId < |dictionary| && Describes(dictionary[e.fmtId].params, e.args) ==> DescribesEntry(dictionary[e.fmtId], e)
  {
    hide *;
    var fmt := formats[e.fmtId];
    LoggedByParts(fmt, e);
    FormatMatches(fmt, e.args);
    KnownAt(formats, dictionary, metadata, e.fmtId);
    CounterLeaves(fmt);
    CountedIs(fmt);
    var all := FragmentsOf(fmt).value;
    ReadableIff(metadata, e, AllNeeds(all[..|all| % 256]), AllNeeds(all[|all| % 256..]));
    if e.fmtId < |dictionary| && Describes(dictionary[e.fmtId].params, e.args) { DescribesIs(dictionary[e.fmtId], e); }
  }

  lemma {:induction false} CountedIs(fmt: string)
    requires FragmentsOf(fmt).Some?
    ensures Counted(fmt) <==> |FragmentsOf(fmt).value| < 256 && AllNibblesOf(FragmentsOf(fmt).value) < 256
  {
    hide FragmentsOf, AllNibblesOf;
  }

  /** Entries logged by statements of which encoder and decoder have parsed the formats meet what
      EncodeAndReadBack asks of the dictionary, and what it asks of the metadata if and only if no
      format has 256 fragments or nibbles or more. */
  lemma {:induction false} FormatsSuffice(formats: seq<string>, dictionary: seq<Site>, metadata: seq<Metadata>,
                                          entries: seq<Entry>)
    requires KnownFormats(formats, dictionary, metadata) && AllEntries(entries)
    requires forall i :: 0 <= i < |entries| ==>
               entries[i].fmtId < |formats| && LoggedBy(formats[entries[i].fmtId], entries[i])
    requires forall i :: 0 <= i < |entries| && entries[i].fmtId < |dictionary| ==>
               Describes(dictionary[entries[i].fmtId].params, entries[i].args)
    ensures Described(dictionary, entries)
    ensures AllReadable(metadata, entries) <==> forall i :: 0 <= i < |entries| ==> Counted(formats[entries[i].fmtId])
  {
    hide KnownFormats, LoggedBy, Readable, DescribesEntry, Describes, Counted;
    forall i | 0 <= i < |entries|
      ensures Readable(metadata, entries[i]) <==> Counted(formats[entries[i].fmtId])
      ensures entries[i].fmtId < |dictionary| ==> DescribesEntry(dictionary[entries[i].fmtId], entries[i])
    {
      EntrySuffices(formats, dictionary, metadata, entries[i]);
    }
  }
}
