/** The two format parsers compared: the one that says at compile time what is stored, and the one
    that says when decoding what is read back. */
module FormatAgreement {
  import opened Wrappers
  import opened Arguments
  import opened Formats
  import opened FormatGrammar
  import opened FormatParameters
  import opened MicroCode

  // ---- What the parsers have in common ----

  /** What both know of a parameter: what it is for and whether it is a string. */
  datatype Shape = WidthShape | PrecisionShape | StringShape | OtherShape

  function ShapeOf(p: ParamType): Shape {
    if p.DynamicWidth? then WidthShape
    else if p.DynamicPrecision? then PrecisionShape
    else if IsString(p) then StringShape
    else OtherShape
  }

  function ParamShapes(params: seq<ParamType>): (r: seq<Shape>)
    ensures |r| == |params|
  {
    seq(|params|, i requires 0 <= i < |params| => ShapeOf(params[i]))
  }

  /** The parameters of a fragment: width, precision, argument. */
  function FragmentShapes(f: Fragment): seq<Shape> {
    (if f.dynamicWidth then [WidthShape] else []) +
    (if f.dynamicPrecision then [PrecisionShape] else []) +
    (if f.argType.NoArgument? then [] else if IsStringType(f.argType) then [StringShape] else [OtherShape])
  }

  function AllShapes(fragments: seq<Fragment>): seq<Shape> {
    if fragments == [] then [] else FragmentShapes(fragments[0]) + AllShapes(fragments[1..])
  }

  /** The parsers see the same parameters in the same order. */
  predicate Agree(s: string) {
    && Params(s).ok && FragmentsOf(s).Some?
    && AllShapes(FragmentsOf(s).value) == ParamShapes(Params(s).params)
  }

  /** Specifications that the decoder reads back: digits or a star behind a '.', at most one length
      modifier, and a combination of length and specifier that it knows a type for. */
  predicate Supported(spec: Spec) {
    IsRegexSpec(spec) && FormatTypeOf(spec.length, spec.terminal).Some?
  }

  /** The decoder knows every specification, and none is hidden from it by a backslash. */
  predicate AllSupported(ps: seq<Piece>) {
    forall i :: 0 <= i < |ps| ==> !ps[i].EscapedConversion? && (ps[i].Conversion? ==> Supported(ps[i].spec))
  }

  // ---- The compile-time parser on pieces ----

  function SpecParams(spec: Spec): (r: seq<ParamType>)
    requires IsSpec(spec)
    ensures |r| >= 1
  {
    StarParams(spec.width, spec.precision) + [OwnParam(spec.precision, spec.terminal)]
  }

  predicate TakesParams(p: Piece) { p.Conversion? || p.EscapedConversion? }

  function PieceParams(ps: seq<Piece>): seq<ParamType>
    requires ArePieces(ps)
  {
    if ps == [] then []
    else (if TakesParams(ps[0]) then SpecParams(ps[0].spec) else []) + PieceParams(ps[1..])
  }

  lemma {:induction false} ParamsAfterPlain(s: string)
    requires s != [] && s[0] != '%'
    ensures Params(s) == Params(s[1..])
  {
  }

  lemma {:induction false} ParamsAfterPercents(s: string)
    requires |s| >= 2 && s[0] == '%' && s[1] == '%'
    ensures Params(s) == Params(s[2..])
  {
    hide ScanSpec, StarParams, OwnParam, EndsWell;
  }

  lemma {:induction false} SpecStarts(spec: Spec, rest: string)
    requires IsSpec(spec)
    ensures AfterPercent(spec) + rest != [] && (AfterPercent(spec) + rest)[0] != '%'
  {
    SpecText(spec, rest);
    PartsEnd(spec, rest);
    CharacterKinds(spec.terminal);
    var t := AfterPercent(spec) + rest;
    if spec.flags == [] {
      assert t[0] == (FieldText(spec.width) + (PrecisionText(spec.precision) + (spec.length + ([spec.terminal] + rest))))[0];
      match spec.width
      case Star => assert t[0] == '*';
      case Digits(d) =>
        if d != [] { assert t[0] == d[0]; }
        else { assert t[0] == (PrecisionText(spec.precision) + (spec.length + ([spec.terminal] + rest)))[0]; }
    } else {
      assert t[0] == spec.flags[0];
    }
  }

  lemma {:induction false} ParamsAfterSpec(spec: Spec, rest: string)
    requires IsSpec(spec)
    ensures var s := "%" + AfterPercent(spec) + rest;
            Params(s) == Listing(SpecParams(spec) + Params(rest).params, Params(rest).ok)
  {
    var s := "%" + AfterPercent(spec) + rest;
    assert s[1..] == AfterPercent(spec) + rest;
    SpecStarts(spec, rest);
    ScanOfSpec(spec, rest);
    ParamsStep(s);
    hide ScanSpec, StarParams, OwnParam, IsTerminal, AfterPercent, Params;
    assert ([spec.terminal] + rest)[1..] == rest;
  }

  /** The text of any pieces is accepted, and its parameters are those of the pieces. */
  lemma {:induction false} ParamsOfPieces(ps: seq<Piece>)
    requires ArePieces(ps)
    ensures Params(Render(ps)) == Listing(PieceParams(ps), true)
  {
    hide Params, SpecParams, AfterPercent, IsSpec;
    if ps == [] {
      ParamsOfNothing();
    } else {
      ParamsOfPieces(ps[1..]);
      var s, rest := Render(ps), Render(ps[1..]);
      match ps[0]
      case Plain(c) =>
        ParamsAfterPlain(s);
        assert s[1..] == rest;
      case Escaped(c) =>
        ParamsAfterPlain(s);
        ParamsAfterPlain(s[1..]);
        assert s[1..][1..] == rest;
      case EscapedConversion(spec) =>
        ParamsAfterPlain(s);
        assert s[1..] == "%" + AfterPercent(spec) + rest;
        ParamsAfterSpec(spec, rest);
      case LoneBackslash =>
        ParamsAfterPlain(s);
        assert s[1..] == rest;
      case TwoPercents =>
        ParamsAfterPercents(s);
        assert s[2..] == rest;
      case Conversion(spec) =>
        ParamsAfterSpec(spec, rest);
    }
  }

  lemma {:induction false} ParamsOfNothing()
    ensures Params([]) == Listing([], true)
  {
  }

  // ---- The decode-time parser on pieces ----

  /** The parameters of the specifications that the decoder knows. */
  function KnownShapes(ps: seq<Piece>): seq<Shape>
    requires ArePieces(ps)
  {
    if ps == [] then []
    else
      (if ps[0].Conversion? && Supported(ps[0].spec) then ParamShapes(SpecParams(ps[0].spec)) else []) + KnownShapes(ps[1..])
  }

  lemma {:induction false} ShapesAppend(a: seq<ParamType>, b: seq<ParamType>)
    ensures ParamShapes(a + b) == ParamShapes(a) + ParamShapes(b)
  {
  }

  /** What the decoder does not know, it does not count. */
  lemma {:induction false} KnownAreAllIff(ps: seq<Piece>)
    requires ArePieces(ps)
    ensures |KnownShapes(ps)| <= |PieceParams(ps)|
    ensures AllSupported(ps) ==> KnownShapes(ps) == ParamShapes(PieceParams(ps))
    ensures !AllSupported(ps) ==> |KnownShapes(ps)| < |PieceParams(ps)|
  {
    hide Supported, SpecParams, ShapeOf;
    if ps != [] {
      KnownAreAllIff(ps[1..]);
      var mine := if TakesParams(ps[0]) then SpecParams(ps[0].spec) else [];
      ShapesAppend(mine, PieceParams(ps[1..]));
      if ps[0].EscapedConversion? || (ps[0].Conversion? && !Supported(ps[0].spec)) {
        assert !AllSupported(ps);
      } else if AllSupported(ps[1..]) {
        forall i | 0 <= i < |ps| ensures !ps[i].EscapedConversion? && (ps[i].Conversion? ==> Supported(ps[i].spec)) {
          if i > 0 { assert ps[1..][i - 1] == ps[i]; }
        }
      }
    }
  }

  /** Text without '%' and '\\' goes into the current fragment. */
  lemma {:induction false} SplitPlain(a: string, rest: string, percents: nat, text: string)
    requires a != [] && forall i :: 0 <= i < |a| ==> a[i] != '%' && a[i] != '\\'
    ensures SplitFormat(a + rest, percents, text) == SplitFormat(rest, 0, text + a)
    decreases |a|
  {
    var s := a + rest;
    StepCases(s, percents);
    SplitStep(s, percents, text);
    hide SplitFormat, StepAt, Match;
    assert s[1..] == a[1..] + rest && s[..1] == a[..1];
    if |a| == 1 {
      assert a[1..] + rest == rest && a[..1] == a;
    } else {
      SplitPlain(a[1..], rest, 0, text + a[..1]);
      assert text + a[..1] + a[1..] == text + a;
    }
  }

  /** A backslash and what it takes with it go into the current fragment. */
  lemma {:induction false} SplitEscape(a: string, rest: string, percents: nat, text: string)
    requires 1 <= |a| <= 2 && a[0] == '\\' && (|a| == 1 ==> rest == [])
    ensures SplitFormat(a + rest, percents, text) == SplitFormat(rest, percents, text + a)
  {
    var s := a + rest;
    StepCases(s, percents);
    SplitStep(s, percents, text);
    hide SplitFormat, StepAt, Match;
    assert s[|a|..] == rest && s[..|a|] == a;
  }

  /** Two '%' are never the beginning of a specification. */
  lemma {:induction false} NoMatchAtTwo(rest: string)
    ensures Match("%%" + rest).None?
  {
    var s := "%%" + rest;
    var spec := Spec("", Digits(""), None, "", '%');
    assert s[1..] == AfterPercent(spec) + rest by { SpecText(spec, rest); PercentText(rest); }
    PercentIsTerminal();
    ScanOfSpec(spec, rest);
    hide ScanSpec, AfterPercent;
  }

  lemma {:induction false} PercentText(rest: string)
    ensures "" + (FieldText(Digits("")) + (PrecisionText(None) + ("" + (['%'] + rest)))) == "%" + rest
  {
    assert "" + (['%'] + rest) == "%" + rest;
  }

  lemma {:induction false} PercentIsTerminal()
    ensures IsTerminal('%') && All(IsFlag, "") && IsField(Digits("")) && All(IsLength, "")
  {
  }

  lemma {:induction false} SplitPercents(rest: string, percents: nat, text: string)
    requires percents % 2 == 0
    ensures SplitFormat("%%" + rest, percents, text) == SplitFormat(rest, percents + 2, text + "%%")
  {
    var s := "%%" + rest;
    NoMatchAtTwo(rest);
    StepCases(s, percents);
    SplitStep(s, percents, text);
    StepCases(s[1..], percents + 1);
    SplitStep(s[1..], percents + 1, text + s[..1]);
    hide SplitFormat, StepAt, Match;
    assert s[1..][1..] == rest;
    assert text + s[..1] + s[1..][..1] == text + "%%";
  }

  /** A specification that the regular expression describes ends a fragment, or the parsing. */
  lemma {:induction false} SplitRegexSpec(spec: Spec, rest: string, percents: nat, text: string)
    requires percents % 2 == 0 && IsRegexSpec(spec)
    ensures var s, f := "%" + AfterPercent(spec) + rest, FormatTypeOf(spec.length, spec.terminal);
            && (f.None? ==> SplitFormat(s, percents, text).Refused?)
            && (f.Some? ==>
                  SplitFormat(s, percents, text)
                  == Prepend(Fragment(f.value, spec.width.Star?, spec.precision.Some? && spec.precision.value.Star?,
                                      text + ("%" + AfterPercent(spec))),
                             SplitFormat(rest, 0, "")))
  {
    hide *;
    var head := "%" + AfterPercent(spec);
    var s := head + rest;
    MatchComplete(spec, rest);
    StepCases(s, percents);
    SplitStep(s, percents, text);
    SizeIs(spec);
    assert s[|head|..] == rest && s[..|head|] == head;
  }

  lemma {:induction false} SizeIs(spec: Spec)
    ensures SpecSize(spec) == |"%" + AfterPercent(spec)|
  {
  }

  lemma {:induction false} SplitOtherSpec(spec: Spec, rest: string, percents: nat, text: string)
    requires percents % 2 == 0 && IsSpec(spec) && !IsRegexSpec(spec)
    ensures SplitFormat("%" + AfterPercent(spec) + rest, percents, text)
            == SplitFormat(rest, 0, text + ("%" + AfterPercent(spec)))
  {
    hide *;
    var s := "%" + AfterPercent(spec) + rest;
    NoMatchOfOther(spec, rest);
    StepCases(s, percents);
    SplitStep(s, percents, text);
    SpecIsPlain(spec);
    assert s[1..] == AfterPercent(spec) + rest && s[..1] == "%";
    SplitPlain(AfterPercent(spec), rest, percents + 1, text + "%");
    assert text + "%" + AfterPercent(spec) == text + ("%" + AfterPercent(spec));
  }

  lemma {:induction false} NoMatchOfOther(spec: Spec, rest: string)
    requires IsSpec(spec) && !IsRegexSpec(spec)
    ensures Match("%" + AfterPercent(spec) + rest).None?
  {
    var s := "%" + AfterPercent(spec) + rest;
    assert s[1..] == AfterPercent(spec) + rest;
    ScanOfSpec(spec, rest);
    TerminalIsNotZ(spec.terminal);
    hide ScanSpec, AfterPercent, IsTerminal;
  }

  lemma {:induction false} SpecIsPlain(spec: Spec)
    requires IsSpec(spec)
    ensures var t := AfterPercent(spec);
            t != [] && forall i :: 0 <= i < |t| ==> t[i] != '%' && t[i] != '\\'
  {
    forall c: char ensures (IsFlag(c) || IsDigit(c) || IsLength(c) ==> c != '%' && c != '\\') {}
    assert FieldText(spec.width) == match spec.width case Star => "*" case Digits(d) => d;
    assert spec.terminal != '\\' by { assert !IsTerminal('\\'); }
  }

  // ---- Both ----

  lemma {:induction false} ShapesOfSpec(spec: Spec, text: string)
    requires IsSpec(spec) && Supported(spec)
    ensures var f := FormatTypeOf(spec.length, spec.terminal).value;
            FragmentShapes(Fragment(f, spec.width.Star?, spec.precision.Some? && spec.precision.value.Star?, text))
            == ParamShapes(SpecParams(spec))
  {
    StringTypes(spec.length, spec.terminal);
    hide FormatTypeOf, IsRegexSpec, Decimal, IsTerminal;
  }

  lemma {:induction false} ShapesPrepend(f: Fragment, split: Split)
    requires split.Split?
    ensures Prepend(f, split).Split?
    ensures AllShapes(Prepend(f, split).fragments) == FragmentShapes(f) + AllShapes(split.fragments)
  {
    hide FragmentShapes;
    assert ([f] + split.fragments)[1..] == split.fragments;
  }

  /** On pieces, the decode-time parser refuses or finds the parameters of the specifications it
      knows, and it refuses nothing when it knows all. */
  lemma {:induction false} SplitOfPieces(ps: seq<Piece>, percents: nat, text: string)
    requires ArePieces(ps) && percents % 2 == 0
    ensures var r := SplitFormat(Render(ps), percents, text);
            && (r.Split? ==> AllShapes(r.fragments) == KnownShapes(ps))
            && (AllSupported(ps) ==> r.Split?)
    decreases |ps|
  {
    hide *;
    PiecesUnroll(ps);
    if ps == [] {
      SplitStep(Render(ps), percents, text);
      NoShapes();
    } else {
      var rest := Render(ps[1..]);
      match ps[0]
      case Plain(c) =>
        SplitPlain([c], rest, percents, text);
        SplitOfPieces(ps[1..], 0, text + [c]);
      case Escaped(c) =>
        SplitEscape(['\\', c], rest, percents, text);
        SplitOfPieces(ps[1..], percents, text + ['\\', c]);
      case EscapedConversion(spec) =>
        var tail := AfterPercent(spec);
        assert Render(ps) == "\\%" + (tail + rest) && text + "\\%" + tail == text + ("\\%" + tail);
        SplitEscape("\\%", tail + rest, percents, text);
        SpecIsPlain(spec);
        SplitPlain(tail, rest, percents, text + "\\%");
        SplitOfPieces(ps[1..], 0, text + ("\\%" + tail));
      case LoneBackslash =>
        SplitEscape("\\", rest, percents, text);
        SplitOfPieces(ps[1..], percents, text + "\\");
      case TwoPercents =>
        SplitPercents(rest, percents, text);
        SplitOfPieces(ps[1..], percents + 2, text + "%%");
      case Conversion(spec) =>
        var head := "%" + AfterPercent(spec);
        if IsRegexSpec(spec) {
          SplitRegexSpec(spec, rest, percents, text);
          SplitOfPieces(ps[1..], 0, "");
          SupportedIs(spec);
          var f := FormatTypeOf(spec.length, spec.terminal);
          var later := SplitFormat(rest, 0, "");
          if f.Some? {
            var first := Fragment(f.value, spec.width.Star?, spec.precision.Some? && spec.precision.value.Star?, text + head);
            ShapesOfSpec(spec, text + head);
            if later.Split? { ShapesPrepend(first, later); }
            PrependParts(first, later);
          }
        } else {
          SupportedIs(spec);
          SplitOtherSpec(spec, rest, percents, text);
          SplitOfPieces(ps[1..], 0, text + head);
        }
    }
  }

  lemma {:induction false} SupportedIs(spec: Spec)
    ensures Supported(spec) <==> IsRegexSpec(spec) && FormatTypeOf(spec.length, spec.terminal).Some?
  {
    hide IsRegexSpec, FormatTypeOf;
  }

  lemma {:induction false} NoShapes()
    ensures AllShapes([]) == []
  {
  }

  lemma {:induction false} PiecesUnroll(ps: seq<Piece>)
    requires ArePieces(ps)
    ensures ps == [] ==> Render(ps) == "" && KnownShapes(ps) == []
    ensures ps != [] ==>
      && ArePieces(ps[1..]) && Render(ps) == PieceText(ps[0]) + Render(ps[1..])
      && (AllSupported(ps) ==> AllSupported(ps[1..]))
      && match ps[0]
         case Plain(c) => PieceText(ps[0]) == [c] && c != '%' && c != '\\' && KnownShapes(ps) == KnownShapes(ps[1..])
         case Escaped(c) => PieceText(ps[0]) == ['\\', c] && KnownShapes(ps) == KnownShapes(ps[1..])
         case EscapedConversion(spec) =>
           PieceText(ps[0]) == "\\%" + AfterPercent(spec) && IsSpec(spec) && KnownShapes(ps) == KnownShapes(ps[1..])
         case LoneBackslash => PieceText(ps[0]) == "\\" && Render(ps[1..]) == "" && KnownShapes(ps) == KnownShapes(ps[1..])
         case TwoPercents => PieceText(ps[0]) == "%%" && KnownShapes(ps) == KnownShapes(ps[1..])
         case Conversion(spec) =>
           && PieceText(ps[0]) == "%" + AfterPercent(spec) && IsSpec(spec)
           && (AllSupported(ps) ==> Supported(spec))
           && KnownShapes(ps) == (if Supported(spec) then ParamShapes(SpecParams(spec)) else []) + KnownShapes(ps[1..])
  {
    hide IsSpec, Supported, SpecParams, AfterPercent;
  }

  lemma {:induction false} FinishedShapes(split: Split)
    requires split.Split?
    ensures Finished(split).Some? && AllShapes(Finished(split).value) == AllShapes(split.fragments)
  {
    var fs := split.fragments;
    if fs == [] {
      assert AllShapes([Fragment(NoArgument, false, false, split.tail)]) == [];
    } else {
      LastTextOnly(fs, split.tail);
    }
  }

  lemma {:induction false} LastTextOnly(fs: seq<Fragment>, tail: string)
    requires fs != []
    ensures var last := fs[|fs| - 1];
            AllShapes(fs[..|fs| - 1] + [last.(text := last.text + tail)]) == AllShapes(fs)
  {
    var last := fs[|fs| - 1];
    var r := fs[..|fs| - 1] + [last.(text := last.text + tail)];
    if |fs| == 1 {
      assert r[1..] == [] && fs[1..] == [];
    } else {
      LastTextOnly(fs[1..], tail);
      assert r[1..] == fs[1..][..|fs| - 2] + [last.(text := last.text + tail)];
    }
  }

  /** Pieces of text and specifications that getParamInfo accepts: the two parsers agree on them
      exactly when the decoder supports every specification. */
  lemma {:induction false} PiecesAgreeIff(ps: seq<Piece>)
    requires ArePieces(ps)
    ensures Agree(Render(ps)) <==> AllSupported(ps)
  {
    ParamsOfPieces(ps);
    SplitOfPieces(ps, 0, "");
    KnownAreAllIff(ps);
    var s := Render(ps);
    var split := SplitFormat(s, 0, "");
    hide Params, SplitFormat, KnownShapes, PieceParams, AllSupported, AllShapes, Render;
    if split.Split? { FinishedShapes(split); }
  }

  // ---- Nibbles ----

  function NotStrings(shapes: seq<Shape>): nat {
    if shapes == [] then 0 else (if shapes[0].StringShape? then 0 else 1) + NotStrings(shapes[1..])
  }

  lemma {:induction false} NotStringsAppend(a: seq<Shape>, b: seq<Shape>)
    ensures NotStrings(a + b) == NotStrings(a) + NotStrings(b)
  {
    if a == [] {
      assert a + b == b;
    } else {
      NotStringsAppend(a[1..], b);
      assert (a + b)[1..] == a[1..] + b;
    }
  }

  lemma {:induction false} NibblesOfParams(params: seq<ParamType>)
    requires forall i :: 0 <= i < |params| ==> params[i] != Invalid
    ensures NibblesNeeded(params) == NotStrings(ParamShapes(params))
    decreases |params|
  {
    if params != [] {
      var init, last := params[..|params| - 1], params[|params| - 1];
      NibblesOfParams(init);
      ShapesAppend(init, [last]);
      NotStringsAppend(ParamShapes(init), ParamShapes([last]));
      assert params == init + [last];
      assert ParamShapes([last])[1..] == [];
    }
  }

  lemma {:induction false} NibblesOfFragments(fragments: seq<Fragment>)
    ensures AllNibblesOf(fragments) == NotStrings(AllShapes(fragments))
  {
    if fragments != [] {
      NibblesOfFragments(fragments[1..]);
      NotStringsAppend(FragmentShapes(fragments[0]), AllShapes(fragments[1..]));
      NibblesOfOne(fragments[0]);
    }
  }

  lemma {:induction false} NibblesOfOne(f: Fragment)
    ensures FragmentNibbles(f) == NotStrings(FragmentShapes(f))
  {
    var a := if f.dynamicWidth then [WidthShape] else [];
    var b := if f.dynamicPrecision then [PrecisionShape] else [];
    var c := if f.argType.NoArgument? then [] else if IsStringType(f.argType) then [StringShape] else [OtherShape];
    NotStringsAppend(a, b);
    NotStringsAppend(a + b, c);
    assert NotStrings(a) == |a| && NotStrings(b) == |b|;
    assert NotStrings(c) == if f.argType.NoArgument? || IsStringType(f.argType) then 0 else 1;
  }

  /** Where the parsers agree, they ask for the same number of nibbles; the decoder's counter has
      eight bits. */
  lemma {:induction false} SameNibbles(s: string)
    requires Agree(s)
    ensures AllNibblesOf(FragmentsOf(s).value) == NibblesNeeded(Params(s).params)
  {
    NeverInvalid(s);
    NibblesOfParams(Params(s).params);
    NibblesOfFragments(FragmentsOf(s).value);
    hide Params, FragmentsOf, NibblesNeeded, AllNibblesOf, NotStrings;
  }

  // ---- Format strings as pieces ----

  /** The specification behind a '%', as the compile-time parser finds it. */
  function SpecAt(s: string): Option<Spec> {
    var c := ScanSpec(s);
    if c.rest == [] then None else Some(Spec(c.flags, c.width, c.precision, c.length, c.rest[0]))
  }

  function BehindSpec(s: string): (rest: string)
    requires SpecAt(s).Some?
    ensures |rest| < |s|
  {
    ScanKeepsText(s);
    ScanSpec(s).rest[1..]
  }

  /** A format string taken apart.  "\\%%" is left apart: there a backslash takes a '%' with it that
      is no specification's. */
  function PiecesOf(s: string): seq<Piece>
    decreases |s|
  {
    if s == [] then []
    else if s == "\\" then [LoneBackslash]
    else if s[0] == '\\' && s[1] != '%' then [Escaped(s[1])] + PiecesOf(s[2..])
    else if s[0] == '\\' && |s| > 2 && s[2] != '%' then
      if SpecAt(s[2..]).None? then [] else [EscapedConversion(SpecAt(s[2..]).value)] + PiecesOf(BehindSpec(s[2..]))
    else if s[0] != '%' then [Plain(s[0])] + PiecesOf(s[1..])
    else if |s| > 1 && s[1] == '%' then [TwoPercents] + PiecesOf(s[2..])
    else if SpecAt(s[1..]).None? then []
    else [Conversion(SpecAt(s[1..]).value)] + PiecesOf(BehindSpec(s[1..]))
  }

  /** No specification of the format has '%' as its terminal character, as "% %" does. */
  predicate NoMarkedPercent(ps: seq<Piece>) {
    forall i :: 0 <= i < |ps| && TakesParams(ps[i]) ==> ps[i].spec.terminal != '%'
  }

  /** No backslash takes a '%' with it that is no specification's, as in "\%%". */
  predicate NoEscapedPercent(ps: seq<Piece>) {
    forall i :: 0 <= i < |ps| ==> ps[i] != Plain('\\')
  }

  predicate Unmarked(s: string) {
    Params(s).ok && NoEscapedPercent(PiecesOf(s)) && NoMarkedPercent(PiecesOf(s))
  }

  lemma {:induction false} PiecesKeepText(s: string)
    requires Unmarked(s)
    ensures ArePieces(PiecesOf(s)) && Render(PiecesOf(s)) == s
    decreases |s|
  {
    hide *;
    if s == [] {
      EmptyPieces();
    } else {
      var p, rest := PiecesStep(s);
      PiecesKeepText(rest);
      if rest == [] { EmptyPieces(); }
      AddPiece(p, PiecesOf(rest));
    }
  }

  lemma {:induction false} AddPiece(p: Piece, ps: seq<Piece>)
    requires ArePieces(ps) && IsPiece(p) && (p.LoneBackslash? ==> ps == [])
    ensures ArePieces([p] + ps) && Render([p] + ps) == PieceText(p) + Render(ps)
  {
    hide IsPiece;
    assert ([p] + ps)[1..] == ps;
  }

  /** The first piece of a format string and what is left behind it. */
  lemma {:induction false} PiecesStep(s: string) returns (p: Piece, rest: string)
    requires s != [] && Unmarked(s)
    ensures PiecesOf(s) == [p] + PiecesOf(rest) && IsPiece(p) && s == PieceText(p) + rest
    ensures Unmarked(rest) && |rest| < |s| && (p.LoneBackslash? ==> rest == [])
  {
    if s == "\\" {
      p, rest := LoneBackslash, [];
      ParamsOfNothing();
    } else if s[0] == '\\' && s[1] != '%' {
      p, rest := Escaped(s[1]), s[2..];
      ParamsAfterPlain(s);
      ParamsAfterPlain(s[1..]);
      assert s[1..][1..] == rest;
      TailUnmarked(p, rest, s);
    } else if s[0] == '\\' && |s| > 2 && s[2] != '%' {
      p, rest := EscapedSpecStep(s);
    } else if s[0] != '%' {
      p, rest := Plain(s[0]), s[1..];
      ParamsAfterPlain(s);
      TailUnmarked(p, rest, s);
    } else if |s| > 1 && s[1] == '%' {
      p, rest := TwoPercents, s[2..];
      ParamsAfterPercents(s);
      TailUnmarked(p, rest, s);
    } else {
      p, rest := SpecStep(s);
    }
    hide PiecesOf, Params, NoMarkedPercent, NoEscapedPercent, ScanSpec, AfterPercent, IsSpec;
    if !TakesParams(p) { assert s == PieceText(p) + rest; }
  }

  lemma {:induction false} EmptyPieces()
    ensures PiecesOf([]) == [] && ArePieces([]) && Render([]) == []
  {
  }

  lemma {:induction false} TailUnmarked(p: Piece, rest: string, s: string)
    requires PiecesOf(s) == [p] + PiecesOf(rest) && Unmarked(s) && Params(rest).ok
    ensures Unmarked(rest) && p != Plain('\\')
    ensures match p case Conversion(spec) => spec.terminal != '%' case EscapedConversion(spec) => spec.terminal != '%' case _ => true
  {
    var ps := PiecesOf(rest);
    hide PiecesOf, Params;
    var all := PiecesOf(s);
    assert all[0] == p && TakesParams(all[0]) == TakesParams(p);
    forall i | 0 <= i < |ps| ensures ps[i] == all[i + 1] && TakesParams(ps[i]) == TakesParams(all[i + 1]) {}
  }

  lemma {:induction false} SpecStep(s: string) returns (p: Piece, rest: string)
    requires s != [] && s[0] == '%' && !(|s| > 1 && s[1] == '%') && Unmarked(s)
    ensures TakesParams(p) && IsPiece(p) && s == PieceText(p) + rest
    ensures PiecesOf(s) == [p] + PiecesOf(rest) && Unmarked(rest) && |rest| < |s|
  {
    hide *;
    UnmarkedParams(s);
    SpecBehind(s);
    var spec := SpecAt(s[1..]).value;
    p, rest := Conversion(spec), BehindSpec(s[1..]);
    PiecesAtSpec(s);
    TailUnmarked(p, rest, s);
    SpecOfScan(s[1..]);
    assert s == "%" + s[1..] == "%" + AfterPercent(spec) + rest;
    ConversionIsPiece(spec);
  }

  lemma {:induction false} EscapedSpecStep(s: string) returns (p: Piece, rest: string)
    requires |s| > 2 && s[0] == '\\' && s[1] == '%' && s[2] != '%' && Unmarked(s)
    ensures TakesParams(p) && IsPiece(p) && s == PieceText(p) + rest
    ensures PiecesOf(s) == [p] + PiecesOf(rest) && Unmarked(rest) && |rest| < |s|
  {
    hide *;
    UnmarkedParams(s);
    ParamsAfterPlain(s);
    SpecBehind(s[1..]);
    assert s[1..][1..] == s[2..];
    var spec := SpecAt(s[2..]).value;
    p, rest := EscapedConversion(spec), BehindSpec(s[2..]);
    PiecesAtEscape(s);
    TailUnmarked(p, rest, s);
    SpecOfScan(s[2..]);
    assert s == "\\%" + s[2..] == "\\%" + AfterPercent(spec) + rest;
    ConversionIsPiece(spec);
  }

  lemma {:induction false} SpecBehind(s: string)
    requires s != [] && s[0] == '%' && !(|s| > 1 && s[1] == '%') && Params(s).ok
    ensures SpecAt(s[1..]).Some? && EndsWell([SpecAt(s[1..]).value.terminal]) && Params(BehindSpec(s[1..])).ok
  {
    ParamsStep(s);
    EndIs(ScanSpec(s[1..]).rest);
    hide Params, ScanSpec, EndsWell;
  }

  lemma {:induction false} UnmarkedParams(s: string)
    requires Unmarked(s)
    ensures Params(s).ok
  {
  }

  lemma {:induction false} ConversionIsPiece(spec: Spec)
    ensures IsSpec(spec) ==> IsPiece(Conversion(spec)) && IsPiece(EscapedConversion(spec))
    ensures PieceText(Conversion(spec)) == "%" + AfterPercent(spec)
    ensures PieceText(EscapedConversion(spec)) == "\\%" + AfterPercent(spec)
    ensures TakesParams(Conversion(spec)) && TakesParams(EscapedConversion(spec))
  {
  }

  lemma {:induction false} PiecesAtSpec(s: string)
    requires s != [] && s[0] == '%' && !(|s| > 1 && s[1] == '%') && SpecAt(s[1..]).Some?
    ensures PiecesOf(s) == [Conversion(SpecAt(s[1..]).value)] + PiecesOf(BehindSpec(s[1..]))
  {
    hide SpecAt, BehindSpec;
  }

  lemma {:induction false} PiecesAtEscape(s: string)
    requires |s| > 2 && s[0] == '\\' && s[1] == '%' && s[2] != '%' && SpecAt(s[2..]).Some?
    ensures PiecesOf(s) == [EscapedConversion(SpecAt(s[2..]).value)] + PiecesOf(BehindSpec(s[2..]))
  {
    hide SpecAt, BehindSpec;
  }

  lemma {:induction false} SpecOfScan(s: string)
    requires SpecAt(s).Some? && EndsWell([SpecAt(s).value.terminal]) && SpecAt(s).value.terminal != '%'
    ensures IsSpec(SpecAt(s).value) && s == AfterPercent(SpecAt(s).value) + BehindSpec(s)
  {
    ScanKeepsText(s);
    hide ScanSpec, AfterPercent, IsTerminal, IsField, FieldText, PrecisionText, All;
    var c := ScanSpec(s);
    SpecText(Spec(c.flags, c.width, c.precision, c.length, c.rest[0]), c.rest[1..]);
    assert c.rest == [c.rest[0]] + c.rest[1..];
  }

  /** For every format string that the compile-time parser accepts, in which no backslash and no flag
      goes before a literal '%': the decode-time parser finds the same parameters in the same order
      exactly when every specification is one that it supports. */
  lemma {:induction false} ParsersAgreeIff(s: string)
    requires Unmarked(s)
    ensures Agree(s) <==> AllSupported(PiecesOf(s))
  {
    hide *;
    PiecesKeepText(s);
    PiecesAgreeIff(PiecesOf(s));
  }

  // ---- All formats ----

  /** The specifications that the compile-time parser finds, flagged percent signs among them. */
  function CompiledSpecs(s: string): seq<Spec>
    decreases |s|
  {
    if s == [] then []
    else if s[0] != '%' then CompiledSpecs(s[1..])
    else if |s| > 1 && s[1] == '%' then CompiledSpecs(s[2..])
    else if SpecAt(s[1..]).None? then []
    else [SpecAt(s[1..]).value] + CompiledSpecs(BehindSpec(s[1..]))
  }

  /** What a specification stores is what the fragment reads: a width and a precision if they are
      stars, and a string or something else. */
  predicate Pairs(spec: Spec, f: Fragment) {
    && spec.width.Star? == f.dynamicWidth
    && (spec.precision.Some? && spec.precision.value.Star?) == f.dynamicPrecision
    && !f.argType.NoArgument? && (spec.terminal == 's' <==> IsStringType(f.argType))
  }

  predicate Paired(specs: seq<Spec>, fragments: seq<Fragment>) {
    |specs| == |fragments| && forall i :: 0 <= i < |specs| ==> Pairs(specs[i], fragments[i])
  }

  function SpecShapes(spec: Spec): seq<Shape> {
    (if spec.width.Star? then [WidthShape] else []) +
    (if spec.precision.Some? && spec.precision.value.Star? then [PrecisionShape] else []) +
    [if spec.terminal == 's' then StringShape else OtherShape]
  }

  function AllSpecShapes(specs: seq<Spec>): seq<Shape> {
    if specs == [] then [] else SpecShapes(specs[0]) + AllSpecShapes(specs[1..])
  }

  lemma {:induction false} OneSpecShapes(spec: Spec)
    requires spec.precision.Some? ==> IsField(spec.precision.value)
    ensures ParamShapes(StarParams(spec.width, spec.precision) + [OwnParam(spec.precision, spec.terminal)]) == SpecShapes(spec)
  {
    hide Decimal, IsField;
  }

  /** The parameters of the compile-time parser, specification by specification. */
  lemma {:induction false} CompiledShapes(s: string)
    requires Params(s).ok
    ensures ParamShapes(Params(s).params) == AllSpecShapes(CompiledSpecs(s))
    decreases |s|
  {
    hide *;
    CompiledStep(s);
    if s == [] {
      ParamsOfNothing();
      assert ParamShapes([]) == [];
    } else if s[0] != '%' {
      ParamsAfterPlain(s);
      CompiledShapes(s[1..]);
    } else if |s| > 1 && s[1] == '%' {
      ParamsAfterPercents(s);
      CompiledShapes(s[2..]);
    } else {
      SpecBehind(s);
      var spec, rest := SpecAt(s[1..]).value, BehindSpec(s[1..]);
      ParamsAtSpec(s);
      CompiledShapes(rest);
      OneSpecShapes(spec);
      ShapesAppend(StarParams(spec.width, spec.precision) + [OwnParam(spec.precision, spec.terminal)], Params(rest).params);
    }
  }

  lemma {:induction false} CompiledStep(s: string)
    ensures s == [] ==> AllSpecShapes(CompiledSpecs(s)) == []
    ensures s != [] && s[0] != '%' ==> CompiledSpecs(s) == CompiledSpecs(s[1..])
    ensures |s| > 1 && s[0] == '%' && s[1] == '%' ==> CompiledSpecs(s) == CompiledSpecs(s[2..])
    ensures s != [] && s[0] == '%' && !(|s| > 1 && s[1] == '%') && SpecAt(s[1..]).Some? ==>
              AllSpecShapes(CompiledSpecs(s))
              == SpecShapes(SpecAt(s[1..]).value) + AllSpecShapes(CompiledSpecs(BehindSpec(s[1..])))
  {
    hide SpecAt, BehindSpec, SpecShapes;
    if s != [] && s[0] == '%' && !(|s| > 1 && s[1] == '%') && SpecAt(s[1..]).Some? {
      var later := CompiledSpecs(BehindSpec(s[1..]));
      assert CompiledSpecs(s)[1..] == later;
    }
  }

  lemma {:induction false} ParamsAtSpec(s: string)
    requires s != [] && s[0] == '%' && !(|s| > 1 && s[1] == '%') && Params(s).ok && SpecAt(s[1..]).Some?
    ensures var spec := SpecAt(s[1..]).value;
            && (spec.precision.Some? ==> IsField(spec.precision.value))
            && Params(s).params
               == StarParams(spec.width, spec.precision) + [OwnParam(spec.precision, spec.terminal)]
                  + Params(BehindSpec(s[1..])).params
  {
    ParamsStep(s);
    hide Params, ScanSpec, EndsWell, OwnParam, StarParams, IsField;
  }

  lemma {:induction false} ReadingShapes(s: string)
    requires FragmentsOf(s).Some?
    ensures AllShapes(Reading(FragmentsOf(s).value)) == AllShapes(FragmentsOf(s).value)
    ensures TakeArguments(Reading(FragmentsOf(s).value))
  {
    FragmentsTake(s);
    hide FragmentsOf, TakeArguments;
    var all := FragmentsOf(s).value;
    if Reading(all) != all {
      assert all[1..] == [];
    }
  }

  /** Shapes that begin with those of one parameter and are equal do so on both sides. */
  lemma {:induction false} SameBeginning(spec: Spec, f: Fragment, a: seq<Shape>, b: seq<Shape>)
    requires SpecShapes(spec) + a == FragmentShapes(f) + b && !f.argType.NoArgument?
    ensures Pairs(spec, f) && a == b
  {
    var x, y := SpecShapes(spec) + a, FragmentShapes(f) + b;
    var star, dynamic := spec.width.Star?, spec.precision.Some? && spec.precision.value.Star?;
    assert x[0] == y[0];
    assert star == f.dynamicWidth;
    var k := if star then 1 else 0;
    assert x[k] == y[k];
    assert dynamic == f.dynamicPrecision;
    var n := if dynamic then k + 1 else k;
    assert x[n] == y[n];
    assert x[n + 1..] == a && y[n + 1..] == b;
  }

  /** Equal shapes can be cut into parameters in one way only. */
  lemma {:induction false} PairedIff(specs: seq<Spec>, fragments: seq<Fragment>)
    requires TakeArguments(fragments)
    ensures AllSpecShapes(specs) == AllShapes(fragments) <==> Paired(specs, fragments)
  {
    hide SpecShapes, FragmentShapes, Pairs;
    if specs != [] { SomeShapes(specs[0]); }
    if specs != [] && fragments != [] {
      PairedIff(specs[1..], fragments[1..]);
      var a, b := AllSpecShapes(specs[1..]), AllShapes(fragments[1..]);
      if AllSpecShapes(specs) == AllShapes(fragments) { SameBeginning(specs[0], fragments[0], a, b); }
      if Paired(specs, fragments) {
        PairsShapes(specs[0], fragments[0]);
        assert Paired(specs[1..], fragments[1..]);
      }
      if Pairs(specs[0], fragments[0]) && Paired(specs[1..], fragments[1..]) {
        forall i | 0 <= i < |specs| ensures Pairs(specs[i], fragments[i]) {
          if i > 0 { assert specs[i] == specs[1..][i - 1] && fragments[i] == fragments[1..][i - 1]; }
        }
      }
    } else if fragments != [] {
      SomeFragmentShapes(fragments[0]);
    }
  }

  lemma {:induction false} SomeShapes(spec: Spec)
    ensures SpecShapes(spec) != []
  {
  }

  lemma {:induction false} SomeFragmentShapes(f: Fragment)
    requires !f.argType.NoArgument?
    ensures FragmentShapes(f) != []
  {
  }

  lemma {:induction false} PairsShapes(spec: Spec, f: Fragment)
    requires Pairs(spec, f)
    ensures SpecShapes(spec) == FragmentShapes(f)
  {
  }

  /** For every format string that compiles: the parsers agree if and only if the decoder accepts it and
      its fragments pair up, one by one, with the specifications that the compiler has found. */
  lemma {:induction false} ParsersAgreeIffPaired(s: string)
    requires Params(s).ok
    ensures Agree(s) <==> FragmentsOf(s).Some? && Paired(CompiledSpecs(s), Reading(FragmentsOf(s).value))
  {
    hide Params, FragmentsOf, CompiledSpecs, AllShapes, AllSpecShapes, Paired, Reading, TakeArguments;
    CompiledShapes(s);
    if FragmentsOf(s).Some? {
      ReadingShapes(s);
      PairedIff(CompiledSpecs(s), Reading(FragmentsOf(s).value));
    }
  }

  // ---- What the excluded formats do ----

  const DECIMAL := Spec("", Digits(""), None, "", 'd')

  /** A backslash hides a specification from the decode-time parser only. */
  lemma {:induction false} BackslashDisagrees()
    ensures Params("\\%d").ok && !Agree("\\%d")
  {
    var ps := [EscapedConversion(DECIMAL)];
    DecimalText();
    assert ps[1..] == [] && Render(ps) == "\\%d";
    ParamsOfPieces(ps);
    PiecesAgreeIff(ps);
  }

  lemma {:induction false} DecimalText()
    ensures AfterPercent(DECIMAL) == "d" && IsSpec(DECIMAL)
  {
  }

  lemma {:induction false} NoArgumentShapes(text: string)
    ensures AllShapes([Fragment(NoArgument, false, false, text)]) == []
  {
    assert [Fragment(NoArgument, false, false, text)][1..] == [];
  }

  /** A flag in front of a literal '%' makes it a parameter for the compile-time parser only. */
  lemma {:induction false} MarkedPercentDisagrees()
    ensures Params("% %").ok && !Agree("% %")
  {
    var s := "% %";
    var spec := Spec(" ", Digits(""), None, "", '%');
    assert AfterPercent(spec) + [] == " %" == s[1..];
    MarkedParts(spec);
    ScanOfSpec(spec, []);
    ParamsStep(s);
    ParamsOfNothing();
    assert Match(s).None?;
    StepCases(s, 0);
    SplitStep(s, 0, "");
    hide Params, SplitFormat, StepAt, ScanSpec, AfterPercent, OwnParam, StarParams;
    assert s[1..] == " " + "%" && "" + s[..1] == "%";
    SplitPlain(" ", "%", 1, "%");
    LonePercent("%" + " ");
    NoArgumentShapes("%" + " " + "%");
  }

  /** The decode-time parser takes that '%' for the beginning of a specification, so whether the two
      agree after all is a matter of what follows. */
  lemma {:induction false} MarkedPercentMayAgree()
    ensures Params("% %d").ok && Agree("% %d")
  {
    var s := "% %d";
    var spec := Spec(" ", Digits(""), None, "", '%');
    assert AfterPercent(spec) + "d" == " %d" == s[1..];
    MarkedParts(spec);
    ScanOfSpec(spec, "d");
    ParamsStep(s);
    ParamsAfterPlain("d");
    ParamsOfNothing();
    assert Match(s).None?;
    StepCases(s, 0);
    SplitStep(s, 0, "");
    MarkedShapes(spec);
    hide Params, SplitFormat, StepAt, ScanSpec, AfterPercent, OwnParam, StarParams, Match;
    assert s[1..] == " " + "%d" && "" + s[..1] == "%";
    SplitPlain(" ", "%d", 1, "%");
    DecimalFragment("%" + " ");
  }

  lemma {:induction false} MarkedShapes(spec: Spec)
    requires spec == Spec(" ", Digits(""), None, "", '%')
    ensures ParamShapes(StarParams(spec.width, spec.precision) + [OwnParam(spec.precision, spec.terminal)] + []) == [OtherShape]
  {
  }

  lemma {:induction false} DecimalFragment(text: string)
    ensures var split := SplitFormat("%d", 0, text);
            Finished(split).Some? && AllShapes(Finished(split).value) == [OtherShape]
  {
    var s := "%d";
    DecimalText();
    assert s == "%" + AfterPercent(DECIMAL) + "";
    DecimalType();
    hide *;
    SplitRegexSpec(DECIMAL, "", 0, text);
    SplitStep("", 0, "");
    var f := Fragment(Int, false, false, text + "%d");
    PrependParts(f, Split([], ""));
    FinishedShapes(Split([f], ""));
    IntShapes(f);
  }

  lemma {:induction false} IntShapes(f: Fragment)
    requires f.argType == Int && !f.dynamicWidth && !f.dynamicPrecision
    ensures AllShapes([f]) == [OtherShape]
  {
    assert [f][1..] == [];
  }

  lemma {:induction false} DecimalType()
    ensures IsRegexSpec(DECIMAL) && FormatTypeOf(DECIMAL.length, DECIMAL.terminal) == Some(Int)
    ensures !DECIMAL.width.Star? && DECIMAL.precision.None?
  {
  }

  lemma {:induction false} MarkedParts(spec: Spec)
    requires spec == Spec(" ", Digits(""), None, "", '%')
    ensures All(IsFlag, spec.flags) && IsField(spec.width) && All(IsLength, spec.length) && IsTerminal(spec.terminal)
    ensures EndsWell(['%']) && |StarParams(spec.width, spec.precision)| == 0
  {
  }

  lemma {:induction false} LonePercent(text: string)
    ensures SplitFormat("%", 0, text) == Split([], text + "%")
  {
    var s := "%";
    assert Match(s).None? by { assert s[1..] == ""; }
    StepCases(s, 0);
    SplitStep(s, 0, text);
    assert s[1..] == "" && s[..1] == "%";
    SplitStep("", 1, text + "%");
  }
}
