/** What a format of the standard and its arguments become: every value is read back as itself, strings
    as far as printf would print them. */
module StandardCodec {
  import opened Wrappers
  import opened Bytes
  import opened Packing
  import opened Arguments
  import opened ArgumentDecode
  import opened Formats
  import opened FormatGrammar
  import opened FormatParameters
  import opened MicroCode
  import opened FormatAgreement
  import opened FormatCodec
  import opened StandardFormats

  /** Arguments of the types that the standard names for the specifications, strings in memory. */
  predicate StandardArgs(ps: seq<Piece>, args: seq<Argument>) {
    && ArePieces(ps) && AllStandard(ps) && AllValid(args)
    && PassedFor(PieceParams(ps), args) && |Slots(ps)| == |args| && Known(Slots(ps))
    && (forall i :: 0 <= i < |args| ==> PassedAs(StandardType(Slots(ps)[i].length, Slots(ps)[i].specifier).value, args[i]))
    && (forall i :: 0 <= i < |args| ==> InMemory(args[i]))
  }

  predicate InMemory(a: Argument) {
    a.value.Chars? ==> |a.value.chars| < 0x8000_0000_0000_0000
  }

  function WantedAt(ps: seq<Piece>, args: seq<Argument>, i: nat): Decoded
    requires |Slots(ps)| == |args| && AllValid(args) && i < |args|
    requires forall k :: 0 <= k < |args| ==> (IsString(args[k].kind) <==> Slots(ps)[k].specifier == 's')
  {
    Itself(Slots(ps)[i].length, Slots(ps)[i].specifier, args[i],
           if IsString(args[i].kind) then CharsPrinted(args, i) else 0)
  }

  /** Every argument itself, strings as far as they are printed. */
  function Wanted(ps: seq<Piece>, args: seq<Argument>): (r: seq<Decoded>)
    requires |Slots(ps)| == |args| && AllValid(args)
    requires forall k :: 0 <= k < |args| ==> (IsString(args[k].kind) <==> Slots(ps)[k].specifier == 's')
    ensures |r| == |args|
  {
    seq(|args|, i requires 0 <= i < |args| => WantedAt(ps, args, i))
  }

  lemma {:induction false} StringSlots(ps: seq<Piece>, args: seq<Argument>)
    requires StandardArgs(ps, args)
    ensures |Slots(ps)| == |args| && AllValid(args) && Known(Slots(ps))
    ensures forall k :: 0 <= k < |args| ==> (IsString(args[k].kind) <==> Slots(ps)[k].specifier == 's')
  {
    KindsOfPieces(ps);
    hide PieceParams, Slots, AllStandard, ArePieces, Known, PassedAs, StandardType, IsString;
  }

  /** Truncation keeps the type for which an argument is passed. */
  lemma {:induction false} StillPassed(c: CType, a: Argument, n: nat)
    requires PassedAs(c, a) && IsString(a.kind) && n <= |a.value.chars|
    ensures PassedAs(c, a.(value := Chars(a.value.at, a.value.chars[..n])))
  {
    hide Pow256;
  }

  lemma {:induction false} ArgsAt(ps: seq<Piece>, args: seq<Argument>, i: nat)
    requires StandardArgs(ps, args) && i < |args|
    ensures AllValid(args) && args[i].Valid() && i < |Slots(ps)| && Known(Slots(ps)) && InMemory(args[i])
    ensures StandardType(Slots(ps)[i].length, Slots(ps)[i].specifier).Some?
    ensures PassedAs(StandardType(Slots(ps)[i].length, Slots(ps)[i].specifier).value, args[i])
    ensures IsString(args[i].kind) <==> Slots(ps)[i].specifier == 's'
    ensures SlotNeeds(Slots(ps))[i] == SlotNeed(Slots(ps)[i])
  {
    StringSlots(ps, args);
    hide Slots, PassedAs, StandardType, PieceParams, SlotNeed, IsString;
  }

  /** One argument, stored and read back. */
  lemma {:induction false} ValueRead(ps: seq<Piece>, args: seq<Argument>, i: nat)
    requires StandardArgs(ps, args) && i < |args|
    ensures |Slots(ps)| == |args| && AllValid(args) && Known(Slots(ps))
    ensures forall k :: 0 <= k < |args| ==> (IsString(args[k].kind) <==> Slots(ps)[k].specifier == 's')
    ensures var f, b := SlotNeeds(Slots(ps))[i], Truncated(args, NO_PRECISION)[i];
            Prints(f, args[i]) && Matches(f, b) && Expected(f, b) == WantedAt(ps, args, i)
  {
    hide *;
    StringSlots(ps, args);
    ArgsAt(ps, args, i);
    TruncatedIs(args, i);
    InMemoryIs(args[i]);
    StringHasChars(args[i]);
    var slot, a, b := Slots(ps)[i], args[i], Truncated(args, NO_PRECISION)[i];
    var c := StandardType(slot.length, slot.specifier).value;
    StandardRead(slot, a);
    if IsString(a.kind) {
      StillPassed(c, a, CharsPrinted(args, i));
      PassedIsValid(c, b);
      StandardRead(slot, b);
      CutItself(slot, a, CharsPrinted(args, i));
    } else {
      NotCutItself(slot, a);
    }
    WantedIs(ps, args, i);
  }

  lemma {:induction false} InMemoryIs(a: Argument)
    requires InMemory(a)
    ensures a.value.Chars? ==> |a.value.chars| < 0x8000_0000_0000_0000
  {
  }

  lemma {:induction false} StringHasChars(a: Argument)
    requires a.Valid()
    ensures IsString(a.kind) ==> a.value.Chars?
  {
    hide Pow256;
  }

  lemma {:induction false} CutItself(s: Slot, a: Argument, n: nat)
    requires a.Valid() && a.value.Chars? && s.specifier == 's' && n <= |a.value.chars|
    requires a.(value := Chars(a.value.at, a.value.chars[..n])).Valid()
    ensures var b := a.(value := Chars(a.value.at, a.value.chars[..n]));
            |b.value.chars| == n && Itself(s.length, s.specifier, b, n) == Itself(s.length, s.specifier, a, n)
  {
    hide Pow256;
    assert a.value.chars[..n][..n] == a.value.chars[..n];
  }

  lemma {:induction false} NotCutItself(s: Slot, a: Argument)
    requires a.Valid() && s.specifier != 's'
    ensures forall n: nat :: Itself(s.length, s.specifier, a, n) == Itself(s.length, s.specifier, a, 0)
  {
    hide Pow256;
  }

  lemma {:induction false} WantedIs(ps: seq<Piece>, args: seq<Argument>, i: nat)
    requires |Slots(ps)| == |args| && AllValid(args) && i < |args|
    requires forall k :: 0 <= k < |args| ==> (IsString(args[k].kind) <==> Slots(ps)[k].specifier == 's')
    ensures IsString(args[i].kind) ==>
              WantedAt(ps, args, i) == Itself(Slots(ps)[i].length, Slots(ps)[i].specifier, args[i], CharsPrinted(args, i))
    ensures !IsString(args[i].kind) ==>
              WantedAt(ps, args, i) == Itself(Slots(ps)[i].length, Slots(ps)[i].specifier, args[i], 0)
  {
    hide Itself, Slots, CharsPrinted, IsString;
  }

  /** All values that are read back. */
  lemma {:induction false} ValuesRead(ps: seq<Piece>, args: seq<Argument>)
    requires StandardArgs(ps, args)
    ensures |Slots(ps)| == |args| && AllValid(args) && Known(Slots(ps))
    ensures forall k :: 0 <= k < |args| ==> (IsString(args[k].kind) <==> Slots(ps)[k].specifier == 's')
    ensures AllPrint(SlotNeeds(Slots(ps)), args)
    ensures AllMatch(SlotNeeds(Slots(ps)), Truncated(args, NO_PRECISION))
    ensures AllExpected(SlotNeeds(Slots(ps)), Truncated(args, NO_PRECISION)) == Wanted(ps, args)
  {
    StringSlots(ps, args);
    hide StandardArgs, Slots, SlotNeeds, Prints, Matches, Expected, WantedAt, Truncated, Known, IsString;
    forall i | 0 <= i < |args|
      ensures var f, b := SlotNeeds(Slots(ps))[i], Truncated(args, NO_PRECISION)[i];
              Prints(f, args[i]) && Matches(f, b) && Expected(f, b) == WantedAt(ps, args, i)
    {
      ValueRead(ps, args, i);
    }
  }

  /** A string can be stored if and only if what is printed of it has less than 2^32 bytes. */
  predicate StringsFit(args: seq<Argument>)
    requires AllValid(args)
  {
    forall i :: 0 <= i < |args| && IsString(args[i].kind) ==>
      args[i].ctype.charWidth * CharsPrinted(args, i) < 0x1_0000_0000
  }

  lemma {:induction false} StorableIff(args: seq<Argument>)
    requires AllValid(args) && forall i :: 0 <= i < |args| ==> InMemory(args[i])
    ensures Storable(Truncated(args, NO_PRECISION)) <==> StringsFit(args)
  {
    var cut := Truncated(args, NO_PRECISION);
    Pow256Values();
    forall i | 0 <= i < |args| && IsString(args[i].kind)
      ensures IsString(cut[i].kind) && |StringBytes(cut[i])| == args[i].ctype.charWidth * CharsPrinted(args, i)
    {
      TruncatedIs(args, i);
      StringHasChars(args[i]);
      hide Truncated, CharsPrinted, TextBytes, Pow256;
    }
    hide Truncated, CharsPrinted, StringBytes, Pow256;
  }

  lemma {:induction false} StandardParts(ps: seq<Piece>, args: seq<Argument>)
    requires StandardArgs(ps, args)
    ensures ArePieces(ps) && AllStandard(ps) && AllValid(args) && PassedFor(PieceParams(ps), args)
    ensures forall i :: 0 <= i < |args| ==> InMemory(args[i])
  {
    hide Slots, AllStandard, ArePieces, Known, PassedAs, StandardType, PieceParams, InMemory;
  }

  /** Any format made of text and specifications of the standard, with arguments of the types that the
      standard names: what is read back are these values, strings as far as printf would print them,
      up to the 255 fragments that the decoder can count.  It fails only for a string of 2^32 bytes
      or more. */
  method StandardRoundTrip(ps: seq<Piece>, args: seq<Argument>) returns (ok: bool, values: seq<Decoded>)
    requires StandardArgs(ps, args) && NibblesNeeded(PieceParams(ps)) < 256
    ensures |Slots(ps)| == |args| && AllValid(args) && FragmentsOf(Render(ps)).Some?
    ensures forall k :: 0 <= k < |args| ==> (IsString(args[k].kind) <==> Slots(ps)[k].specifier == 's')
    ensures ok <==> StringsFit(args)
    ensures ok ==> values <= Wanted(ps, args)
                   && (values == Wanted(ps, args) <==> |FragmentsOf(Render(ps)).value| < 256)
  {
    hide *;
    StandardParts(ps, args);
    ParamsOfPieces(ps);
    NeedsOfPieces(ps);
    ValuesRead(ps, args);
    StorableIff(args);
    ok, values := FormatRoundTrip(Render(ps), args);
  }
}
