/** What section 7.21.6.1 of ISO/IEC 9899:2011 says about conversion specifications, written down by
    itself, and what the two parsers and the codec make of it. */
module StandardFormats {
  import opened Wrappers
  import opened Bytes
  import opened Packing
  import opened Arguments
  import opened ArgumentDecode
  import opened Formats
  import opened FormatGrammar
  import opened FormatParameters
  import opened MicroCode
  import opened FormatAgreement

  // ---- Numbers in a format ----

  const DIGITS: string := "0123456789"

  function DigitsOf(n: nat): string {
    if n < 10 then [DIGITS[n]] else DigitsOf(n / 10) + [DIGITS[n % 10]]
  }

  function Zeros(k: nat): string {
    if k == 0 then "" else Zeros(k - 1) + "0"
  }

  lemma {:induction false} DigitIs(d: nat)
    requires d < 10
    ensures IsDigit(DIGITS[d]) && DIGITS[d] as int - '0' as int == d
  {
    assert DIGITS[0] == '0' && DIGITS[1] == '1' && DIGITS[2] == '2' && DIGITS[3] == '3' && DIGITS[4] == '4';
    assert DIGITS[5] == '5' && DIGITS[6] == '6' && DIGITS[7] == '7' && DIGITS[8] == '8' && DIGITS[9] == '9';
  }

  lemma {:induction false} DecimalMore(digits: string, d: nat)
    requires All(IsDigit, digits) && d < 10
    ensures All(IsDigit, digits + [DIGITS[d]]) && Decimal(digits + [DIGITS[d]]) == 10 * Decimal(digits) + d
  {
    DigitIs(d);
    var more := digits + [DIGITS[d]];
    assert more[..|digits|] == digits && more[|digits|] == DIGITS[d];
  }

  /** Leading zeros and the digits of a number are that number to the parser. */
  lemma {:induction false} DecimalOfDigits(k: nat, n: nat)
    ensures All(IsDigit, Zeros(k) + DigitsOf(n)) && Decimal(Zeros(k) + DigitsOf(n)) == n
  {
    hide Decimal, All;
    DecimalOfZeros(k);
    if n < 10 {
      DecimalMore(Zeros(k), n);
    } else {
      DecimalOfDigits(k, n / 10);
      DecimalMore(Zeros(k) + DigitsOf(n / 10), n % 10);
      assert Zeros(k) + DigitsOf(n / 10) + [DIGITS[n % 10]] == Zeros(k) + DigitsOf(n);
    }
  }

  lemma {:induction false} DecimalOfZeros(k: nat)
    ensures All(IsDigit, Zeros(k)) && Decimal(Zeros(k)) == 0
  {
    if k > 0 {
      DecimalOfZeros(k - 1);
      DecimalMore(Zeros(k - 1), 0);
      hide Decimal, All;
      assert [DIGITS[0]] == "0";
    }
  }

  // ---- Precisions ----

  lemma {:induction false} PiecesApart(a: seq<Piece>, b: seq<Piece>)
    requires ArePieces(a + b)
    ensures ArePieces(b) && (b != [] ==> ArePieces(a))
  {
    hide IsPiece;
    assert forall i :: 0 <= i < |b| ==> b[i] == (a + b)[|a| + i];
    assert forall i :: 0 <= i < |a| ==> a[i] == (a + b)[i];
  }

  lemma {:induction false} PieceParamsAppend(a: seq<Piece>, b: seq<Piece>)
    requires ArePieces(a + b) && ArePieces(a) && ArePieces(b)
    ensures PieceParams(a + b) == PieceParams(a) + PieceParams(b)
  {
    if a == [] {
      assert a + b == b;
    } else {
      assert (a + b)[0] == a[0] && (a + b)[1..] == a[1..] + b;
      hide *;
      PiecesTail(a + b);
      PiecesTail(a);
      PieceParamsFirst(a + b);
      PieceParamsFirst(a);
      PieceParamsAppend(a[1..], b);
    }
  }

  lemma {:induction false} PieceParamsFirst(ps: seq<Piece>)
    requires ArePieces(ps) && ps != []
    ensures IsPiece(ps[0]) && ArePieces(ps[1..]) && (TakesParams(ps[0]) ==> IsSpec(ps[0].spec))
    ensures PieceParams(ps) == (if TakesParams(ps[0]) then SpecParams(ps[0].spec) else []) + PieceParams(ps[1..])
  {
    PiecesTail(ps);
    hide ArePieces, SpecParams, IsSpec;
  }

  lemma {:induction false} PiecesTail(ps: seq<Piece>)
    requires ArePieces(ps) && ps != []
    ensures ArePieces(ps[1..]) && IsPiece(ps[0])
  {
    hide IsPiece;
    assert forall i :: 0 <= i < |ps[1..]| ==> ps[1..][i] == ps[i + 1];
  }

  /** The parameters of a specification stand between those of what is around it. */
  lemma {:induction false} ParamsInside(a: seq<Piece>, spec: Spec, b: seq<Piece>)
    requires ArePieces(a + [Conversion(spec)] + b)
    ensures ArePieces(a) && IsSpec(spec) && ArePieces(b)
    ensures Params(Render(a + [Conversion(spec)] + b))
            == Listing(PieceParams(a) + SpecParams(spec) + PieceParams(b), true)
  {
    var inside := [Conversion(spec)] + b;
    assert a + [Conversion(spec)] + b == a + inside;
    assert inside[0] == Conversion(spec) && inside[1..] == b;
    ParamsOfPieces(a + inside);
    PiecesApart(a, inside);
    PiecesTail(inside);
    PieceParamsAppend(a, inside);
    hide Params, SpecParams, Render, IsSpec, ArePieces;
  }

  /** The parameter that a width takes before that. */
  function WidthParam(width: Field): seq<ParamType> {
    if width == Star then [DynamicWidth] else []
  }

  /** %.<n>s: a string of at most n characters, however many zeros are written before the number. */
  lemma {:induction false} NumberedPrecision(a: seq<Piece>, b: seq<Piece>, flags: string, width: Field, length: string,
                                             k: nat, n: nat)
    requires ArePieces(a + [Conversion(Spec(flags, width, Some(Digits(Zeros(k) + DigitsOf(n))), length, 's'))] + b)
    ensures ArePieces(a) && ArePieces(b)
    ensures Params(Render(a + [Conversion(Spec(flags, width, Some(Digits(Zeros(k) + DigitsOf(n))), length, 's'))] + b))
            == Listing(PieceParams(a) + (WidthParam(width) + [StringWithPrecision(n)]) + PieceParams(b), true)
  {
    var spec := Spec(flags, width, Some(Digits(Zeros(k) + DigitsOf(n))), length, 's');
    ParamsInside(a, spec, b);
    DecimalOfDigits(k, n);
    hide Params, Render, Decimal, IsSpec, All, PieceParams;
    assert SpecParams(spec) == WidthParam(width) + [StringWithPrecision(n)];
  }

  /** %.*s: the precision is a parameter, and the string is cut by it. */
  lemma {:induction false} StarPrecision(a: seq<Piece>, b: seq<Piece>, flags: string, width: Field, length: string)
    requires ArePieces(a + [Conversion(Spec(flags, width, Some(Star), length, 's'))] + b)
    ensures ArePieces(a) && ArePieces(b)
    ensures Params(Render(a + [Conversion(Spec(flags, width, Some(Star), length, 's'))] + b))
            == Listing(PieceParams(a) + (WidthParam(width) + [DynamicPrecision, StringWithDynamicPrecision]) + PieceParams(b),
                       true)
  {
    var spec := Spec(flags, width, Some(Star), length, 's');
    ParamsInside(a, spec, b);
    hide Params, Render, IsSpec, PieceParams;
    assert SpecParams(spec) == WidthParam(width) + [DynamicPrecision, StringWithDynamicPrecision];
  }

  /** %.s: nothing behind the '.' is a zero. */
  lemma {:induction false} EmptyPrecision(a: seq<Piece>, b: seq<Piece>, flags: string, width: Field, length: string)
    requires ArePieces(a + [Conversion(Spec(flags, width, Some(Digits("")), length, 's'))] + b)
    ensures ArePieces(a) && ArePieces(b)
    ensures Params(Render(a + [Conversion(Spec(flags, width, Some(Digits("")), length, 's'))] + b))
            == Listing(PieceParams(a) + (WidthParam(width) + [StringWithPrecision(0)]) + PieceParams(b), true)
  {
    var spec := Spec(flags, width, Some(Digits("")), length, 's');
    ParamsInside(a, spec, b);
    hide Params, Render, IsSpec, PieceParams;
    assert SpecParams(spec) == WidthParam(width) + [StringWithPrecision(0)];
  }

  /** %s: no precision; and a precision of anything but a string is no limit on one. */
  lemma {:induction false} NoPrecision(a: seq<Piece>, b: seq<Piece>, flags: string, width: Field, precision: Option<Field>,
                                       length: string, terminal: char)
    requires ArePieces(a + [Conversion(Spec(flags, width, precision, length, terminal))] + b)
    requires terminal == 's' ==> precision == None
    ensures ArePieces(a) && ArePieces(b)
    ensures Params(Render(a + [Conversion(Spec(flags, width, precision, length, terminal))] + b))
            == Listing(PieceParams(a)
                       + (WidthParam(width) + (if precision == Some(Star) then [DynamicPrecision] else [])
                          + [if terminal == 's' then StringWithNoPrecision else NonString])
                       + PieceParams(b), true)
  {
    var spec := Spec(flags, width, precision, length, terminal);
    ParamsInside(a, spec, b);
    hide Params, Render, IsSpec, PieceParams;
    assert SpecParams(spec) == WidthParam(width) + (if precision == Some(Star) then [DynamicPrecision] else [])
                               + [if terminal == 's' then StringWithNoPrecision else NonString];
  }

  // ---- Types ----

  /** The type of the argument that the standard names for a length modifier and a conversion
      specifier, on a 64-bit machine; ssize_t is the signed type that corresponds to size_t. */
  function StandardType(length: string, specifier: char): Option<CType> {
    if specifier in "di" && length in {"", "hh", "h", "l", "ll", "j", "z", "t"} then
      Some(Integer(IntType(true, StandardWidth(length))))
    else if specifier in "uoxX" && length in {"", "hh", "h", "l", "ll", "j", "z", "t"} then
      Some(Integer(IntType(false, StandardWidth(length))))
    else if specifier in "fFeEgGaA" && length in {"", "l"} then Some(Floating(8))
    else if specifier in "fFeEgGaA" && length == "L" then Some(Floating(16))
    else if specifier == 'c' && length == "" then Some(Integer(IntType(true, 4)))
    else if specifier == 'c' && length == "l" then Some(Integer(IntType(false, 4)))
    else if specifier == 's' && length == "" then Some(Text(1))
    else if specifier == 's' && length == "l" then Some(Text(4))
    else if specifier == 'p' && length == "" then Some(Pointer)
    else None
  }

  function StandardWidth(length: string): nat {
    if length == "hh" then 1 else if length == "h" then 2 else if length == "" then 4 else 8
  }

  /** An argument passed for that type: integers at least as wide, or promoted to int, with a value of
      the type; a float is promoted to double; a string can be printed as a pointer. */
  predicate PassedAs(c: CType, a: Argument) {
    a.Valid() &&
    match c
    case Integer(t) =>
      && a.ctype.Integer? && (a.ctype.t.width >= t.width || (t.width == 4 && a.ctype.t.width < 4))
      && t.Valid() && t.Holds(a.value.n)
    case Floating(size) => a.ctype == Floating(size) || (size == 8 && a.ctype == Floating(4))
    case Pointer => a.ctype.Pointer? || a.ctype.Text?
    case Text(charWidth) => a.ctype == Text(charWidth)
  }

  /** The number that is read back.  The decoder takes 'z' for size_t with every specifier, and 't' for
      ptrdiff_t. */
  function NumberRead(length: string, specifier: char, n: int): int {
    if length == "z" && specifier in "di" && n < 0 then n + 0x1_0000_0000_0000_0000
    else if length == "t" && specifier in "uoxX" && n >= 0x8000_0000_0000_0000 then n - 0x1_0000_0000_0000_0000
    else n
  }

  /** What should be read back of an argument: itself; of a string `n` characters. */
  function Itself(length: string, specifier: char, a: Argument, n: nat): Decoded
    requires a.Valid() && (a.value.Chars? && specifier == 's' ==> n <= |a.value.chars|)
  {
    match a.value
    case Number(v) => IntegerRead(NumberRead(length, specifier, v))
    case Address(at) => PointerRead(at)
    case Real(bits) => FloatRead(bits)
    case Chars(at, chars) => if specifier == 's' then StringRead(chars[..n]) else PointerRead(at)
  }

  /** The decoder knows every pair of the standard. */
  lemma {:induction false} StandardIsKnown(length: string, specifier: char)
    requires StandardType(length, specifier).Some?
    ensures IsRegexLength(length) && IsTerminal(specifier) && specifier != '%' && specifier != 'n'
    ensures FormatTypeOf(length, specifier).Some?
    ensures IsStringType(FormatTypeOf(length, specifier).value) <==> specifier == 's'
  {
    SpecifierIs(specifier);
  }

  /** Membership in the strings of specifiers, spelled out. */
  lemma {:induction false} SpecifierIs(c: char)
    ensures c in "di" <==> c == 'd' || c == 'i'
    ensures c in "uoxX" <==> c == 'u' || c == 'o' || c == 'x' || c == 'X'
    ensures c in "fFeEgGaA" <==> c == 'f' || c == 'F' || c == 'e' || c == 'E' || c == 'g' || c == 'G' || c == 'a' || c == 'A'
    ensures c in "sc" <==> c == 's' || c == 'c'
    ensures c in "diuoxX" <==> c == 'd' || c == 'i' || c == 'u' || c == 'o' || c == 'x' || c == 'X'
  {
    assert "di"[0] == 'd' && "di"[1] == 'i' && "sc"[0] == 's' && "sc"[1] == 'c';
    assert "uoxX"[0] == 'u' && "uoxX"[1] == 'o' && "uoxX"[2] == 'x' && "uoxX"[3] == 'X';
    var f := "fFeEgGaA";
    assert f[0] == 'f' && f[1] == 'F' && f[2] == 'e' && f[3] == 'E' && f[4] == 'g' && f[5] == 'G' && f[6] == 'a' && f[7] == 'A';
    var d := "diuoxX";
    assert d[0] == 'd' && d[1] == 'i' && d[2] == 'u' && d[3] == 'o' && d[4] == 'x' && d[5] == 'X';
  }

  /** Of the lengths and specifiers that the regular expression lets through, exactly these have no
      type. */
  lemma {:induction false} RefusedExactly(length: string, specifier: char)
    requires length in {"", "hh", "h", "l", "ll", "j", "z", "Z", "t", "L"}
    requires specifier in {'d', 'i', 'u', 'o', 'x', 'X', 'f', 'F', 'e', 'E', 'g', 'G', 'a', 'A', 'c', 's', 'p', 'n'}
    ensures FormatTypeOf(length, specifier).None? <==>
              || specifier == 'n'
              || (specifier == 'p' && length != "")
              || (specifier in "diuoxX" && length in {"Z", "L"})
              || (specifier in "sc" && length in {"hh", "h", "j", "z", "Z", "t", "L"})
  {
    SpecifierIs(specifier);
  }

  /** And a format of one such specification is refused exactly then. */
  lemma {:induction false} RefusedFormats(length: string, specifier: char)
    requires length in {"", "hh", "h", "l", "ll", "j", "z", "Z", "t", "L"}
    requires specifier in {'d', 'i', 'u', 'o', 'x', 'X', 'f', 'F', 'e', 'E', 'g', 'G', 'a', 'A', 'c', 's', 'p', 'n'}
    ensures FragmentsOf("%" + (length + [specifier])).None? <==> FormatTypeOf(length, specifier).None?
  {
    var spec := Spec("", Digits(""), None, length, specifier);
    BareSpec(spec);
    hide *;
    var s := "%" + (length + [specifier]);
    assert s == "%" + AfterPercent(spec) + "";
    SplitRegexSpec(spec, "", 0, "");
    SplitStep("", 0, "");
    FragmentsAre(s);
    RefusedIs();
    var f := FormatTypeOf(length, specifier);
    if f.Some? {
      var first := Fragment(f.value, false, false, "" + ("%" + AfterPercent(spec)));
      PrependParts(first, Split([], ""));
      NeedsFinished(Prepend(first, Split([], "")));
    }
  }

  lemma {:induction false} BareSpec(spec: Spec)
    requires spec == Spec("", Digits(""), None, spec.length, spec.terminal)
    requires spec.length in {"", "hh", "h", "l", "ll", "j", "z", "Z", "t", "L"}
    requires spec.terminal in {'d', 'i', 'u', 'o', 'x', 'X', 'f', 'F', 'e', 'E', 'g', 'G', 'a', 'A', 'c', 's', 'p', 'n'}
    ensures IsRegexSpec(spec) && AfterPercent(spec) == spec.length + [spec.terminal]
  {
  }

  lemma {:induction false} RefusedIs()
    ensures Finished(Refused).None?
  {
  }

  // ---- Whole specifications ----

  /** A specification as the standard describes it. */
  predicate IsStandard(spec: Spec) {
    && (forall i :: 0 <= i < |spec.flags| ==> spec.flags[i] in {'-', '+', ' ', '#', '0'})
    && (spec.width.Digits? ==> AllDecimal(spec.width.digits) && (spec.width.digits != "" ==> spec.width.digits[0] != '0'))
    && (spec.precision.Some? && spec.precision.value.Digits? ==>
          AllDecimal(spec.precision.value.digits) && spec.precision.value.digits != "")
    && StandardType(spec.length, spec.terminal).Some?
  }

  predicate AllDecimal(s: string) {
    forall i :: 0 <= i < |s| ==> '0' <= s[i] <= '9'
  }

  /** Both parsers take it for a specification, and the decoder has a type for it.  The only ones of the
      standard that it does not take have nothing behind the '.'. */
  lemma {:induction false} StandardIsSupported(spec: Spec)
    requires IsStandard(spec)
    ensures IsSpec(spec) && Supported(spec)
  {
    StandardIsKnown(spec.length, spec.terminal);
    hide StandardType, FormatTypeOf, IsTerminal;
    if spec.length != "Z" { RegexLengths(spec.length); }
    NoZ(spec.length, spec.terminal);
  }

  lemma {:induction false} NoZ(length: string, specifier: char)
    requires StandardType(length, specifier).Some?
    ensures length != "Z"
  {
  }

  // ---- What is passed and what is read ----

  /** One parameter of a format: that of a specification, or an int for a star. */
  datatype Slot = Slot(length: string, specifier: char)

  const INT: Slot := Slot("", 'd')

  function SpecSlots(spec: Spec): seq<Slot> {
    (if spec.width.Star? then [INT] else []) +
    (if spec.precision.Some? && spec.precision.value.Star? then [INT] else []) +
    [Slot(spec.length, spec.terminal)]
  }

  function Slots(ps: seq<Piece>): seq<Slot> {
    if ps == [] then []
    else (if ps[0].Conversion? then SpecSlots(ps[0].spec) else []) + Slots(ps[1..])
  }

  /** Text, double percents and specifications of the standard. */
  predicate AllStandard(ps: seq<Piece>) {
    forall i :: 0 <= i < |ps| ==> !ps[i].EscapedConversion? && (ps[i].Conversion? ==> IsStandard(ps[i].spec))
  }

  predicate Known(slots: seq<Slot>) {
    forall i :: 0 <= i < |slots| ==> StandardType(slots[i].length, slots[i].specifier).Some?
  }

  lemma {:induction false} StandardSlots(ps: seq<Piece>)
    requires AllStandard(ps)
    ensures Known(Slots(ps)) && AllSupported(ps)
  {
    hide Supported, StandardType, IsStandard;
    if ps != [] {
      assert forall i :: 0 <= i < |ps[1..]| ==> ps[1..][i] == ps[i + 1];
      StandardSlots(ps[1..]);
      IntIsStandard();
      if ps[0].Conversion? {
        StandardIsSupported(ps[0].spec);
        HasType(ps[0].spec);
      }
      forall i | 0 <= i < |ps| ensures !ps[i].EscapedConversion? && (ps[i].Conversion? ==> Supported(ps[i].spec)) {
        if i > 0 { assert ps[i] == ps[1..][i - 1]; }
      }
    }
  }

  lemma {:induction false} HasType(spec: Spec)
    requires IsStandard(spec)
    ensures StandardType(spec.length, spec.terminal).Some?
  {
    hide StandardType;
  }

  lemma {:induction false} IntIsStandard()
    ensures StandardType("", 'd') == Some(Integer(IntType(true, 4))) && FormatTypeOf("", 'd') == Some(Int)
  {
    SpecifierIs('d');
  }

  // ---- The fragments ----

  /** The format type that the decoder has for each slot. */
  function SlotNeeds(slots: seq<Slot>): (r: seq<FormatType>)
    requires Known(slots)
    ensures |r| == |slots|
  {
    seq(|slots|, i requires 0 <= i < |slots| => SlotNeed(slots[i]))
  }

  function SlotNeed(s: Slot): FormatType
    requires StandardType(s.length, s.specifier).Some?
  {
    StandardIsKnown(s.length, s.specifier);
    FormatTypeOf(s.length, s.specifier).value
  }

  lemma {:induction false} SlotNeedsAppend(a: seq<Slot>, b: seq<Slot>)
    requires Known(a) && Known(b)
    ensures Known(a + b) && SlotNeeds(a + b) == SlotNeeds(a) + SlotNeeds(b)
  {
    hide StandardType, SlotNeed;
  }

  /** The fragment of a specification asks for its slots. */
  lemma {:induction false} NeedsOfSpec(spec: Spec, text: string)
    requires IsStandard(spec)
    ensures Known(SpecSlots(spec)) && FormatTypeOf(spec.length, spec.terminal).Some?
    ensures Needs(Fragment(FormatTypeOf(spec.length, spec.terminal).value, spec.width.Star?,
                           spec.precision.Some? && spec.precision.value.Star?, text))
            == SlotNeeds(SpecSlots(spec))
  {
    HasType(spec);
    StandardIsKnown(spec.length, spec.terminal);
    StringTypes(spec.length, spec.terminal);
    IntIsStandard();
    hide StandardType, FormatTypeOf, IsStandard;
    assert SlotNeed(INT) == Int;
  }

  lemma {:induction false} NeedsPrepend(f: Fragment, split: Split)
    requires split.Split?
    ensures Prepend(f, split).Split?
    ensures AllNeeds(Prepend(f, split).fragments) == Needs(f) + AllNeeds(split.fragments)
  {
    hide Needs;
    assert ([f] + split.fragments)[1..] == split.fragments;
  }

  /** What the decode-time parser makes of standard pieces asks for their slots, one after the other. */
  lemma {:induction false} NeedsOfSplit(ps: seq<Piece>, percents: nat, text: string)
    requires ArePieces(ps) && AllStandard(ps) && percents % 2 == 0
    ensures Known(Slots(ps))
    ensures var r := SplitFormat(Render(ps), percents, text); r.Split? && AllNeeds(r.fragments) == SlotNeeds(Slots(ps))
    decreases |ps|
  {
    hide *;
    PiecesUnroll(ps);
    StandardSlots(ps);
    SlotsUnroll(ps);
    if ps == [] {
      SplitStep(Render(ps), percents, text);
      NoNeeds();
    } else {
      var rest := Render(ps[1..]);
      match ps[0]
      case Plain(c) =>
        SplitPlain([c], rest, percents, text);
        NeedsOfSplit(ps[1..], 0, text + [c]);
      case Escaped(c) =>
        SplitEscape(['\\', c], rest, percents, text);
        NeedsOfSplit(ps[1..], percents, text + ['\\', c]);
      case LoneBackslash =>
        SplitEscape("\\", rest, percents, text);
        NeedsOfSplit(ps[1..], percents, text + "\\");
      case TwoPercents =>
        SplitPercents(rest, percents, text);
        NeedsOfSplit(ps[1..], percents + 2, text + "%%");
      case EscapedConversion(spec) =>
      case Conversion(spec) =>
        var head := "%" + AfterPercent(spec);
        StandardIsSupported(spec);
        SupportedIs(spec);
        SplitRegexSpec(spec, rest, percents, text);
        NeedsOfSplit(ps[1..], 0, "");
        var first := Fragment(FormatTypeOf(spec.length, spec.terminal).value, spec.width.Star?,
                              spec.precision.Some? && spec.precision.value.Star?, text + head);
        NeedsOfSpec(spec, text + head);
        NeedsPrepend(first, SplitFormat(rest, 0, ""));
        SlotNeedsAppend(SpecSlots(spec), Slots(ps[1..]));
    }
  }

  lemma {:induction false} NoNeeds()
    ensures AllNeeds([]) == [] && Known([]) && SlotNeeds([]) == []
  {
  }

  lemma {:induction false} SlotsUnroll(ps: seq<Piece>)
    requires AllStandard(ps)
    ensures ps == [] ==> Slots(ps) == []
    ensures ps != [] ==>
      && AllStandard(ps[1..]) && !ps[0].EscapedConversion?
      && (ps[0].Conversion? ==> IsStandard(ps[0].spec) && Slots(ps) == SpecSlots(ps[0].spec) + Slots(ps[1..]))
      && (!ps[0].Conversion? ==> Slots(ps) == Slots(ps[1..]))
  {
    hide IsStandard, SpecSlots;
    if ps != [] {
      assert forall i :: 0 <= i < |ps[1..]| ==> ps[1..][i] == ps[i + 1];
    }
  }

  /** The last fragment takes the rest of the text, which asks for nothing. */
  lemma {:induction false} NeedsFinished(split: Split)
    requires split.Split?
    ensures Finished(split).Some? && AllNeeds(Finished(split).value) == AllNeeds(split.fragments)
  {
    var fs := split.fragments;
    if fs == [] {
      assert AllNeeds([Fragment(NoArgument, false, false, split.tail)]) == [];
    } else {
      LastTextNeeds(fs, split.tail);
    }
  }

  lemma {:induction false} LastTextNeeds(fs: seq<Fragment>, tail: string)
    requires fs != []
    ensures var last := fs[|fs| - 1];
            AllNeeds(fs[..|fs| - 1] + [last.(text := last.text + tail)]) == AllNeeds(fs)
  {
    var last := fs[|fs| - 1];
    var r := fs[..|fs| - 1] + [last.(text := last.text + tail)];
    if |fs| == 1 {
      assert r[1..] == [] && fs[1..] == [];
    } else {
      LastTextNeeds(fs[1..], tail);
      assert r[1..] == fs[1..][..|fs| - 2] + [last.(text := last.text + tail)];
    }
  }

  /** Of a format string of the standard: the values that the decoder reads, in order. */
  lemma {:induction false} NeedsOfPieces(ps: seq<Piece>)
    requires ArePieces(ps) && AllStandard(ps)
    ensures Known(Slots(ps)) && Agree(Render(ps))
    ensures FragmentsOf(Render(ps)).Some? && AllNeeds(FragmentsOf(Render(ps)).value) == SlotNeeds(Slots(ps))
  {
    hide *;
    StandardSlots(ps);
    PiecesAgreeIff(ps);
    NeedsOfSplit(ps, 0, "");
    NeedsFinished(SplitFormat(Render(ps), 0, ""));
    FragmentsAre(Render(ps));
  }

  lemma {:induction false} FragmentsAre(s: string)
    ensures FragmentsOf(s) == Finished(SplitFormat(s, 0, ""))
  {
  }

  /** The parameters on the compiler's side are as many, and strings where the specifier is 's'. */
  lemma {:induction false} KindsOfPieces(ps: seq<Piece>)
    requires ArePieces(ps) && AllStandard(ps)
    ensures |PieceParams(ps)| == |Slots(ps)|
    ensures forall i :: 0 <= i < |Slots(ps)| ==> (IsString(PieceParams(ps)[i]) <==> Slots(ps)[i].specifier == 's')
  {
    hide *;
    if ps == [] {
      NoKinds();
    } else {
      SlotsUnroll(ps);
      PieceParamsFirst(ps);
      KindsOfPieces(ps[1..]);
      ConversionTakes(ps[0]);
      if ps[0].Conversion? {
        StandardIsSupported(ps[0].spec);
        KindsOfSpec(ps[0].spec);
      }
    }
  }

  lemma {:induction false} NoKinds()
    ensures PieceParams([]) == [] && Slots([]) == []
  {
  }

  lemma {:induction false} ConversionTakes(p: Piece)
    ensures TakesParams(p) <==> p.Conversion? || p.EscapedConversion?
  {
  }

  lemma {:induction false} KindsOfSpec(spec: Spec)
    requires IsSpec(spec)
    ensures |SpecParams(spec)| == |SpecSlots(spec)|
    ensures forall i :: 0 <= i < |SpecSlots(spec)| ==> (IsString(SpecParams(spec)[i]) <==> SpecSlots(spec)[i].specifier == 's')
  {
    hide IsSpec, Decimal, IsField;
  }

  // ---- Values ----

  /** Every value of the standard's type is read back as itself, up to the sign of size_t and
      ptrdiff_t. */
  lemma {:induction false} StandardRead(s: Slot, a: Argument)
    requires StandardType(s.length, s.specifier).Some? && PassedAs(StandardType(s.length, s.specifier).value, a)
    requires IsString(a.kind) <==> s.specifier == 's'
    ensures Prints(SlotNeed(s), a) && Matches(SlotNeed(s), a)
    ensures Expected(SlotNeed(s), a)
            == Itself(s.length, s.specifier, a, if a.value.Chars? then |a.value.chars| else 0)
  {
    OtherType(s);
    hide *;
    PassedIsValid(StandardType(s.length, s.specifier).value, a);
    match StandardType(s.length, s.specifier).value
    case Integer(_) => ReadNumber(s, a);
    case Floating(size) => ReadReal(s, a, size, SlotNeed(s));
    case Pointer => ReadPointer(s, a, SlotNeed(s));
    case Text(width) => ReadText(s, a, width, SlotNeed(s));
  }

  lemma {:induction false} PassedIsValid(c: CType, a: Argument)
    requires PassedAs(c, a)
    ensures a.Valid() && (c.Integer? ==> a.value.Number?)
  {
    hide Pow256;
  }

  lemma {:induction false} ReadReal(s: Slot, a: Argument, size: nat, f: FormatType)
    requires PassedAs(Floating(size), a) && !IsString(a.kind) && s.specifier != 's'
    requires f == (if size == 8 then Double else LongDouble) && (size == 8 || size == 16)
    ensures a.Valid() && a.value.Real? && Prints(f, a) && Matches(f, a) && Expected(f, a) == Itself(s.length, s.specifier, a, 0)
  {
    hide Pow256;
  }

  lemma {:induction false} ReadPointer(s: Slot, a: Argument, f: FormatType)
    requires PassedAs(Pointer, a) && !IsString(a.kind) && s.specifier != 's' && f == VoidPointer
    ensures a.Valid() && Prints(f, a) && Matches(f, a)
    ensures Expected(f, a) == Itself(s.length, s.specifier, a, if a.value.Chars? then |a.value.chars| else 0)
  {
    hide Pow256;
  }

  lemma {:induction false} ReadText(s: Slot, a: Argument, width: nat, f: FormatType)
    requires PassedAs(Text(width), a) && IsString(a.kind) && s.specifier == 's'
    requires f == (if width == 1 then CharPointer else WideCharPointer) && (width == 1 || width == 4)
    ensures a.Valid() && a.value.Chars? && Prints(f, a) && Matches(f, a)
    ensures Expected(f, a) == Itself(s.length, s.specifier, a, |a.value.chars|)
  {
    WholeChars(a.value.chars);
    hide Pow256;
  }

  lemma {:induction false} WholeChars(chars: seq<nat>)
    ensures chars[..|chars|] == chars
  {
  }

  /** The other types are the standard's as well. */
  lemma {:induction false} OtherType(s: Slot)
    requires StandardType(s.length, s.specifier).Some?
    ensures match StandardType(s.length, s.specifier).value
            case Integer(_) => true
            case Floating(size) => s.specifier != 's' && SlotNeed(s) == if size == 8 then Double else LongDouble
            case Pointer => s.specifier != 's' && SlotNeed(s) == VoidPointer
            case Text(width) => s.specifier == 's' && SlotNeed(s) == if width == 1 then CharPointer else WideCharPointer
    ensures match StandardType(s.length, s.specifier).value
            case Floating(size) => size == 8 || size == 16 case Text(width) => width == 1 || width == 4 case _ => true
  {
    SpecifierIs(s.specifier);
    StandardIsKnown(s.length, s.specifier);
  }

  lemma {:induction false} ReadNumber(s: Slot, a: Argument)
    requires StandardType(s.length, s.specifier).Some? && PassedAs(StandardType(s.length, s.specifier).value, a)
    requires (IsString(a.kind) <==> s.specifier == 's') && a.value.Number?
    ensures Prints(SlotNeed(s), a) && Matches(SlotNeed(s), a)
    ensures Expected(SlotNeed(s), a) == Itself(s.length, s.specifier, a, 0)
  {
    var n := a.value.n;
    NumberType(s);
    var t, u := StandardType(s.length, s.specifier).value.t, IntTypeOf(SlotNeed(s));
    Pow256Values();
    hide StandardType, FormatTypeOf, IntTypeOf, SlotNeed, Pow256;
    if u == t {
      CastKeeps(t, n);
    } else if t.signed && n < 0 {
      CastOfWrapped(UINT64, n, 8, 1);
      CastKeeps(UINT64, n + 0x1_0000_0000_0000_0000);
    } else if !t.signed && n >= 0x8000_0000_0000_0000 {
      CastOfWrapped(INT64, n, 8, -1);
      CastKeeps(INT64, n - 0x1_0000_0000_0000_0000);
    } else {
      CastKeeps(u, n);
    }
  }

  /** The decoder's integer type is the standard's, but for the sign of 'z' and 't'. */
  lemma {:induction false} NumberType(s: Slot)
    requires StandardType(s.length, s.specifier).Some? && StandardType(s.length, s.specifier).value.Integer?
    ensures var t := StandardType(s.length, s.specifier).value.t; var f := SlotNeed(s);
            && IsInteger(f) && !IsStringType(f) && s.specifier != 's'
            && IntTypeOf(f) == (if s.length == "z" && s.specifier in "di" then UINT64
                                else if s.length == "t" && s.specifier in "uoxX" then INT64
                                else t)
            && (s.length == "z" && s.specifier in "di" ==> t == INT64)
            && (s.length == "t" && s.specifier in "uoxX" ==> t == UINT64)
  {
    SpecifierIs(s.specifier);
    StandardIsKnown(s.length, s.specifier);
  }
}
