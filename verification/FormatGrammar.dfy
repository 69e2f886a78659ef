/** The printf conversion specifications that the two format parsers meet: section 7.21.6.1 of
    ISO/IEC 9899:2011, as far as they go. */
module FormatGrammar {
  import opened Wrappers

  // ---- Characters ----

  predicate IsTerminal(c: char) {
    c in {'d', 'i', 'u', 'o', 'x', 'X', 'f', 'F', 'e', 'E', 'g', 'G', 'a', 'A', 'c', 'p', '%', 's', 'n'}
  }

  predicate IsFlag(c: char) { c in {'-', '+', ' ', '#', '0'} }

  predicate IsLength(c: char) { c in {'h', 'l', 'j', 'z', 't', 'L'} }

  predicate IsDigit(c: char) { '0' <= c <= '9' }

  // ---- Runs of characters ----

  /** The longest prefix whose characters satisfy `p`. */
  function Run(p: char -> bool, s: string): (r: string)
    ensures r <= s && (forall i :: 0 <= i < |r| ==> p(r[i]))
    ensures |r| < |s| ==> !p(s[|r|])
  {
    if s == [] || !p(s[0]) then [] else [s[0]] + Run(p, s[1..])
  }

  predicate All(p: char -> bool, s: string) {
    forall i :: 0 <= i < |s| ==> p(s[i])
  }

  /** A run ends where the next character breaks it. */
  lemma {:induction false} RunOf(p: char -> bool, a: string, b: string)
    requires All(p, a) && (b == [] || !p(b[0]))
    ensures Run(p, a + b) == a
  {
    if a == [] {
      assert a + b == b;
    } else {
      assert (a + b)[1..] == a[1..] + b;
      RunOf(p, a[1..], b);
    }
  }

  // ---- Specifications ----

  datatype Field = Star | Digits(digits: string)

  /** %<flags><width>.<precision><length><terminal>; no width is a width of no digits. */
  datatype Spec = Spec(flags: string, width: Field, precision: Option<Field>, length: string, terminal: char)

  function FieldText(f: Field): string {
    match f
    case Star => "*"
    case Digits(digits) => digits
  }

  function PrecisionText(p: Option<Field>): string {
    match p
    case None => ""
    case Some(f) => "." + FieldText(f)
  }

  /** The specification without its '%'. */
  function AfterPercent(spec: Spec): string {
    spec.flags + (FieldText(spec.width) + (PrecisionText(spec.precision) + (spec.length + [spec.terminal])))
  }

  predicate IsField(f: Field) { f.Digits? ==> All(IsDigit, f.digits) }

  /** What getParamInfo takes for a specification of a parameter: any number of length modifiers,
      possibly no digits behind the '.', but nothing that prints or stores without a parameter. */
  predicate IsSpec(spec: Spec) {
    && All(IsFlag, spec.flags)
    && IsField(spec.width) && (spec.width.Digits? && spec.width.digits != [] ==> spec.width.digits[0] != '0')
    && (spec.precision.Some? ==> IsField(spec.precision.value))
    && All(IsLength, spec.length)
    && IsTerminal(spec.terminal) && spec.terminal != 'n' && spec.terminal != '%'
  }

  /** The text of a format string in pieces; a backslash takes the next character with it, which may
      be the '%' of a specification. */
  datatype Piece =
    | Plain(c: char) | TwoPercents | Conversion(spec: Spec)
    | Escaped(c: char) | EscapedConversion(spec: Spec) | LoneBackslash

  predicate IsPiece(p: Piece) {
    match p
    case Plain(c) => c != '%' && c != '\\'
    case TwoPercents => true
    case Conversion(spec) => IsSpec(spec)
    case Escaped(c) => c != '%'
    case EscapedConversion(spec) => IsSpec(spec)
    case LoneBackslash => true
  }

  /** A backslash alone can only be the last piece. */
  predicate ArePieces(ps: seq<Piece>) {
    forall i :: 0 <= i < |ps| ==> IsPiece(ps[i]) && (ps[i].LoneBackslash? ==> i == |ps| - 1)
  }

  function PieceText(p: Piece): (s: string)
    ensures s != []
  {
    match p
    case Plain(c) => [c]
    case TwoPercents => "%%"
    case Conversion(spec) => "%" + AfterPercent(spec)
    case Escaped(c) => ['\\', c]
    case EscapedConversion(spec) => "\\%" + AfterPercent(spec)
    case LoneBackslash => "\\"
  }

  function Render(ps: seq<Piece>): string {
    if ps == [] then [] else PieceText(ps[0]) + Render(ps[1..])
  }

  // ---- Scanning ----

  /** A scan stops in front of what should be the terminal character. */
  datatype Scan = Scan(flags: string, width: Field, precision: Option<Field>, length: string, rest: string)

  function ScanField(s: string): Field {
    if s != [] && s[0] == '*' then Star else Digits(Run(IsDigit, s))
  }

  lemma {:induction false} ScanFieldPrefix(s: string)
    ensures FieldText(ScanField(s)) <= s
  {
  }

  function AfterField(s: string): string {
    ScanFieldPrefix(s);
    s[|FieldText(ScanField(s))|..]
  }

  function ScanPrecision(s: string): Option<Field> {
    if s != [] && s[0] == '.' then Some(ScanField(s[1..])) else None
  }

  function AfterPrecision(s: string): string {
    if s != [] && s[0] == '.' then AfterField(s[1..]) else s
  }

  /** Flags, width, precision and length modifiers, each as long as it goes. */
  function ScanSpec(s: string): Scan {
    var flags := Run(IsFlag, s);
    var s1 := s[|flags|..];
    var s2 := AfterField(s1);
    var s3 := AfterPrecision(s2);
    var length := Run(IsLength, s3);
    Scan(flags, ScanField(s1), ScanPrecision(s2), length, s3[|length|..])
  }

  /** A field is found as it was written, when what follows cannot continue it. */
  lemma {:induction false} ScanFieldOf(f: Field, rest: string)
    requires IsField(f) && (rest == [] || (!IsDigit(rest[0]) && rest[0] != '*'))
    ensures ScanField(FieldText(f) + rest) == f && AfterField(FieldText(f) + rest) == rest
  {
    match f
    case Star => assert ("*" + rest)[0] == '*';
    case Digits(digits) =>
      RunOf(IsDigit, digits, rest);
      if digits == [] { assert digits + rest == rest; }
  }

  /** What ends a run of each kind. */
  lemma {:induction false} CharacterKinds(c: char)
    ensures IsTerminal(c) ==> !IsLength(c) && !IsDigit(c) && !IsFlag(c) && c != '*' && c != '.'
    ensures IsLength(c) ==> !IsDigit(c) && !IsFlag(c) && c != '*' && c != '.'
    ensures IsDigit(c) && c != '0' ==> !IsFlag(c)
    ensures IsDigit(c) ==> c != '*' && c != '.'
    ensures !IsFlag('*') && !IsFlag('.') && !IsDigit('.') && !IsDigit('*')
  {
  }

  lemma {:induction false} ScanPrecisionOf(p: Option<Field>, rest: string)
    requires p.Some? ==> IsField(p.value)
    requires rest == [] || (!IsDigit(rest[0]) && rest[0] != '*' && rest[0] != '.')
    ensures ScanPrecision(PrecisionText(p) + rest) == p && AfterPrecision(PrecisionText(p) + rest) == rest
  {
    hide ScanField, AfterField, FieldText, Run, IsField, IsDigit;
    match p
    case None => assert "" + rest == rest;
    case Some(f) =>
      ScanFieldOf(f, rest);
      var s := PrecisionText(p) + rest;
      assert s[0] == '.' && s[1..] == FieldText(f) + rest;
  }

  /** The text of a specification nests to the right. */
  lemma {:induction false} SpecText(spec: Spec, rest: string)
    ensures AfterPercent(spec) + rest
            == spec.flags + (FieldText(spec.width) + (PrecisionText(spec.precision) + (spec.length + ([spec.terminal] + rest))))
  {
    hide FieldText, PrecisionText;
  }

  /** Each part of a specification begins with what ends the part before. */
  lemma {:induction false} PartsEnd(spec: Spec, rest: string)
    requires IsField(spec.width) && (spec.width.Digits? && spec.width.digits != [] ==> spec.width.digits[0] != '0')
    requires All(IsLength, spec.length) && IsTerminal(spec.terminal)
    ensures var t4 := [spec.terminal] + rest;
            var t3 := spec.length + t4;
            var t2 := PrecisionText(spec.precision) + t3;
            var t1 := FieldText(spec.width) + t2;
            && !IsLength(t4[0])
            && t3 != [] && !IsDigit(t3[0]) && t3[0] != '*' && t3[0] != '.'
            && t2 != [] && !IsDigit(t2[0]) && t2[0] != '*'
            && t1 != [] && !IsFlag(t1[0])
  {
    hide IsTerminal, IsLength, IsFlag, IsDigit;
    var t4 := [spec.terminal] + rest;
    var t3 := spec.length + t4;
    var t2 := PrecisionText(spec.precision) + t3;
    var t1 := FieldText(spec.width) + t2;
    CharacterKinds(spec.terminal);
    CharacterKinds(t3[0]);
    CharacterKinds(t2[0]);
    CharacterKinds(t1[0]);
    assert t3[0] == if spec.length == [] then spec.terminal else spec.length[0];
    assert t2[0] == if spec.precision.None? then t3[0] else '.';
    assert t1[0] == match spec.width case Star => '*' case Digits(d) => if d == [] then t2[0] else d[0];
  }

  /** Scanning takes a specification apart as it was put together, up to the terminal. */
  lemma {:induction false} ScanOfSpec(spec: Spec, rest: string)
    requires All(IsFlag, spec.flags)
    requires IsField(spec.width) && (spec.width.Digits? && spec.width.digits != [] ==> spec.width.digits[0] != '0')
    requires spec.precision.Some? ==> IsField(spec.precision.value)
    requires All(IsLength, spec.length) && IsTerminal(spec.terminal)
    ensures ScanSpec(AfterPercent(spec) + rest)
            == Scan(spec.flags, spec.width, spec.precision, spec.length, [spec.terminal] + rest)
  {
    var t4 := [spec.terminal] + rest;
    var t3 := spec.length + t4;
    var t2 := PrecisionText(spec.precision) + t3;
    var t1 := FieldText(spec.width) + t2;
    SpecText(spec, rest);
    PartsEnd(spec, rest);
    RunOf(IsLength, spec.length, t4);
    ScanPrecisionOf(spec.precision, t3);
    ScanFieldOf(spec.width, t2);
    RunOf(IsFlag, spec.flags, t1);
    hide AfterPercent, FieldText, PrecisionText, ScanField, AfterField, ScanPrecision, AfterPrecision, Run, All, IsField,
         IsTerminal, IsLength, IsFlag, IsDigit;
  }

  lemma {:induction false} FieldKeepsText(s: string)
    ensures s == FieldText(ScanField(s)) + AfterField(s) && IsField(ScanField(s))
    ensures ScanField(s).Digits? && ScanField(s).digits != [] ==> s != [] && s[0] == ScanField(s).digits[0]
  {
    ScanFieldPrefix(s);
  }

  lemma {:induction false} PrecisionKeepsText(s: string)
    ensures s == PrecisionText(ScanPrecision(s)) + AfterPrecision(s)
    ensures ScanPrecision(s).Some? ==> IsField(ScanPrecision(s).value)
  {
    hide ScanField, AfterField, FieldText, IsField;
    if s != [] && s[0] == '.' {
      FieldKeepsText(s[1..]);
      assert s == "." + s[1..];
    }
  }

  /** The scan and what it leaves make up what was scanned. */
  lemma {:induction false} ScanKeepsText(s: string)
    ensures var c := ScanSpec(s);
            s == c.flags + (FieldText(c.width) + (PrecisionText(c.precision) + (c.length + c.rest)))
    ensures var c := ScanSpec(s);
            && All(IsFlag, c.flags) && IsField(c.width)
            && (c.width.Digits? && c.width.digits != [] ==> c.width.digits[0] != '0')
            && (c.precision.Some? ==> IsField(c.precision.value)) && All(IsLength, c.length)
  {
    hide ScanField, AfterField, FieldText, PrecisionText, ScanPrecision, AfterPrecision, IsField, IsTerminal, IsLength, IsDigit;
    var flags := Run(IsFlag, s);
    var s1 := s[|flags|..];
    var s2 := AfterField(s1);
    var s3 := AfterPrecision(s2);
    var length := Run(IsLength, s3);
    hide Run;
    FieldKeepsText(s1);
    PrecisionKeepsText(s2);
    hide ScanSpec, AfterField, AfterPrecision;
    assert s3 == length + s3[|length|..];
  }
}
