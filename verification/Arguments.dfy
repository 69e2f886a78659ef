/** The arguments of a log statement: what is stored uncompressed in the staging buffer and what
    the background thread makes of it. */
module Arguments {
  import opened Bytes
  import opened Packing
  import opened Packer

  /** What the format string says about one parameter. */
  datatype ParamType =
    | Invalid
    | DynamicWidth
    | DynamicPrecision
    | NonString
    | StringWithDynamicPrecision
    | StringWithNoPrecision
    | StringWithPrecision(precision: nat)

  predicate IsString(kind: ParamType) {
    kind.StringWithDynamicPrecision? || kind.StringWithNoPrecision? || kind.StringWithPrecision?
  }

  /** The static C++ type of an argument. */
  datatype CType = Integer(t: IntType) | Pointer | Floating(size: nat) | Text(charWidth: nat) {
    predicate Valid() {
      match this
      case Integer(t) => t.Valid()
      case Pointer => true
      case Floating(size) => size == 4 || size == 8 || size == 16
      case Text(charWidth) => charWidth == 1 || charWidth == 4
    }

    /** sizeof the type; a string is passed as a pointer. */
    function Size(): nat {
      match this
      case Integer(t) => t.width
      case Floating(size) => size
      case _ => 8
    }
  }

  /** A string is both where it is and the characters up to its terminator. */
  datatype Datum = Number(n: int) | Address(at: nat) | Real(bits: seq<byte>) | Chars(at: nat, chars: seq<nat>)

  predicate HoldsDatum(c: CType, v: Datum) {
    match c
    case Integer(t) => v.Number? && t.Holds(v.n)
    case Pointer => v.Address? && v.at < Pow256(8)
    case Floating(size) => v.Real? && |v.bits| == size
    case Text(charWidth) => v.Chars? && v.at < Pow256(8) && IsText(v.chars, charWidth)
  }

  predicate IsText(chars: seq<nat>, charWidth: nat) {
    forall i :: 0 <= i < |chars| ==> 0 < chars[i] < Pow256(charWidth)
  }

  datatype Argument = Argument(kind: ParamType, ctype: CType, value: Datum) {
    /** The argument has a type that the compiler's format check allows for its parameter. */
    predicate Valid() {
      && ctype.Valid() && HoldsDatum(ctype, value) && !kind.Invalid?
      && (IsString(kind) ==> ctype.Text?)
      && (kind.DynamicPrecision? || kind.DynamicWidth? ==> ctype.Integer?)
    }
  }

  predicate AllValid(args: seq<Argument>) {
    forall i :: 0 <= i < |args| ==> args[i].Valid()
  }

  // ---- Strings ----

  function TextBytes(chars: seq<nat>, charWidth: nat): (s: seq<byte>)
    ensures |s| == charWidth * |chars|
  {
    if chars == [] then [] else Little(chars[0], charWidth) + TextBytes(chars[1..], charWidth)
  }

  lemma {:induction false} TextPrefix(chars: seq<nat>, charWidth: nat, n: nat)
    requires n <= |chars|
    ensures TextBytes(chars[..n], charWidth) <= TextBytes(chars, charWidth)
  {
    if n > 0 {
      TextPrefix(chars[1..], charWidth, n - 1);
      assert chars[..n][1..] == chars[1..][..n - 1];
    }
  }

  // ---- Truncation to the precision ----

  /** The string cut to its precision; `previous` is the last dynamic precision seen. */
  function Cut(a: Argument, previous: nat): (b: Argument)
    requires a.Valid()
    ensures b.Valid() && b.kind == a.kind && b.ctype == a.ctype
  {
    if a.kind.StringWithPrecision? && |a.value.chars| > a.kind.precision then
      a.(value := Chars(a.value.at, a.value.chars[..a.kind.precision]))
    else if a.kind.StringWithDynamicPrecision? && |a.value.chars| > previous then
      a.(value := Chars(a.value.at, a.value.chars[..previous]))
    else a
  }

  /** A dynamic precision is kept as an unsigned 64-bit number, so a negative one cuts nothing. */
  function NextPrecision(a: Argument, previous: nat): nat
    requires a.Valid()
  {
    if a.kind.DynamicPrecision? then a.value.n % Pow256(8) else previous
  }

  function Truncated(args: seq<Argument>, previous: nat): (r: seq<Argument>)
    requires AllValid(args)
    ensures |r| == |args| && AllValid(r)
    ensures forall i :: 0 <= i < |r| ==> r[i].kind == args[i].kind && r[i].ctype == args[i].ctype
  {
    if args == [] then []
    else [Cut(args[0], previous)] + Truncated(args[1..], NextPrecision(args[0], previous))
  }

  // -1 as an unsigned 64-bit number.
  const NO_PRECISION: nat := 0xffff_ffff_ffff_ffff

  /** The precision that governs argument `i`: the nearest dynamic precision before it. */
  function PrecisionBefore(args: seq<Argument>, i: nat, previous: nat): nat
    requires AllValid(args) && i <= |args|
  {
    if i == 0 then previous else NextPrecision(args[i - 1], PrecisionBefore(args, i - 1, previous))
  }

  lemma {:induction false} TruncatedAt(args: seq<Argument>, previous: nat, i: nat)
    requires AllValid(args) && i < |args|
    ensures Truncated(args, previous)[i] == Cut(args[i], PrecisionBefore(args, i, previous))
  {
    if i > 0 {
      TruncatedAt(args[1..], NextPrecision(args[0], previous), i - 1);
      PrecisionShift(args, i, previous);
    }
  }

  lemma {:induction false} PrecisionShift(args: seq<Argument>, i: nat, previous: nat)
    requires AllValid(args) && 0 < i <= |args|
    ensures PrecisionBefore(args, i, previous) == PrecisionBefore(args[1..], i - 1, NextPrecision(args[0], previous))
  {
    if i > 1 { PrecisionShift(args, i - 1, previous); }
  }

  /** The number in the last dynamic precision among the first `n` arguments. */
  function LastDynamic(args: seq<Argument>, n: nat): (p: int)
    requires AllValid(args) && n <= |args| && exists j :: 0 <= j < n && args[j].kind.DynamicPrecision?
    ensures exists j :: 0 <= j < n && args[j].kind.DynamicPrecision? && p == args[j].value.n
                        && forall k :: j < k < n ==> !args[k].kind.DynamicPrecision?
  {
    if args[n - 1].kind.DynamicPrecision? then args[n - 1].value.n else LastDynamic(args, n - 1)
  }

  /** How many characters of argument `i` printf would print: the number written in the format, or the
      one in the last dynamic precision before it unless that is negative; all without a precision. */
  function CharsPrinted(args: seq<Argument>, i: nat): (n: nat)
    requires AllValid(args) && i < |args| && IsString(args[i].kind)
    ensures n <= |args[i].value.chars|
  {
    var all := |args[i].value.chars|;
    var kind := args[i].kind;
    if kind.StringWithPrecision? && kind.precision < all then kind.precision
    else if kind.StringWithDynamicPrecision? && exists j :: 0 <= j < i && args[j].kind.DynamicPrecision? then
      var p := LastDynamic(args, i);
      if 0 <= p < all then p else all
    else all
  }

  lemma {:induction false} PrecisionIs(args: seq<Argument>, n: nat)
    requires AllValid(args) && n <= |args|
    ensures (exists j :: 0 <= j < n && args[j].kind.DynamicPrecision?) ==>
              var p := LastDynamic(args, n);
              PrecisionBefore(args, n, NO_PRECISION) == if p >= 0 then p else 0x1_0000_0000_0000_0000 + p
    ensures !(exists j :: 0 <= j < n && args[j].kind.DynamicPrecision?) ==>
              PrecisionBefore(args, n, NO_PRECISION) == 0xffff_ffff_ffff_ffff
    ensures (exists j :: 0 <= j < n && args[j].kind.DynamicPrecision?) ==>
              -0x8000_0000_0000_0000 <= LastDynamic(args, n) < 0x1_0000_0000_0000_0000
  {
    if n > 0 {
      PrecisionIs(args, n - 1);
      if args[n - 1].kind.DynamicPrecision? { ModOfWord(args[n - 1]); }
    }
  }

  lemma {:induction false} ModOfWord(a: Argument)
    requires a.Valid() && a.ctype.Integer?
    ensures -0x8000_0000_0000_0000 <= a.value.n < 0x1_0000_0000_0000_0000
    ensures a.value.n % Pow256(8) == if a.value.n >= 0 then a.value.n else 0x1_0000_0000_0000_0000 + a.value.n
  {
    Pow256Values();
    Pow256Grows(a.ctype.t.width, 8);
  }

  /** What truncation does, for every string of less than 2^63 characters: it keeps as many as printf
      would print.  Everything else stays as it is. */
  lemma {:induction false} TruncatedIs(args: seq<Argument>, i: nat)
    requires AllValid(args) && i < |args|
    ensures var a, b := args[i], Truncated(args, NO_PRECISION)[i];
            && (!IsString(a.kind) ==> b == a)
            && (IsString(a.kind) && |a.value.chars| < 0x8000_0000_0000_0000 ==>
                  b == a.(value := Chars(a.value.at, a.value.chars[..CharsPrinted(args, i)])))
  {
    TruncatedAt(args, NO_PRECISION, i);
    PrecisionIs(args, i);
    hide Truncated, PrecisionBefore, LastDynamic;
    if IsString(args[i].kind) {
      var chars := args[i].value.chars;
      assert chars[..|chars|] == chars;
    }
  }

  // ---- Uncompressed form ----

  /** The bytes of the variable itself. */
  function Raw(a: Argument): (s: seq<byte>)
    requires a.Valid()
    ensures |s| == a.ctype.Size()
  {
    match a.value
    case Number(n) => Little(n % Pow256(a.ctype.t.width), a.ctype.t.width)
    case Address(at) => Little(at, 8)
    case Real(bits) => bits
    case Chars(at, _) => Little(at, 8)
  }

  function StringBytes(a: Argument): seq<byte>
    requires a.Valid() && IsString(a.kind)
  {
    TextBytes(a.value.chars, a.ctype.charWidth)
  }

  /** Strings carry their length in bytes and no terminator. */
  function StoredOne(a: Argument): (s: seq<byte>)
    requires a.Valid()
    ensures |s| >= 1
  {
    if IsString(a.kind) then Little(|StringBytes(a)|, 4) + StringBytes(a) else Raw(a)
  }

  function Stored(args: seq<Argument>): (s: seq<byte>)
    requires AllValid(args)
    ensures |s| >= |args|
  {
    if args == [] then [] else StoredOne(args[0]) + Stored(args[1..])
  }

  /** The length field of a string has 32 bits. */
  predicate Storable(args: seq<Argument>)
    requires AllValid(args)
  {
    forall i :: 0 <= i < |args| && IsString(args[i].kind) ==> |StringBytes(args[i])| < Pow256(4)
  }

  // ---- Compressed form ----

  /** How a parameter that is not a string is packed. */
  function Code(a: Argument): Packed
    requires a.Valid()
  {
    match a.value
    case Number(n) => PackInteger(a.ctype.t, n)
    case Address(at) => PackUnsigned(at)
    case Real(bits) => Packed(|bits| % 16, bits)
    case Chars(at, _) => PackUnsigned(at)
  }

  lemma {:induction false} CodeFits(a: Argument)
    requires a.Valid()
    ensures var p := Code(a); p.tag < 16 && 1 <= SizeOfTag(p.tag) == |p.bytes| <= a.ctype.Size()
  {
    match a.value
    case Number(n) => TagOfInteger(a.ctype.t, n);
    case _ =>
  }

  function Tags(args: seq<Argument>): seq<nat>
    requires AllValid(args)
  {
    if args == [] then []
    else if IsString(args[0].kind) then Tags(args[1..])
    else [Code(args[0]).tag] + Tags(args[1..])
  }

  function PackedValues(args: seq<Argument>): seq<byte>
    requires AllValid(args)
  {
    if args == [] then []
    else if IsString(args[0].kind) then PackedValues(args[1..])
    else Code(args[0]).bytes + PackedValues(args[1..])
  }

  /** The strings, each followed by a terminator of one character. */
  function Texts(args: seq<Argument>): seq<byte>
    requires AllValid(args)
  {
    if args == [] then []
    else if IsString(args[0].kind) then
      StringBytes(args[0]) + Little(0, args[0].ctype.charWidth) + Texts(args[1..])
    else Texts(args[1..])
  }

  function NibbleBytes(numNibbles: nat): nat { (numNibbles + 1) / 2 }

  /** Compressed arguments: an area of nibbles, whose last half byte is whatever was in memory when
      their number is odd, the packed values, the strings. */
  function Compressed(args: seq<Argument>, nibbles: seq<byte>): seq<byte>
    requires AllValid(args)
  {
    nibbles + PackedValues(args) + Texts(args)
  }

  predicate NibblesOf(args: seq<Argument>, nibbles: seq<byte>)
    requires AllValid(args)
  {
    |nibbles| == NibbleBytes(|Tags(args)|) && HoldsTags(nibbles, Tags(args))
  }

  /** The tags alone say where the packed values end. */
  lemma {:induction false} TagsGiveSize(args: seq<Argument>)
    requires AllValid(args)
    ensures TotalSize(Tags(args)) == |PackedValues(args)|
  {
    if args != [] {
      TagsGiveSize(args[1..]);
      CodeFits(args[0]);
    }
  }

  /** Packed values and strings together never need more room than the uncompressed arguments. */
  lemma {:induction false} CompressedFits(args: seq<Argument>)
    requires AllValid(args)
    ensures |PackedValues(args)| + |Texts(args)| <= |Stored(args)| && |Tags(args)| <= |args|
  {
    if args != [] {
      CompressedFits(args[1..]);
      CodeFits(args[0]);
    }
  }
}
