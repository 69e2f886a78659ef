/** Variable-length integers: how one value becomes a 4-bit tag and a few bytes, and back. */
module Packing {
  import opened Arithmetic
  import opened Bytes

  // ---- Integer types ----

  datatype IntType = IntType(signed: bool, width: nat) {
    predicate Valid() { width == 1 || width == 2 || width == 4 || width == 8 }

    /** The values of the type. */
    predicate Holds(v: int) {
      if signed then -Pow256(width) <= 2 * v < Pow256(width) else 0 <= v < Pow256(width)
    }

    /** The value that converting `x` to this type gives. */
    function Cast(x: int): (v: int)
      ensures Holds(v)
    {
      var m := x % Pow256(width);
      if signed && 2 * m >= Pow256(width) then m - Pow256(width) else m
    }
  }

  const INT32 := IntType(true, 4)
  const INT64 := IntType(true, 8)
  const UINT32 := IntType(false, 4)
  const UINT64 := IntType(false, 8)

  lemma {:induction false} CastKeeps(t: IntType, v: int)
    requires t.Holds(v)
    ensures t.Cast(v) == v
  {
    var p := Pow256(t.width);
    if v < 0 { ModIsUnique(v, p, -1, v + p); } else { ModIsUnique(v, p, 0, v); }
  }

  /** Values that differ by a multiple of a wider modulus are the same value of a narrower type. */
  lemma {:induction false} CastOfWrapped(t: IntType, x: int, wide: nat, k: int)
    requires t.width <= wide
    ensures t.Cast(x + k * Pow256(wide)) == t.Cast(x)
  {
    hide Pow256;
    Pow256Splits(t.width, wide);
    Associate(k, Pow256(wide - t.width), Pow256(t.width));
    ModOfShifted(x, Pow256(t.width), k * Pow256(wide - t.width));
  }

  lemma {:induction false} Pow256Splits(m: nat, n: nat)
    requires m <= n
    ensures Pow256(n) == Pow256(n - m) * Pow256(m)
  {
    if m > 0 { Pow256Splits(m - 1, n - 1); }
  }

  // ---- Packing ----

  datatype Packed = Packed(tag: nat, bytes: seq<byte>)

  /** The chain of comparisons that looks for the smallest container. */
  function BytesNeeded(v: nat): (n: nat)
    ensures 1 <= n <= 8
  {
    if v < 0x100 then 1
    else if v < 0x1_0000 then 2
    else if v < 0x100_0000 then 3
    else if v < 0x1_0000_0000 then 4
    else if v < 0x100_0000_0000 then 5
    else if v < 0x1_0000_0000_0000 then 6
    else if v < 0x100_0000_0000_0000 then 7
    else 8
  }

  /** A number of bytes, at least one, can hold the value exactly when it is at least the number
      chosen. */
  lemma {:induction false} FewestBytes(v: nat, m: nat)
    requires v < Pow256(8) && m >= 1
    ensures v < Pow256(m) <==> BytesNeeded(v) <= m
  {
    Pow256Values();
    var n := BytesNeeded(v);
    if n <= m { Pow256Grows(n, m); } else { Pow256Grows(m, n - 1); }
  }

  function PackUnsigned(v: nat): Packed {
    Packed(BytesNeeded(v), Little(v, BytesNeeded(v)))
  }

  /** A signed value of `width` bytes: negated when that saves a byte, as it is otherwise. */
  function PackSigned(v: int, width: nat): Packed
    requires width >= 1 && -Pow256(width) <= v < Pow256(width)
  {
    if v >= 0 || v <= -Pow256(width - 1) then PackUnsigned(v % Pow256(width))
    else var p := PackUnsigned(-v); Packed(8 + p.tag, p.bytes)
  }

  /** The width that the value is copied with: signed types below 32 bits are promoted. */
  function CopyWidth(t: IntType): nat {
    if t.signed && t.width < 4 then 4 else t.width
  }

  lemma {:induction false} HoldsPromoted(t: IntType, v: int)
    requires t.Valid() && t.Holds(v)
    ensures -Pow256(CopyWidth(t)) <= 2 * v && v < Pow256(CopyWidth(t)) && (t.signed ==> 2 * v < Pow256(CopyWidth(t)))
  {
    Pow256Grows(t.width, CopyWidth(t));
  }

  function PackInteger(t: IntType, v: int): (p: Packed)
    requires t.Valid() && t.Holds(v)
  {
    HoldsPromoted(t, v);
    if t.signed then PackSigned(v, CopyWidth(t)) else PackUnsigned(v)
  }

  /** The number of bytes that a tag stands for. */
  function SizeOfTag(tag: nat): nat {
    if tag == 0 then 16 else if tag > 8 then tag - 8 else tag
  }

  /** Every tag fits a nibble, is never the one for 16 bytes, and gives the number of bytes, which
      is at most the size of the type. */
  lemma {:induction false} TagOfInteger(t: IntType, v: int)
    requires t.Valid() && t.Holds(v)
    ensures var p := PackInteger(t, v); 1 <= p.tag < 16 && SizeOfTag(p.tag) == |p.bytes| <= t.width
  {
    Pow256Values();
    HoldsPromoted(t, v);
    if v >= 0 {
      FewestBytes(v, t.width);
    } else if v > -Pow256(CopyWidth(t) - 1) {
      FewestBytes(-v, CopyWidth(t) - 1);
      FewestBytes(-v, t.width);
    } else {
      FewestBytes(v % Pow256(CopyWidth(t)), t.width);
    }
  }

  /** The fewest bytes for signed values too: those of the magnitude, marked by a tag above 8, down to
      -256^(width - 1), and the whole width below that. */
  lemma {:induction false} FewestSigned(t: IntType, v: int, m: nat)
    requires t.Valid() && t.signed && t.Holds(v) && m >= 1
    ensures var p, w := PackInteger(t, v), if t.width < 4 then 4 else t.width;
            && (v >= 0 ==> p.tag <= 8 && (SizeOfTag(p.tag) <= m <==> v < Pow256(m)))
            && (-Pow256(w - 1) < v < 0 ==> p.tag > 8 && (SizeOfTag(p.tag) <= m <==> -v < Pow256(m)))
            && (v <= -Pow256(w - 1) ==> p.tag == w)
  {
    Pow256Values();
    HoldsPromoted(t, v);
    var w := CopyWidth(t);
    if v >= 0 {
      Pow256Grows(w, 8);
      ModIsUnique(v, Pow256(w), 0, v);
      FewestBytes(v, m);
    } else if v > -Pow256(w - 1) {
      Pow256Grows(w - 1, 8);
      FewestBytes(-v, m);
    } else {
      PackedUnnegated(t, v);
      FewestBytes(v + Pow256(w), w);
      FewestBytes(v + Pow256(w), w - 1);
    }
  }

  // ---- Unpacking ----
  /** The integer that unpack rebuilds in a 64-bit signed variable before the last conversion. */
  function Unpacked(tag: nat, bytes: seq<byte>): int {
    var packed := INT64.Cast(Value(bytes));
    if tag <= 8 then packed else INT64.Cast(-packed)
  }

  /** Reading back with type `d` a value that was packed with type `t` gives the value converted to
      `d`, unless the value is so far below zero that it went out unnegated and `d` is wider. */
  lemma {:induction false} UnpackOfPack(t: IntType, v: int, d: IntType)
    requires t.Valid() && t.Holds(v) && d.Valid()
    ensures var p := PackInteger(t, v);
            d.Cast(Unpacked(p.tag, p.bytes)) == d.Cast(v)
            <==> (d.width <= CopyWidth(t) || v > -Pow256(CopyWidth(t) - 1))
  {
    HoldsPromoted(t, v);
    var w := CopyWidth(t);
    if v >= 0 {
      UnpackPositive(t, v, d);
    } else if v > -Pow256(w - 1) {
      Pow256Grows(w - 1, 7);
      UnpackNegated(v, d);
    } else {
      UnpackUnnegated(t, v, d);
    }
  }

  lemma {:induction false} UnpackPositive(t: IntType, v: nat, d: IntType)
    requires t.Valid() && t.Holds(v) && d.Valid()
    ensures var p := PackInteger(t, v); d.Cast(Unpacked(p.tag, p.bytes)) == d.Cast(v)
  {
    HoldsPromoted(t, v);
    Pow256Grows(CopyWidth(t), 8);
    UnpackUnsigned(v, d);
    hide Pow256, BytesNeeded, Little, Unpacked;
    ModIsUnique(v, Pow256(CopyWidth(t)), 0, v);
  }

  lemma {:induction false} PackedUnnegated(t: IntType, v: int)
    requires t.Valid() && t.Holds(v) && v <= -Pow256(CopyWidth(t) - 1)
    ensures t.signed && v < 0 && -Pow256(CopyWidth(t)) <= 2 * v && v + Pow256(CopyWidth(t)) < Pow256(8)
    ensures PackInteger(t, v) == PackUnsigned(v + Pow256(CopyWidth(t)))
  {
    HoldsPromoted(t, v);
    Pow256Grows(CopyWidth(t), 8);
    hide Pow256, BytesNeeded, Little;
    ModIsUnique(v, Pow256(CopyWidth(t)), -1, v + Pow256(CopyWidth(t)));
  }

  lemma {:induction false} UnpackUnnegated(t: IntType, v: int, d: IntType)
    requires t.Valid() && t.Holds(v) && d.Valid() && v <= -Pow256(CopyWidth(t) - 1)
    ensures var p := PackInteger(t, v);
            d.Cast(Unpacked(p.tag, p.bytes)) == d.Cast(v) <==> d.width <= CopyWidth(t)
  {
    hide *;
    PackedUnnegated(t, v);
    var w := CopyWidth(t);
    UnpackUnsigned(v + Pow256(w), d);
    if d.width > w { CastApart(v, d, t); } else { CastOfWrapped(d, v, w, 1); }
  }

  lemma {:induction false} CastApart(v: int, d: IntType, t: IntType)
    requires t.Valid() && t.signed && d.Valid() && d.width > CopyWidth(t)
    requires -Pow256(CopyWidth(t)) <= 2 * v < 0
    ensures d.Cast(v + Pow256(CopyWidth(t))) != d.Cast(v)
  {
    Pow256Values();
  }

  lemma {:induction false} UnpackUnsigned(v: nat, d: IntType)
    requires v < Pow256(8) && d.Valid()
    ensures var p := PackUnsigned(v); d.Cast(Unpacked(p.tag, p.bytes)) == d.Cast(v)
  {
    FewestBytes(v, BytesNeeded(v));
    ValueOfLittle(v, BytesNeeded(v));
    hide Pow256, BytesNeeded, Little, Value;
    ModIsUnique(v, Pow256(8), 0, v);
    CastOfWrapped(d, v, 8, -1);
    CastOfWrapped(d, v, 8, 0);
    assert INT64.Cast(v) == v + 0 * Pow256(8) || INT64.Cast(v) == v + -1 * Pow256(8);
  }

  lemma {:induction false} UnpackNegated(v: int, d: IntType)
    requires -Pow256(7) < v < 0 && d.Valid()
    ensures var p := PackUnsigned(-v); d.Cast(Unpacked(8 + p.tag, p.bytes)) == d.Cast(v)
  {
    Pow256Values();
    FewestBytes(-v, BytesNeeded(-v));
    ValueOfLittle(-v, BytesNeeded(-v));
    CastKeeps(INT64, -v);
    CastKeeps(INT64, v);
  }

  /** A value read back with its own type is the value. */
  lemma {:induction false} IntegerRoundTrip(t: IntType, v: int)
    requires t.Valid() && t.Holds(v)
    ensures var p := PackInteger(t, v); t.Cast(Unpacked(p.tag, p.bytes)) == v
  {
    UnpackOfPack(t, v, t);
    CastKeeps(t, v);
  }
}
