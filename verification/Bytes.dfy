/** Bytes and the little-endian layout that every fixed-width field of the log uses. */
module Bytes {
  type byte = x: int | 0 <= x < 256

  function Pow256(n: nat): (p: int)
    ensures p >= 1
  {
    if n == 0 then 1 else 256 * Pow256(n - 1)
  }

  function Little(v: nat, n: nat): (s: seq<byte>)
    ensures |s| == n
  {
    if n == 0 then [] else [v % 256] + Little(v / 256, n - 1)
  }

  function Value(s: seq<byte>): (v: nat)
    ensures v < Pow256(|s|)
  {
    if s == [] then 0 else s[0] + 256 * Value(s[1..])
  }

  lemma {:induction false} ValueOfLittle(v: nat, n: nat)
    requires v < Pow256(n)
    ensures Value(Little(v, n)) == v
  {
    if n > 0 {
      ValueOfLittle(v / 256, n - 1);
      assert Little(v, n)[1..] == Little(v / 256, n - 1);
    }
  }

  /** On a little-endian machine the first bytes of a wide value are the value's low bytes. */
  lemma {:induction false} LittlePrefix(v: nat, n: nat, wide: nat)
    requires n <= wide
    ensures Little(v, wide)[..n] == Little(v, n)
  {
    if n > 0 {
      LittlePrefix(v / 256, n - 1, wide - 1);
      assert Little(v, wide)[..n] == [v % 256] + Little(v / 256, wide - 1)[..n - 1];
    }
  }

  lemma {:induction false} Pow256Grows(m: nat, n: nat)
    requires m <= n
    ensures Pow256(m) <= Pow256(n)
    decreases n
  {
    if m < n { Pow256Grows(m, n - 1); }
  }

  lemma {:induction false} Pow256Values()
    ensures Pow256(1) == 0x100 && Pow256(2) == 0x1_0000 && Pow256(3) == 0x100_0000 && Pow256(4) == 0x1_0000_0000
    ensures Pow256(5) == 0x100_0000_0000 && Pow256(6) == 0x1_0000_0000_0000
    ensures Pow256(7) == 0x100_0000_0000_0000 && Pow256(8) == 0x1_0000_0000_0000_0000
  {
    assert Pow256(4) == 256 * Pow256(3);
    assert Pow256(6) == 256 * Pow256(5);
    assert Pow256(8) == 256 * Pow256(7);
  }
}
