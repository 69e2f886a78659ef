/** Packing into and out of memory: pack copies the whole variable and moves on by fewer bytes. */
module Packer {
  import opened Bytes
  import opened Packing

  /** `after` is `before` with `data` written at `pos`, where nothing at or beyond `pos + reach`
      has changed: bytes between the end of the data and the reach may have been scribbled on. */
  predicate Appended(before: seq<byte>, after: seq<byte>, pos: nat, data: seq<byte>, reach: nat) {
    && |before| == |after| && |data| <= reach && pos + reach <= |before|
    && after[..pos + |data|] == before[..pos] + data
    && after[pos + reach..] == before[pos + reach..]
  }

  lemma {:induction false} AppendTwice(before: seq<byte>, middle: seq<byte>, after: seq<byte>, pos: nat,
                    first: seq<byte>, firstReach: nat, second: seq<byte>, secondReach: nat, reach: nat)
    requires Appended(before, middle, pos, first, firstReach)
    requires Appended(middle, after, pos + |first|, second, secondReach)
    requires firstReach <= reach && |first| + secondReach <= reach && pos + reach <= |before|
    ensures Appended(before, after, pos, first + second, reach)
  {
    assert middle[pos + reach..] == middle[pos + firstReach..][reach - firstReach..];
    assert before[pos + reach..] == before[pos + firstReach..][reach - firstReach..];
    var skipped := reach - |first| - secondReach;
    assert after[pos + reach..] == after[pos + |first| + secondReach..][skipped..];
    assert middle[pos + reach..] == middle[pos + |first| + secondReach..][skipped..];
  }

  lemma {:induction false} WiderReach(before: seq<byte>, after: seq<byte>, pos: nat, data: seq<byte>, reach: nat, wider: nat)
    requires Appended(before, after, pos, data, reach) && reach <= wider && pos + wider <= |before|
    ensures Appended(before, after, pos, data, wider)
  {
    assert after[pos + wider..] == after[pos + reach..][wider - reach..];
    assert before[pos + wider..] == before[pos + reach..][wider - reach..];
  }

  lemma {:induction false} AppendNothing(buffer: seq<byte>, pos: nat, reach: nat)
    requires pos + reach <= |buffer|
    ensures Appended(buffer, buffer, pos, [], reach)
  {
  }

  // ---- A patch that is set and an output that grows behind it ----

  function Patched(buffer: seq<byte>, base: nat, patch: seq<byte>): (r: seq<byte>)
    requires base + |patch| <= |buffer|
    ensures |r| == |buffer| && r[base..base + |patch|] == patch
  {
    buffer[..base] + patch + buffer[base + |patch|..]
  }

  /** The bytes at `base` have become `patch`, and behind them `data` has been appended at `pos`. */
  predicate Grown(before: seq<byte>, after: seq<byte>, base: nat, patch: seq<byte>,
                   pos: nat, data: seq<byte>, reach: nat) {
    base + |patch| <= pos <= |before| && Appended(Patched(before, base, patch), after, pos, data, reach)
  }

  lemma {:induction false} GrownPatch(before: seq<byte>, after: seq<byte>, base: nat, patch: seq<byte>,
                      pos: nat, data: seq<byte>, reach: nat)
    requires Grown(before, after, base, patch, pos, data, reach)
    ensures |before| == |after| && after[base..base + |patch|] == patch
  {
    var w := Patched(before, base, patch);
    assert after[base..base + |patch|] == after[..pos + |data|][base..base + |patch|];
    assert w[base..base + |patch|] == w[..pos][base..base + |patch|];
  }

  lemma {:induction false} AppendedBeside(before: seq<byte>, after: seq<byte>, base: nat, patch: seq<byte>,
                       pos: nat, data: seq<byte>, reach: nat)
    requires Appended(before, after, pos, data, reach) && base + |patch| <= pos
    ensures Appended(Patched(before, base, patch), Patched(after, base, patch), pos, data, reach)
  {
    var b, a := Patched(before, base, patch), Patched(after, base, patch);
    assert a[..pos + |data|] == Patched(after[..pos + |data|], base, patch);
    assert Patched(before[..pos] + data, base, patch) == Patched(before[..pos], base, patch) + data;
    assert b[..pos] == Patched(before[..pos], base, patch);
    assert a[pos + reach..] == after[pos + reach..];
    assert b[pos + reach..] == before[pos + reach..];
  }

  lemma {:induction false} GrowTwice(before: seq<byte>, middle: seq<byte>, after: seq<byte>, base: nat,
                  firstPatch: seq<byte>, secondPatch: seq<byte>, pos: nat,
                  first: seq<byte>, firstReach: nat, second: seq<byte>, secondReach: nat, reach: nat)
    requires |firstPatch| == |secondPatch|
    requires Grown(before, middle, base, firstPatch, pos, first, firstReach)
    requires Grown(middle, after, base, secondPatch, pos + |first|, second, secondReach)
    requires firstReach <= reach && |first| + secondReach <= reach && pos + reach <= |before|
    ensures Grown(before, after, base, secondPatch, pos, first + second, reach)
  {
    var w := Patched(before, base, firstPatch);
    AppendedBeside(w, middle, base, secondPatch, pos, first, firstReach);
    assert Patched(w, base, secondPatch) == Patched(before, base, secondPatch);
    hide Appended;
    AppendTwice(Patched(before, base, secondPatch), Patched(middle, base, secondPatch), after,
                pos, first, firstReach, second, secondReach, reach);
  }

  lemma {:induction false} AppendedAfterPatch(before: seq<byte>, after: seq<byte>, base: nat, patch: seq<byte>,
                                                data: seq<byte>, reach: nat)
    requires Grown(before, after, base, patch, base + |patch|, data, reach)
    ensures Appended(before, after, base, patch + data, |patch| + reach)
  {
    var w, pos := Patched(before, base, patch), base + |patch|;
    assert after[..base + |patch + data|] == w[..pos] + data;
    assert w[..pos] == before[..base] + patch;
    assert w[pos + reach..] == before[pos + reach..];
  }

  lemma {:induction false} GrowBy(before: seq<byte>, middle: seq<byte>, after: seq<byte>, base: nat, patch: seq<byte>,
                                  pos: nat, first: seq<byte>, firstReach: nat, second: seq<byte>, secondReach: nat,
                                  reach: nat)
    requires Grown(before, middle, base, patch, pos, first, firstReach)
    requires Appended(middle, after, pos + |first|, second, secondReach)
    requires firstReach <= reach && |first| + secondReach <= reach && pos + reach <= |before|
    ensures Grown(before, after, base, patch, pos, first + second, reach)
  {
    hide Appended;
    AppendTwice(Patched(before, base, patch), middle, after, pos, first, firstReach, second, secondReach, reach);
  }

  lemma {:induction false} PatchAgain(before: seq<byte>, after: seq<byte>, base: nat, patch: seq<byte>,
                                      pos: nat, data: seq<byte>, reach: nat, other: seq<byte>)
    requires Grown(before, after, base, patch, pos, data, reach) && |other| == |patch|
    ensures base + |other| <= |after| && Grown(before, Patched(after, base, other), base, other, pos, data, reach)
  {
    var w := Patched(before, base, patch);
    AppendedBeside(w, after, base, other, pos, data, reach);
    assert Patched(w, base, other) == Patched(before, base, other);
  }

  lemma {:induction false} PatchFirst(before: seq<byte>, base: nat, patch: seq<byte>)
    requires base + |patch| <= |before|
    ensures Grown(before, Patched(before, base, patch), base, patch, base + |patch|, [], 0)
  {
  }

  /** memcpy. */
  method Copy(buffer: array<byte>, pos: nat, data: seq<byte>)
    requires pos + |data| <= buffer.Length
    modifies buffer
    ensures Appended(old(buffer[..]), buffer[..], pos, data, |data|)
  {
    forall i | 0 <= i < |data| { buffer[pos + i] := data[i]; }
  }

  /** Copies `width` bytes and counts only the bytes that the value needs; what is copied beyond
      them is there to be overwritten. */
  method PackUnsignedInto(buffer: array<byte>, pos: nat, v: nat, width: nat) returns (end: nat, tag: nat)
    requires 1 <= width <= 8 && v < Pow256(width) && pos + width <= buffer.Length
    modifies buffer
    ensures tag == PackUnsigned(v).tag && end == pos + |PackUnsigned(v).bytes|
    ensures Appended(old(buffer[..]), buffer[..], pos, PackUnsigned(v).bytes, width)
  {
    var numBytes := BytesNeeded(v);
    Pow256Grows(width, 8);
    FewestBytes(v, width);
    LittlePrefix(v, numBytes, width);
    hide Pow256, Little, BytesNeeded;
    Copy(buffer, pos, Little(v, width));
    assert buffer[..pos + numBytes] == buffer[..pos + width][..pos + numBytes];
    end, tag := pos + numBytes, numBytes;
  }

  method PackInto(buffer: array<byte>, pos: nat, t: IntType, v: int) returns (end: nat, tag: nat)
    requires t.Valid() && t.Holds(v) && pos + CopyWidth(t) <= buffer.Length
    modifies buffer
    ensures tag == PackInteger(t, v).tag && end == pos + |PackInteger(t, v).bytes|
    ensures Appended(old(buffer[..]), buffer[..], pos, PackInteger(t, v).bytes, CopyWidth(t))
  {
    HoldsPromoted(t, v);
    hide Appended;
    var w := CopyWidth(t);
    if !t.signed {
      end, tag := PackUnsignedInto(buffer, pos, v, w);
    } else if v >= 0 || v <= -Pow256(w - 1) {
      end, tag := PackUnsignedInto(buffer, pos, v % Pow256(w), w);
    } else {
      end, tag := PackUnsignedInto(buffer, pos, -v, w);
      tag := 8 + tag;
    }
  }

  // ---- Nibbles ----

  /** The `i`-th nibble: the low half of a byte comes first. */
  function NibbleAt(nibbles: seq<byte>, i: nat): (n: nat)
    requires i / 2 < |nibbles|
    ensures n < 16
  {
    if i % 2 == 0 then nibbles[i / 2] % 16 else nibbles[i / 2] / 16
  }

  function SetNibble(nibbles: seq<byte>, i: nat, tag: nat): (r: seq<byte>)
    requires i / 2 < |nibbles| && tag < 16
    ensures |r| == |nibbles|
    ensures NibbleAt(r, i) == tag
    ensures forall k: nat :: k / 2 < |nibbles| && k != i ==> NibbleAt(r, k) == NibbleAt(nibbles, k)
  {
    var b: int := nibbles[i / 2];
    nibbles[i / 2 := if i % 2 == 0 then b / 16 * 16 + tag else 16 * tag + b % 16]
  }

  /** `tags` are the nibbles from the first one on; a last half byte may hold anything. */
  predicate HoldsTags(nibbles: seq<byte>, tags: seq<nat>) {
    |tags| <= 2 * |nibbles| && forall i: nat :: i < |tags| ==> NibbleAt(nibbles, i) == tags[i]
  }

  function TotalSize(tags: seq<nat>): nat {
    if tags == [] then 0 else SizeOfTag(tags[0]) + TotalSize(tags[1..])
  }

  lemma {:induction false} TotalSizeGrows(tags: seq<nat>, n: nat)
    requires n < |tags|
    ensures TotalSize(tags[..n + 1]) == TotalSize(tags[..n]) + SizeOfTag(tags[n])
    ensures TotalSize(tags[..n]) + SizeOfTag(tags[n]) <= TotalSize(tags)
  {
    if n > 0 {
      TotalSizeGrows(tags[1..], n - 1);
      assert tags[..n + 1][1..] == tags[1..][..n];
      assert tags[..n][1..] == tags[1..][..n - 1];
    } else {
      assert tags[..1][1..] == [];
    }
  }

  /** The bytes that a nibble stands for, as the two adjustments after the sum compute it. */
  function Adjusted(nibble: nat): int {
    nibble + (if nibble == 0 then 16 else 0) - (if nibble > 8 then 8 else 0)
  }

  lemma {:induction false} NoSize()
    ensures TotalSize([]) == 0
  {
  }

  lemma {:induction false} EnoughNibbles(nibbles: seq<byte>, tags: seq<nat>)
    requires HoldsTags(nibbles, tags)
    ensures |tags| <= 2 * |nibbles|
  {
  }

  lemma {:induction false} NibbleSize(nibbles: seq<byte>, tags: seq<nat>, i: nat)
    requires HoldsTags(nibbles, tags) && i < |tags| && i / 2 < |nibbles|
    ensures var n := if i % 2 == 0 then nibbles[i / 2] % 16 else nibbles[i / 2] / 16;
            TotalSize(tags[..i + 1]) == TotalSize(tags[..i]) + Adjusted(n)
  {
    assert NibbleAt(nibbles, i) == tags[i];
    TotalSizeGrows(tags, i);
  }

  /** Two nibbles at a time, the size of all the values that a stream of nibbles announces. */
  method GetSizeOfPackedValues(nibbles: seq<byte>, numNibbles: nat, ghost tags: seq<nat>) returns (size: nat)
    requires numNibbles == |tags| && HoldsTags(nibbles, tags)
    ensures size == TotalSize(tags)
  {
    hide TotalSize, HoldsTags, NibbleAt, Adjusted, SizeOfTag;
    EnoughNibbles(nibbles, tags);
    assert tags[..0] == [] && TotalSize([]) == 0 by { NoSize(); }
    var total := 0;
    var i := 0;
    while i < numNibbles / 2
      invariant 0 <= i <= numNibbles / 2
      invariant total == TotalSize(tags[..2 * i])
    {
      var first, second := nibbles[i] % 16, nibbles[i] / 16;
      NibbleSize(nibbles, tags, 2 * i);
      NibbleSize(nibbles, tags, 2 * i + 1);
      total := total + Adjusted(first) + Adjusted(second);
      i := i + 1;
    }
    if numNibbles % 2 == 1 {
      var first := nibbles[numNibbles / 2] % 16;
      NibbleSize(nibbles, tags, numNibbles - 1);
      total := total + Adjusted(first);
    }
    assert tags[..numNibbles] == tags;
    size := total;
  }
}
