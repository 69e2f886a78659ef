/** The header of a compressed log message: one byte of tags, the packed id, the packed distance in
    time to the message before. */
module LogHeader {
  import opened Arithmetic
  import opened Bytes
  import opened Packing
  import opened Packer

  const LOG_MSGS_OR_DIC := 1

  /** The time difference, modulo 2^64, as a signed number. */
  function Delta(timestamp: nat, last: nat): (d: int)
    ensures INT64.Holds(d)
  {
    INT64.Cast(timestamp - last)
  }

  /** Bits 0-1 hold the entry type, 2-3 the bytes of the id less one, 4-7 the tag of the time. */
  function HeaderByte(idTag: nat, timeTag: nat): byte
    requires 1 <= idTag <= 4 && timeTag < 16
  {
    LOG_MSGS_OR_DIC + 4 * (idTag - 1) + 16 * timeTag
  }

  function HeaderBytes(id: nat, timestamp: nat, last: nat): seq<byte>
    requires id < Pow256(4)
  {
    var i, t := PackUnsigned(id), PackInteger(INT64, Delta(timestamp, last));
    HeaderTags(id, timestamp, last);
    [HeaderByte(i.tag, t.tag)] + (i.bytes + t.bytes)
  }

  lemma {:induction false} HeaderTags(id: nat, timestamp: nat, last: nat)
    requires id < Pow256(4)
    ensures var i, t := PackUnsigned(id), PackInteger(INT64, Delta(timestamp, last));
            && 1 <= i.tag <= 4 && |i.bytes| == i.tag
            && 1 <= t.tag < 16 && |t.bytes| == SizeOfTag(t.tag) && 1 <= |t.bytes| <= 8
  {
    FewestBytes(id, 4) by { Pow256Grows(4, 8); }
    TagOfInteger(INT64, Delta(timestamp, last));
  }

  /** A time takes eight bytes exactly when it is at least 2^56 ahead or behind. */
  lemma {:induction false} FarTime(delta: int)
    requires INT64.Holds(delta)
    ensures PackInteger(INT64, delta).tag == 8 <==> !(-Pow256(7) < delta < Pow256(7))
  {
    Pow256Values();
    TagOfInteger(INT64, delta);
    if delta >= 0 {
      FewestBytes(delta, 7);
    } else if delta > -Pow256(7) {
      FewestBytes(-delta, 7);
    } else {
      FewestBytes(delta % Pow256(8), 7);
    }
  }

  /** The store to a bit-field: `byte` outside the bits from `low` up to `high`, `v` in them. */
  function SetBits(b: byte, low: nat, high: nat, v: nat): (r: int)
    requires (low, high) in {(1, 4), (4, 16), (16, 256)} && v * low < high
    ensures 0 <= r < 256
  {
    b / high * high + v * low + b % low
  }

  lemma {:induction false} ThreeStores(b: byte, idTag: nat, timeTag: nat)
    requires 1 <= idTag <= 4 && timeTag < 16
    ensures var b0 := SetBits(b, 1, 4, LOG_MSGS_OR_DIC);
            var b1 := SetBits(b0, 4, 16, idTag - 1);
            SetBits(b1, 16, 256, timeTag) == HeaderByte(idTag, timeTag)
  {
    var b0 := SetBits(b, 1, 4, LOG_MSGS_OR_DIC);
    assert b0 == 4 * (b / 4) + 1 && b0 % 4 == 1;
    FieldsBelow(b0, idTag);
  }

  lemma {:induction false} FieldsBelow(b: byte, idTag: nat)
    requires b % 4 == 1 && 1 <= idTag <= 4
    ensures var c := SetBits(b, 4, 16, idTag - 1); c % 16 == 4 * (idTag - 1) + 1
  {
    var q := b / 16;
    assert SetBits(b, 4, 16, idTag - 1) == 16 * q + (4 * (idTag - 1) + 1);
  }

  /** Stores one byte of the header. */
  method StoreByte(buffer: array<byte>, pos: nat, b: byte)
    requires pos < buffer.Length
    modifies buffer
    ensures buffer[..] == Patched(old(buffer[..]), pos, [b])
  {
    buffer[pos] := b;
  }

  /** Writes the header at `pos`. The number returned, meant to be that of the bytes written, is too
      small by eight when the time takes eight bytes. */
  method CompressLogHeader(buffer: array<byte>, pos: nat, id: nat, timestamp: nat, last: nat)
    returns (end: nat, size: nat)
    requires id < Pow256(4) && pos + 13 <= buffer.Length
    modifies buffer
    ensures end == pos + |HeaderBytes(id, timestamp, last)| <= pos + 13
    ensures Appended(old(buffer[..]), buffer[..], pos, HeaderBytes(id, timestamp, last), 13)
    ensures size == end - pos <==> -Pow256(7) < Delta(timestamp, last) < Pow256(7)
  {
    hide *;
    var delta := Delta(timestamp, last);
    HeaderFacts(id, timestamp, last);
    ghost var i, t := PackUnsigned(id), PackInteger(INT64, delta);
    ghost var before := buffer[..];

    var b := SetBits(buffer[pos], 1, 4, LOG_MSGS_OR_DIC);
    StoreByte(buffer, pos, b);
    PatchFirst(before, pos, [b]);

    ghost var s1 := buffer[..];
    var idTag: nat;
    end, idTag := PackIdInto(buffer, pos + 1, id);
    GrowBy(before, s1, buffer[..], pos, [b], pos + 1, [], 0, i.bytes, 4, 12);
    ByteOfPatch(before, buffer[..], pos, b, pos + 1, [] + i.bytes, 12);
    ghost var s2 := buffer[..];
    var c := SetBits(buffer[pos], 4, 16, idTag - 1);
    StoreByte(buffer, pos, c);
    PatchAgain(before, s2, pos, [b], pos + 1, [] + i.bytes, 12, [c]);

    ghost var s3 := buffer[..];
    var timeTag: nat;
    end, timeTag := PackTimeInto(buffer, end, delta);
    GrowBy(before, s3, buffer[..], pos, [c], pos + 1, [] + i.bytes, 12, t.bytes, 8, 12);
    ByteOfPatch(before, buffer[..], pos, c, pos + 1, [] + i.bytes + t.bytes, 12);
    ghost var s4 := buffer[..];
    var d := SetBits(buffer[pos], 16, 256, timeTag);
    StoreByte(buffer, pos, d);
    PatchAgain(before, s4, pos, [c], pos + 1, [] + i.bytes + t.bytes, 12, [d]);
    ThreeStores(before[pos], idTag, timeTag);
    AppendedAfterPatch(before, buffer[..], pos, [d], [] + i.bytes + t.bytes, 12);
    size := 1 + (idTag - 1) + 1 + timeTag % 8;
  }

  lemma {:induction false} ByteOfPatch(before: seq<byte>, after: seq<byte>, base: nat, b: byte,
                                       pos: nat, data: seq<byte>, reach: nat)
    requires Grown(before, after, base, [b], pos, data, reach)
    ensures base < |after| == |before| && after[base] == b
  {
    GrownPatch(before, after, base, [b], pos, data, reach);
    assert after[base] == after[base..base + 1][0];
  }

  /** Where the parts of a header lie. */
  lemma {:induction false} HeaderThere(data: seq<byte>, pos: nat, id: nat, time: nat, last: nat)
    requires pos < |data| && id < Pow256(4)
    requires pos + |HeaderBytes(id, time, last)| <= |data|
    requires data[pos..pos + |HeaderBytes(id, time, last)|] == HeaderBytes(id, time, last)
    ensures var i, t := PackUnsigned(id), PackInteger(INT64, Delta(time, last));
            && data[pos] / 4 % 4 + 1 == i.tag == |i.bytes| && data[pos] / 16 == t.tag
            && |t.bytes| == (if t.tag <= 8 then t.tag else t.tag - 8)
            && pos + 1 + |i.bytes| + |t.bytes| <= |data|
            && data[pos + 1..pos + 1 + |i.bytes|] == i.bytes
            && data[pos + 1 + |i.bytes|..pos + 1 + |i.bytes| + |t.bytes|] == t.bytes
            && |HeaderBytes(id, time, last)| == 1 + |i.bytes| + |t.bytes|
  {
    HeaderTags(id, time, last);
    HeaderFacts(id, time, last);
    var i, t := PackUnsigned(id), PackInteger(INT64, Delta(time, last));
    HeaderByteParts(i.tag, t.tag);
    TagBytes(t.tag);
    hide *;
    ThreeParts(data, pos, HeaderByte(i.tag, t.tag), i.bytes, t.bytes);
  }

  lemma {:induction false} ThreeParts(data: seq<byte>, pos: nat, b: byte, s: seq<byte>, t: seq<byte>)
    requires var n := |[b] + ([] + s + t)|; pos + n <= |data| && data[pos..pos + n] == [b] + ([] + s + t)
    ensures data[pos] == b
    ensures data[pos + 1..pos + 1 + |s|] == s && data[pos + 1 + |s|..pos + 1 + |s| + |t|] == t
  {
    var all := data[pos..pos + 1 + |s| + |t|];
    assert data[pos] == all[0];
    forall k | 0 <= k < |s| ensures data[pos + 1 + k] == s[k] { assert all[1 + k] == s[k]; }
    forall k | 0 <= k < |t| ensures data[pos + 1 + |s| + k] == t[k] { assert all[1 + |s| + k] == t[k]; }
  }

  lemma {:induction false} TagBytes(tag: nat)
    requires tag > 0
    ensures SizeOfTag(tag) == if tag <= 8 then tag else tag - 8
  {
  }

  lemma {:induction false} HeaderByteParts(idTag: nat, timeTag: nat)
    requires 1 <= idTag <= 4 && timeTag < 16
    ensures var b := HeaderByte(idTag, timeTag); b % 4 == LOG_MSGS_OR_DIC && b / 4 % 4 + 1 == idTag && b / 16 == timeTag
  {
  }

  lemma {:induction false} HeaderRead(id: nat, time: nat, last: nat)
    requires id < Pow256(4) && time < Pow256(8) && last < Pow256(8)
    ensures INT64.Valid() && INT64.Holds(Delta(time, last))
    ensures var i, t := PackUnsigned(id), PackInteger(INT64, Delta(time, last));
            && UINT32.Cast(Unpacked(i.tag, i.bytes)) == id && UINT64.Cast(INT64.Cast(Unpacked(t.tag, t.bytes))) >= 0
            && (UINT64.Cast(INT64.Cast(Unpacked(t.tag, t.bytes))) + last) % Pow256(8) == time
  {
    UnpackUnsigned(id, UINT32) by { Pow256Grows(4, 8); }
    IntegerRoundTrip(INT64, Delta(time, last));
    DeltaUndone(time, last);
    CastKeeps(UINT32, id);
    hide PackUnsigned, PackInteger, Unpacked, Delta, Pow256;
    assert UINT32.Holds(id);
  }

  lemma {:induction false} HeaderFacts(id: nat, timestamp: nat, last: nat)
    requires id < Pow256(4)
    ensures INT64.Valid() && INT64.Holds(Delta(timestamp, last)) && LOG_MSGS_OR_DIC == 1
    ensures var i, t := PackUnsigned(id), PackInteger(INT64, Delta(timestamp, last));
            && 1 <= i.tag == |i.bytes| <= 4 && 1 <= t.tag < 16 && |t.bytes| <= 8
            && (t.tag % 8 == |t.bytes| <==> -Pow256(7) < Delta(timestamp, last) < Pow256(7))
            && HeaderBytes(id, timestamp, last) == [HeaderByte(i.tag, t.tag)] + ([] + i.bytes + t.bytes)
  {
    HeaderTags(id, timestamp, last);
    FarTime(Delta(timestamp, last));
    hide PackInteger, PackUnsigned, Delta, Pow256;
    var i, t := PackUnsigned(id), PackInteger(INT64, Delta(timestamp, last));
    assert [] + i.bytes + t.bytes == i.bytes + t.bytes;
  }

  method PackIdInto(buffer: array<byte>, pos: nat, id: nat) returns (end: nat, tag: nat)
    requires id < Pow256(4) && pos + 4 <= buffer.Length
    modifies buffer
    ensures tag == PackUnsigned(id).tag && end == pos + |PackUnsigned(id).bytes|
    ensures Appended(old(buffer[..]), buffer[..], pos, PackUnsigned(id).bytes, 4)
  {
    end, tag := PackUnsignedInto(buffer, pos, id, 4);
  }

  method PackTimeInto(buffer: array<byte>, pos: nat, delta: int) returns (end: nat, tag: nat)
    requires INT64.Holds(delta) && pos + 8 <= buffer.Length
    modifies buffer
    ensures tag == PackInteger(INT64, delta).tag && end == pos + |PackInteger(INT64, delta).bytes|
    ensures Appended(old(buffer[..]), buffer[..], pos, PackInteger(INT64, delta).bytes, 8)
  {
    end, tag := PackInto(buffer, pos, INT64, delta);
  }

  // ---- Reading the header ----

  /** Adding the difference to the time before gives the time again, modulo 2^64. */
  lemma {:induction false} DeltaUndone(timestamp: nat, last: nat)
    requires timestamp < Pow256(8) && last < Pow256(8)
    ensures (Delta(timestamp, last) % Pow256(8) + last) % Pow256(8) == timestamp
  {
    hide Pow256;
    var x := timestamp - last;
    CastIsCongruent(INT64, x);
    ModUndone(x, Pow256(8), last);
  }

  lemma {:induction false} CastIsCongruent(t: IntType, x: int)
    ensures t.Cast(x) % Pow256(t.width) == x % Pow256(t.width)
  {
    hide Pow256;
    var p, m := Pow256(t.width), x % Pow256(t.width);
    ModIsUnique(m, p, 0, m);
    ModIsUnique(m - p, p, -1, m);
  }

  lemma {:induction false} ModUndone(x: int, p: int, y: nat)
    requires p >= 1 && 0 <= x + y < p
    ensures (x % p + y) % p == x + y
  {
    assert x % p == x - (x / p) * p;
    ModIsUnique(x % p + y, p, -(x / p), x + y);
  }

  /** Reads a header, unless the byte there starts something else. */
  method DecompressLogHeader(data: seq<byte>, pos: nat, last: nat, ghost id: nat, ghost time: nat)
    returns (ok: bool, end: nat, logId: nat, timestamp: nat)
    requires pos < |data| && last < Pow256(8) && id < Pow256(4) && time < Pow256(8)
    requires data[pos] % 4 == LOG_MSGS_OR_DIC ==>
               pos + |HeaderBytes(id, time, last)| <= |data| &&
               data[pos..pos + |HeaderBytes(id, time, last)|] == HeaderBytes(id, time, last)
    ensures ok <==> data[pos] % 4 == LOG_MSGS_OR_DIC
    ensures ok ==> end == pos + |HeaderBytes(id, time, last)| && logId == id && timestamp == time
    ensures !ok ==> end == pos
  {
    hide *;
    HeaderFacts(id, time, last);
    if data[pos] % 4 != LOG_MSGS_OR_DIC { return false, pos, 0, 0; }
    var idTag, timeTag := data[pos] / 4 % 4 + 1, data[pos] / 16;
    HeaderThere(data, pos, id, time, last);
    var timePos := pos + 1 + idTag;
    end := timePos + if timeTag <= 8 then timeTag else timeTag - 8;
    HeaderRead(id, time, last);
    logId := UINT32.Cast(Unpacked(idTag, data[pos + 1..timePos]));
    timestamp := UINT64.Cast(INT64.Cast(Unpacked(timeTag, data[timePos..end])));
    timestamp := (timestamp + last) % Pow256(8);
    ok := true;
  }
}
