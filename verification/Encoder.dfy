/** The encoder: it turns stretches of staging buffers into extents in its output buffer. */
module Encoders {
  import opened Bytes
  import opened Wrappers
  import opened Packing
  import opened Packer
  import opened Arguments
  import opened ArgumentCompress
  import opened LogHeader
  import opened Entries
  import opened Dictionaries

  /** What the dictionary holds for the compression of a message. */
  datatype Site = Site(numNibbles: nat, params: seq<Parameter>)

  /** The dictionary describes every entry whose id it has. */
  predicate Described(dictionary: seq<Site>, entries: seq<Entry>) {
    && AllEntries(entries)
    && forall i :: 0 <= i < |entries| && entries[i].fmtId < |dictionary| ==>
         DescribesEntry(dictionary[entries[i].fmtId], entries[i])
  }

  predicate DescribesEntry(site: Site, e: Entry)
    requires e.Valid()
  {
    Describes(site.params, e.args) && site.numNibbles == |Tags(e.args)|
  }

  /** The encoder takes no more after `done` messages: the bytes to take are used up, the dictionary
      does not know the message yet, its end was cut off, or the worst case does not fit. */
  predicate StopsAt(entries: seq<Entry>, nibbles: seq<seq<byte>>, done: nat, nbytes: nat, room: nat,
                    known: nat, half: nat)
    requires AllEntries(entries) && done < |entries| && done <= |nibbles| && AllNibbles(entries[..done], nibbles[..done])
  {
    var e := entries[done];
    var remaining := nbytes - |Uncompressed(entries[..done])|;
    || remaining <= 0
    || e.fmtId >= known
    || remaining < e.Size() < half
    || 2 * e.Size() + ENTRY_HEADER > room - |Body(entries[..done], nibbles[..done], 0)|
  }

  /** How far a call gets: the messages before `done` do not stop it, and the next one, if there is
      one, does. */
  predicate StopsFirstAt(entries: seq<Entry>, nibbles: seq<seq<byte>>, done: nat, nbytes: nat, room: nat,
                         known: nat, half: nat)
  {
    && AllEntries(entries) && done == |nibbles| <= |entries| && AllNibbles(entries[..done], nibbles)
    && (forall j :: 0 <= j < done ==>
          AllNibbles(entries[..j], nibbles[..j]) && !StopsAt(entries, nibbles, j, nbytes, room, known, half))
    && (done < |entries| ==> StopsAt(entries, nibbles, done, nbytes, room, known, half))
  }

  /** The tests of the encoder in numbers: a message is left when the bytes asked for are used up, when
      its statement is not known yet, when it is smaller than half a staging buffer and not all of it
      was asked for, or when twice its size and 16 bytes more are not left. */
  lemma {:induction false} StopsExactly(entries: seq<Entry>, nibbles: seq<seq<byte>>, done: nat, nbytes: nat, room: nat,
                                        known: nat, half: nat)
    requires AllEntries(entries) && done < |entries| && done <= |nibbles| && AllNibbles(entries[..done], nibbles[..done])
    ensures var e, consumed, used := entries[done], |Uncompressed(entries[..done])|, |Body(entries[..done], nibbles[..done], 0)|;
            StopsAt(entries, nibbles, done, nbytes, room, known, half)
            <==> || consumed >= nbytes
                 || known <= e.fmtId
                 || (e.Size() < half && consumed + e.Size() > nbytes)
                 || used + 2 * e.Size() + 16 > room
  {
    hide Uncompressed, Body;
  }

  /** The header and the arguments of one message. */
  method EncodeMessage(buffer: array<byte>, writePos: nat, site: Site, last: nat, from: seq<byte>, pos: nat,
                       ghost e: Entry)
    returns (end: nat, ghost nibbles: seq<byte>)
    requires e.Valid() && DescribesEntry(site, e) && LiesAt(from, pos, EntryBytes(e))
    requires writePos + 2 * e.Size() + ENTRY_HEADER <= buffer.Length
    modifies buffer
    ensures NibblesOf(e.args, nibbles) && end == writePos + |MessageBytes(e, last, nibbles)|
    ensures Appended(old(buffer[..]), buffer[..], writePos, MessageBytes(e, last, nibbles), 2 * e.Size() + ENTRY_HEADER)
  {
    hide *;
    EntryParts(e, site, from, pos);
    MessageFits(e);
    ghost var before := buffer[..];
    var id, timestamp := Value(from[pos..pos + 4]), Value(from[pos + 8..pos + 16]);
    var middle, _ := CompressLogHeader(buffer, writePos, id, timestamp, last);
    ghost var between := buffer[..];
    var inEnd: nat;
    inEnd, end, nibbles := Compress(buffer, site.numNibbles, site.params, from, pos + ENTRY_HEADER, middle, e.args);
    MessageParts(e, last, nibbles);
    AppendTwice(before, between, buffer[..], writePos, HeaderBytes(id, timestamp, last), 13,
                Compressed(e.args, nibbles), NibbleBytes(site.numNibbles) + |Stored(e.args)| + 3,
                2 * e.Size() + ENTRY_HEADER);
  }

  lemma {:induction false} MessageParts(e: Entry, last: nat, nibbles: seq<byte>)
    requires e.Valid()
    ensures MessageBytes(e, last, nibbles) == HeaderBytes(e.fmtId, e.timestamp, last) + Compressed(e.args, nibbles)
  {
  }

  /** Where the parts of an uncompressed entry lie. */
  lemma {:induction false} EntryParts(e: Entry, site: Site, from: seq<byte>, pos: nat)
    requires e.Valid() && LiesAt(from, pos, EntryBytes(e))
    ensures pos + e.Size() <= |from| && e.Size() == ENTRY_HEADER + |Stored(e.args)| && ENTRY_HEADER == 16
    ensures Value(from[pos..pos + 4]) == e.fmtId < Pow256(4) && Value(from[pos + 4..pos + 8]) == e.Size()
    ensures Value(from[pos + 8..pos + 16]) == e.timestamp < Pow256(8)
    ensures LiesAt(from, pos + ENTRY_HEADER, Stored(e.args)) && AllValid(e.args) && Storable(e.args)
    ensures DescribesEntry(site, e) ==> Describes(site.params, e.args) && site.numNibbles == |Tags(e.args)|
  {
    hide *;
    EntryLayout(e, site);
    var id, size, time := Little(e.fmtId, 4), Little(e.Size(), 4), Little(e.timestamp, 8);
    ValueOfLittle(e.fmtId, 4);
    ValueOfLittle(e.Size(), 4);
    ValueOfLittle(e.timestamp, 8);
    LiesSplit(from, pos, id, size + (time + Stored(e.args)));
    LiesSplit(from, pos + 4, size, time + Stored(e.args));
    LiesSplit(from, pos + 8, time, Stored(e.args));
    LiesWhere(from, pos, id);
    LiesWhere(from, pos + 4, size);
    LiesWhere(from, pos + 8, time);
    LiesWhere(from, pos + 16, Stored(e.args));
  }

  lemma {:induction false} EntryLayout(e: Entry, site: Site)
    requires e.Valid()
    ensures AllValid(e.args) && Storable(e.args) && ENTRY_HEADER == 16 && e.Size() == ENTRY_HEADER + |Stored(e.args)|
    ensures e.fmtId < Pow256(4) && e.Size() < Pow256(4) && e.timestamp < Pow256(8)
    ensures EntryBytes(e) == Little(e.fmtId, 4) + (Little(e.Size(), 4) + (Little(e.timestamp, 8) + Stored(e.args)))
    ensures DescribesEntry(site, e) ==> Describes(site.params, e.args) && site.numNibbles == |Tags(e.args)|
  {
    hide Little, Pow256, Stored, Storable, AllValid, Describes, Tags;
  }

  // ---- The extent around the messages ----

  lemma {:induction false} ExtentStartParts(wrapAround: bool, id: nat, length: nat)
    requires id < Pow256(4)
    ensures ExtentStart(wrapAround, id, length) == ([ExtentByte(wrapAround, id)] + Little(length, 4)) + IdBytes(id)
    ensures id < 16 ==> IdBytes(id) == []
    ensures id >= 16 ==> IdBytes(id) == PackUnsigned(id).bytes
    ensures EXTENT_HEADER == 5 && Pow256(4) == 0x1_0000_0000
  {
    Pow256Values();
  }

  lemma {:induction false} AppendedIsPatch(before: seq<byte>, after: seq<byte>, pos: nat, data: seq<byte>)
    requires Appended(before, after, pos, data, |data|)
    ensures after == Patched(before, pos, data)
  {
    assert after == after[..pos + |data|] + after[pos + |data|..];
  }

  lemma {:induction false} ReplaceHeader(before: seq<byte>, middle: seq<byte>, after: seq<byte>, pos: nat, header: seq<byte>,
                                         data: seq<byte>, reach: nat)
    requires Appended(before, middle, pos + |header|, data, reach)
    requires Appended(middle, after, pos, header, |header|)
    ensures Appended(before, after, pos, header + data, |header| + reach)
  {
    AppendedIsPatch(middle, after, pos, header);
    var same := before[pos..pos + |header|];
    assert Patched(before, pos, same) == before;
    assert Grown(before, middle, pos, same, pos + |header|, data, reach);
    PatchAgain(before, middle, pos, same, pos + |header|, data, reach, header);
    hide Appended, Grown;
    AppendedAfterPatch(before, after, pos, header, data, reach);
  }

  /** The header of an extent whose messages are yet to come, so its length is its own. */
  method WriteExtentStart(buffer: array<byte>, pos: nat, id: nat, newPass: bool) returns (end: nat)
    requires id < Pow256(4) && pos + EXTENT_HEADER + 4 <= buffer.Length
    modifies buffer
    ensures end == pos + EXTENT_HEADER + |IdBytes(id)|
    ensures Appended(old(buffer[..]), buffer[..], pos, ExtentStart(newPass, id, EXTENT_HEADER + |IdBytes(id)|),
                     EXTENT_HEADER + 4)
  {
    hide *;
    ghost var before := buffer[..];
    ExtentStartParts(newPass, id, EXTENT_HEADER + |IdBytes(id)|);
    end := pos + EXTENT_HEADER;
    if id < 16 {
      AppendNothing(before, end, 4);
    } else {
      var tag: nat;
      end, tag := PackIdInto(buffer, end, id);
    }
    ghost var middle := buffer[..];
    var header := [ExtentByte(newPass, id)] + Little(end - pos, 4);
    Copy(buffer, pos, header);
    ReplaceHeader(before, middle, buffer[..], pos, header, IdBytes(id), 4);
  }

  /** Adding the bytes of the messages to the length that the header holds makes the extent whole. */
  lemma {:induction false} LengthPatched(before: seq<byte>, started: seq<byte>, filled: seq<byte>, patched: seq<byte>,
                                         pos: nat, wrapAround: bool, id: nat, body: seq<byte>, room: nat)
    requires id < Pow256(4)
    requires var header := EXTENT_HEADER + |IdBytes(id)|; var length := header + |body|;
             && Appended(before, started, pos, ExtentStart(wrapAround, id, header), EXTENT_HEADER + 4)
             && Appended(started, filled, pos + header, body, room)
             && Appended(filled, patched, pos + 1, Little(length, 4), 4)
    ensures var length := EXTENT_HEADER + |IdBytes(id)| + |body|;
            && pos + length <= |patched|
            && patched[..pos + length] == before[..pos] + (ExtentStart(wrapAround, id, length) + body)
  {
    var header := EXTENT_HEADER + |IdBytes(id)|;
    var length := header + |body|;
    var b, ids := ExtentByte(wrapAround, id), IdBytes(id);
    ExtentStartParts(wrapAround, id, header);
    ExtentStartParts(wrapAround, id, length);
    AppendedIsPatch(filled, patched, pos + 1, Little(length, 4));
    hide *;
    AppendTwoPrefix(before, started, filled, pos, ExtentStart(wrapAround, id, header), EXTENT_HEADER + 4, body, room);
    FieldReplaced(before, filled, patched, pos, b, Little(header, 4), Little(length, 4), ids, body);
  }

  lemma {:induction false} AppendTwoPrefix(before: seq<byte>, middle: seq<byte>, after: seq<byte>, pos: nat,
                                           first: seq<byte>, firstReach: nat, second: seq<byte>, secondReach: nat)
    requires Appended(before, middle, pos, first, firstReach) && Appended(middle, after, pos + |first|, second, secondReach)
    ensures pos + |first| + |second| <= |after| && pos <= |before|
    ensures after[..pos + |first| + |second|] == before[..pos] + (first + second)
  {
    assert after[..pos + |first| + |second|] == middle[..pos + |first|] + second;
  }

  lemma {:induction false} FieldReplaced(before: seq<byte>, filled: seq<byte>, patched: seq<byte>, pos: nat, b: byte,
                                         field: seq<byte>, other: seq<byte>, ids: seq<byte>, body: seq<byte>)
    requires |field| == |other| && pos <= |before| && pos + 1 + |field| + |ids| + |body| <= |filled|
    requires filled[..pos + 1 + |field| + |ids| + |body|] == before[..pos] + ((([b] + field) + ids) + body)
    requires patched == Patched(filled, pos + 1, other)
    ensures patched[..pos + 1 + |field| + |ids| + |body|] == before[..pos] + ((([b] + other) + ids) + body)
  {
    var n := pos + 1 + |field| + |ids| + |body|;
    var r := before[..pos] + ((([b] + other) + ids) + body);
    forall k | 0 <= k < n ensures patched[k] == r[k] {
      assert filled[k] == filled[..n][k];
    }
  }

  /** The length field of a header just written. */
  lemma {:induction false} LengthField(before: seq<byte>, started: seq<byte>, filled: seq<byte>,
                                       pos: nat, wrapAround: bool, id: nat, body: seq<byte>, room: nat)
    requires id < Pow256(4)
    requires var header := EXTENT_HEADER + |IdBytes(id)|;
             && Appended(before, started, pos, ExtentStart(wrapAround, id, header), EXTENT_HEADER + 4)
             && Appended(started, filled, pos + header, body, room)
    ensures pos + EXTENT_HEADER <= |filled| && Value(filled[pos + 1..pos + 5]) == EXTENT_HEADER + |IdBytes(id)|
  {
    var header := EXTENT_HEADER + |IdBytes(id)|;
    Pow256Values();
    ValueOfLittle(header, 4);
    hide IdBytes, ExtentByte, Little, Value, Pow256;
    assert started[..pos + header] == before[..pos] + ExtentStart(wrapAround, id, header);
    assert filled[pos + 1..pos + 5] == filled[..pos + header + |body|][pos + 1..pos + 5];
    assert filled[pos + 1..pos + 5] == started[..pos + header][pos + 1..pos + 5];
    assert (before[..pos] + ExtentStart(wrapAround, id, header))[pos + 1..pos + 5] == Little(header, 4);
  }

  // ---- The loop over the messages ----

  /** Where entry `k` begins and ends in the uncompressed input. */
  lemma {:induction false} EntryAt(entries: seq<Entry>, k: nat)
    requires AllEntries(entries) && k < |entries|
    ensures AllEntries(entries[..k]) && AllEntries(entries[..k + 1]) && entries[k].Valid()
    ensures LiesAt(Uncompressed(entries), |Uncompressed(entries[..k])|, EntryBytes(entries[k]))
    ensures |Uncompressed(entries[..k + 1])| == |Uncompressed(entries[..k])| + entries[k].Size()
  {
    hide *;
    Slices(entries, k);
    Slices(entries, k + 1);
    Slices(entries, 1);
    Unroll(entries);
    Unroll(entries[..k + 1]);
    var first := entries[0];
    if k == 0 {
      Unroll([]);
      assert entries[..1][1..] == [] && entries[..1][0] == first && entries[..0] == [];
      LiesFirst(EntryBytes(first), Uncompressed(entries[1..]));
    } else {
      EntryAt(entries[1..], k - 1);
      Unroll(entries[..k]);
      assert entries[..k][1..] == entries[1..][..k - 1];
      assert entries[..k + 1][1..] == entries[1..][..k];
      var at := |Uncompressed(entries[1..][..k - 1])|;
      LiesLater(Uncompressed(entries[1..]), at, EntryBytes(entries[k]), EntryBytes(first));
    }
  }

  lemma {:induction false} Slices(entries: seq<Entry>, k: nat)
    requires AllEntries(entries) && k <= |entries|
    ensures AllEntries(entries[..k]) && AllEntries(entries[k..])
    ensures k < |entries| ==> entries[k].Valid()
  {
  }

  lemma {:induction false} Unroll(entries: seq<Entry>)
    requires AllEntries(entries)
    ensures entries == [] ==> |Uncompressed(entries)| == 0
    ensures entries != [] ==>
              && entries[0].Valid() && AllEntries(entries[1..]) && |EntryBytes(entries[0])| == entries[0].Size()
              && Uncompressed(entries) == EntryBytes(entries[0]) + Uncompressed(entries[1..])
  {
    hide EntryBytes;
  }

  lemma {:induction false} LiesFirst(first: seq<byte>, rest: seq<byte>)
    ensures LiesAt(first + rest, 0, first)
  {
    assert (first + rest)[0..|first|] == first;
  }

  lemma {:induction false} LiesLater(input: seq<byte>, pos: nat, data: seq<byte>, prefix: seq<byte>)
    requires LiesAt(input, pos, data)
    ensures LiesAt(prefix + input, |prefix| + pos, data)
  {
    assert (prefix + input)[|prefix| + pos..|prefix| + pos + |data|] == input[pos..pos + |data|];
  }

  lemma {:induction false} AllConsumed(entries: seq<Entry>)
    requires AllEntries(entries)
    ensures entries[..|entries|] == entries && entries[..0] == [] && Uncompressed([]) == []
    ensures AllEntries(entries[..0]) && LastTime(entries[..0], 0) == 0
  {
  }

  /** What the loop has done after `|nibbles|` messages: `start` was the output before, `now` is it
      now. */
  predicate Encoded(start: seq<byte>, now: seq<byte>, bodyStart: nat, writePos: nat, entries: seq<Entry>,
                    nibbles: seq<seq<byte>>, nbytes: nat, known: nat, half: nat)
  {
    && AllEntries(entries) && |nibbles| <= |entries| && AllNibbles(entries[..|nibbles|], nibbles)
    && bodyStart <= |start|
    && writePos == bodyStart + |Body(entries[..|nibbles|], nibbles, 0)|
    && Appended(start, now, bodyStart, Body(entries[..|nibbles|], nibbles, 0), |start| - bodyStart)
    && NoneStops(entries, nibbles, nbytes, |start| - bodyStart, known, half)
  }

  predicate NoneStops(entries: seq<Entry>, nibbles: seq<seq<byte>>, nbytes: nat, room: nat, known: nat, half: nat)
    requires AllEntries(entries) && |nibbles| <= |entries|
  {
    forall j :: 0 <= j < |nibbles| ==>
      AllNibbles(entries[..j], nibbles[..j]) && !StopsAt(entries, nibbles, j, nbytes, room, known, half)
  }

  lemma {:induction false} EncodedNone(start: seq<byte>, bodyStart: nat, entries: seq<Entry>, nbytes: nat, known: nat, half: nat)
    requires AllEntries(entries) && bodyStart <= |start|
    ensures Encoded(start, start, bodyStart, bodyStart, entries, [], nbytes, known, half)
  {
    AppendNothing(start, bodyStart, |start| - bodyStart);
    assert entries[..0] == [];
    hide StopsAt;
  }

  /** Whether the next message stops the loop, by the tests of the loop. */
  lemma {:induction false} StopTest(start: seq<byte>, now: seq<byte>, bodyStart: nat, writePos: nat, entries: seq<Entry>,
                                    nibbles: seq<seq<byte>>, nbytes: nat, known: nat, half: nat)
    requires Encoded(start, now, bodyStart, writePos, entries, nibbles, nbytes, known, half)
    requires |nibbles| < |entries|
    ensures |start| == |now| && AllEntries(entries) && AllNibbles(entries[..|nibbles|], nibbles) && nibbles[..|nibbles|] == nibbles
    ensures entries[|nibbles|].Valid() && AllEntries(entries[..|nibbles|])
    ensures var e, remaining := entries[|nibbles|], nbytes - |Uncompressed(entries[..|nibbles|])|;
            StopsAt(entries, nibbles, |nibbles|, nbytes, |start| - bodyStart, known, half) <==>
            || remaining <= 0 || e.fmtId >= known || remaining < e.Size() < half
            || 2 * e.Size() + ENTRY_HEADER > |now| - writePos
  {
    hide Body, NoneStops, Uncompressed, AllNibbles;
    assert nibbles[..|nibbles|] == nibbles;
  }

  lemma {:induction false} EncodedMore(start: seq<byte>, now: seq<byte>, after: seq<byte>, bodyStart: nat, writePos: nat,
                                       entries: seq<Entry>, nibbles: seq<seq<byte>>, nbytes: nat, known: nat, half: nat,
                                       n: seq<byte>, reach: nat)
    requires Encoded(start, now, bodyStart, writePos, entries, nibbles, nbytes, known, half)
    requires |nibbles| < |entries| && nibbles[..|nibbles|] == nibbles
    requires entries[|nibbles|].Valid() && NibblesOf(entries[|nibbles|].args, n)
    requires !StopsAt(entries, nibbles, |nibbles|, nbytes, |start| - bodyStart, known, half)
    requires var e, last := entries[|nibbles|], LastTime(entries[..|nibbles|], 0);
             Appended(now, after, writePos, MessageBytes(e, last, n), reach)
    ensures var e, last := entries[|nibbles|], LastTime(entries[..|nibbles|], 0);
            Encoded(start, after, bodyStart, writePos + |MessageBytes(e, last, n)|, entries, nibbles + [n],
                    nbytes, known, half)
  {
    hide *;
    var k := |nibbles|;
    EncodedParts(start, now, bodyStart, writePos, entries, nibbles, nbytes, known, half);
    var e, last := entries[k], LastTime(entries[..k], 0);
    var message, body := MessageBytes(e, last, n), Body(entries[..k], nibbles, 0);
    BodyAppend(entries[..k], nibbles, 0, e, n);
    NoneStopsMore(entries, nibbles, nbytes, |start| - bodyStart, known, half, n);
    assert entries[..k + 1] == entries[..k] + [e];
    ReachFits(now, after, writePos, message, reach);
    SameLength(start, now, bodyStart, body, |start| - bodyStart);
    AppendTwice(start, now, after, bodyStart, body, |start| - bodyStart, message, reach, |start| - bodyStart);
    EncodedParts(start, after, bodyStart, writePos + |message|, entries, nibbles + [n], nbytes, known, half);
  }

  lemma {:induction false} EncodedParts(start: seq<byte>, now: seq<byte>, bodyStart: nat, writePos: nat, entries: seq<Entry>,
                                        nibbles: seq<seq<byte>>, nbytes: nat, known: nat, half: nat)
    ensures Encoded(start, now, bodyStart, writePos, entries, nibbles, nbytes, known, half) <==>
      && AllEntries(entries) && |nibbles| <= |entries| && AllNibbles(entries[..|nibbles|], nibbles)
      && bodyStart <= |start|
      && writePos == bodyStart + |Body(entries[..|nibbles|], nibbles, 0)|
      && Appended(start, now, bodyStart, Body(entries[..|nibbles|], nibbles, 0), |start| - bodyStart)
      && NoneStops(entries, nibbles, nbytes, |start| - bodyStart, known, half)
  {
    hide AllEntries, AllNibbles, Body, Appended, NoneStops;
  }

  lemma {:induction false} SameLength(before: seq<byte>, after: seq<byte>, pos: nat, data: seq<byte>, reach: nat)
    requires Appended(before, after, pos, data, reach)
    ensures |before| == |after|
  {
  }

  lemma {:induction false} ReachFits(before: seq<byte>, after: seq<byte>, pos: nat, data: seq<byte>, reach: nat)
    requires Appended(before, after, pos, data, reach)
    ensures pos + reach <= |before| && |data| <= reach
  {
  }

  lemma {:induction false} NoneStopsMore(entries: seq<Entry>, nibbles: seq<seq<byte>>, nbytes: nat, room: nat, known: nat,
                                         half: nat, n: seq<byte>)
    requires AllEntries(entries) && |nibbles| < |entries| && NoneStops(entries, nibbles, nbytes, room, known, half)
    requires AllNibbles(entries[..|nibbles|], nibbles[..|nibbles|])
    requires !StopsAt(entries, nibbles, |nibbles|, nbytes, room, known, half)
    ensures NoneStops(entries, nibbles + [n], nbytes, room, known, half)
  {
    var more := nibbles + [n];
    forall j | 0 <= j < |more|
      ensures AllNibbles(entries[..j], more[..j]) && !StopsAt(entries, more, j, nbytes, room, known, half)
    {
      assert more[..j] == nibbles[..j];
    }
  }

  /** The loop of encodeLogMsgs. */
  method EncodeMessages(buffer: array<byte>, bodyStart: nat, from: seq<byte>, nbytes: nat, dictionary: seq<Site>, half: nat,
                        ghost entries: seq<Entry>)
    returns (writePos: nat, remaining: int, numEvents: nat, ghost nibbles: seq<seq<byte>>)
    requires AllEntries(entries) && Described(dictionary, entries) && from == Uncompressed(entries)
    requires nbytes <= |from| && bodyStart <= buffer.Length
    modifies buffer
    ensures Encoded(old(buffer[..]), buffer[..], bodyStart, writePos, entries, nibbles, nbytes, |dictionary|, half)
    ensures numEvents == |nibbles| && AllEntries(entries[..numEvents])
    ensures remaining == nbytes - |Uncompressed(entries[..numEvents])|
    ensures numEvents < |entries| ==>
              && AllNibbles(entries[..numEvents], nibbles[..numEvents])
              && StopsAt(entries, nibbles, numEvents, nbytes, buffer.Length - bodyStart, |dictionary|, half)
  {
    hide *;
    ghost var start := buffer[..];
    AllConsumed(entries);
    EncodedNone(start, bodyStart, entries, nbytes, |dictionary|, half);
    writePos, remaining, numEvents, nibbles := bodyStart, nbytes, 0, [];
    var lastTimestamp := 0;
    var pos := 0;
    while remaining > 0
      invariant numEvents == |nibbles| <= |entries| && AllEntries(entries[..numEvents])
      invariant pos == |Uncompressed(entries[..numEvents])| && remaining == nbytes - pos
      invariant lastTimestamp == LastTime(entries[..numEvents], 0)
      invariant Encoded(start, buffer[..], bodyStart, writePos, entries, nibbles, nbytes, |dictionary|, half)
      decreases |entries| - numEvents
    {
      if numEvents == |entries| { AllConsumed(entries); assert false; }
      ghost var e := entries[numEvents];
      StopTest(start, buffer[..], bodyStart, writePos, entries, nibbles, nbytes, |dictionary|, half);
      EntryAt(entries, numEvents);
      EntryParts(e, Site(0, []), from, pos);
      var fmtId, entrySize := Value(from[pos..pos + 4]), Value(from[pos + 4..pos + 8]);
      if |dictionary| <= fmtId { break; }
      if entrySize > remaining {
        if entrySize < half { break; }
      }
      if 2 * entrySize + ENTRY_HEADER > buffer.Length - writePos { break; }
      DescribedAt(dictionary, entries, numEvents);
      ghost var n: seq<byte>;
      ghost var now := buffer[..];
      ghost var at := writePos;
      writePos, n := EncodeMessage(buffer, writePos, dictionary[fmtId], lastTimestamp, from, pos, e);
      EncodedMore(start, now, buffer[..], bodyStart, at, entries, nibbles, nbytes, |dictionary|, half, n,
                  2 * e.Size() + ENTRY_HEADER);
      NextTime(entries, numEvents);
      lastTimestamp := Value(from[pos + 8..pos + 16]);
      remaining, pos := remaining - entrySize, pos + entrySize;
      numEvents, nibbles := numEvents + 1, nibbles + [n];
    }
    if numEvents < |entries| {
      StopTest(start, buffer[..], bodyStart, writePos, entries, nibbles, nbytes, |dictionary|, half);
    }
  }

  lemma {:induction false} DescribedAt(dictionary: seq<Site>, entries: seq<Entry>, k: nat)
    requires Described(dictionary, entries) && k < |entries| && entries[k].fmtId < |dictionary|
    ensures entries[k].Valid() && DescribesEntry(dictionary[entries[k].fmtId], entries[k])
  {
  }

  lemma {:induction false} NextTime(entries: seq<Entry>, k: nat)
    requires k < |entries|
    ensures LastTime(entries[..k + 1], 0) == entries[k].timestamp
  {
  }

  // ---- The encoder ----

  // Sizes of fragments are kept in thirty bits.
  const MAX_BUFFER: nat := 0x4000_0000

  class Encoder {
    var backingBuffer: array<byte>
    var writePos: nat
    // Where the length of the extent written last is.
    var currentExtentSize: Option<nat>
    var lastBufferIdEncoded: Option<nat>

    predicate Valid()
      reads this
    {
      writePos <= backingBuffer.Length < MAX_BUFFER
    }

    constructor (buffer: array<byte>)
      requires buffer.Length < MAX_BUFFER
      ensures Valid() && backingBuffer == buffer && writePos == 0 && currentExtentSize == None
    {
      backingBuffer, writePos := buffer, 0;
      currentExtentSize, lastBufferIdEncoded := None, None;
    }

    /** Fails, and changes nothing, exactly when the longest header would not fit. */
    method EncodeBufferExtentStart(bufferId: nat, newPass: bool) returns (ok: bool)
      requires Valid() && bufferId < Pow256(4)
      modifies this, backingBuffer
      ensures Valid() && backingBuffer == old(backingBuffer)
      ensures ok <==> EXTENT_HEADER + 4 <= backingBuffer.Length - old(writePos)
      ensures !ok ==> writePos == old(writePos) && backingBuffer[..] == old(backingBuffer[..])
                      && currentExtentSize == old(currentExtentSize) && lastBufferIdEncoded == old(lastBufferIdEncoded)
      ensures ok ==> currentExtentSize == Some(old(writePos) + 1) && lastBufferIdEncoded == Some(bufferId)
      ensures ok ==> writePos == old(writePos) + EXTENT_HEADER + |IdBytes(bufferId)|
      ensures ok ==> Appended(old(backingBuffer[..]), backingBuffer[..], old(writePos),
                              ExtentStart(newPass, bufferId, EXTENT_HEADER + |IdBytes(bufferId)|), EXTENT_HEADER + 4)
    {
      if EXTENT_HEADER + 4 > backingBuffer.Length - writePos { return false; }
      hide Appended, ExtentStart;
      currentExtentSize := Some(writePos + 1);
      writePos := WriteExtentStart(backingBuffer, writePos, bufferId, newPass);
      lastBufferIdEncoded := Some(bufferId);
      return true;
    }

    /** Encodes an extent with as many of the messages of `from` as the dictionary, the bytes to take
        and the space allow, and returns the size they had there. */
    method EncodeLogMsgs(from: seq<byte>, nbytes: nat, bufferId: nat, newPass: bool, dictionary: seq<Site>, half: nat,
                         ghost entries: seq<Entry>)
      returns (consumed: int, numEvents: nat, ghost nibbles: seq<seq<byte>>)
      requires Valid() && bufferId < Pow256(4)
      requires AllEntries(entries) && Described(dictionary, entries) && from == Uncompressed(entries)
      requires nbytes <= |from|
      modifies this, backingBuffer
      ensures Valid() && backingBuffer == old(backingBuffer)
      ensures EXTENT_HEADER + 4 > backingBuffer.Length - old(writePos) ==>
                consumed == 0 && numEvents == 0 && writePos == old(writePos) && backingBuffer[..] == old(backingBuffer[..])
      ensures EXTENT_HEADER + 4 <= backingBuffer.Length - old(writePos) ==>
                && numEvents <= |entries| && AllNibbles(entries[..numEvents], nibbles)
                && consumed == |Uncompressed(entries[..numEvents])|
                && backingBuffer[..writePos]
                   == old(backingBuffer[..writePos]) + Extent(newPass, bufferId, entries[..numEvents], nibbles)
                && StopsFirstAt(entries, nibbles, numEvents, nbytes,
                                backingBuffer.Length - old(writePos) - EXTENT_HEADER - |IdBytes(bufferId)|,
                                |dictionary|, half)
    {
      hide *;
      nibbles := [];
      ghost var p := writePos;
      ghost var before := backingBuffer[..];
      var ok := EncodeBufferExtentStart(bufferId, newPass);
      if !ok { return 0, 0, []; }
      ghost var started := backingBuffer[..];
      SpaceLeft(this);
      var bodyStart := writePos;
      var remaining: int;
      writePos, remaining, numEvents, nibbles :=
        EncodeMessages(backingBuffer, bodyStart, from, nbytes, dictionary, half, entries);
      ghost var filled := backingBuffer[..];
      EncodedParts(started, filled, bodyStart, writePos, entries, nibbles, nbytes, |dictionary|, half);
      ghost var body := Body(entries[..numEvents], nibbles, 0);
      LengthField(before, started, filled, p, newPass, bufferId, body, |started| - bodyStart);
      ReachFits(started, filled, bodyStart, body, |started| - bodyStart);
      var at := currentExtentSize.value;
      var currentSize := Value(backingBuffer[at..at + 4]) + (writePos - bodyStart);
      assert backingBuffer[at..at + 4] == filled[p + 1..p + 5];
      Copy(backingBuffer, at, Little(currentSize, 4));
      LengthPatched(before, started, filled, backingBuffer[..], p, newPass, bufferId, body, |started| - bodyStart);
      ExtentIs(newPass, bufferId, entries[..numEvents], nibbles);
      SpaceLeft(this);
      FirstStop(entries, nibbles, numEvents, nbytes, |started| - bodyStart, |dictionary|, half);
      consumed := nbytes - remaining;
    }

    /** Encodes the static information that the log file does not have yet, as far as it fits, and
        says how far that was. */
    method EncodeNewDictionaryEntries(currentPosition: nat, infos: seq<LogInfo>) returns (bytes: nat, position: nat)
      requires Valid() && AllInfos(infos) && currentPosition <= |infos| < Pow256(4)
      modifies this, backingBuffer
      ensures Valid() && backingBuffer == old(backingBuffer)
      ensures var room := backingBuffer.Length - old(writePos);
              if FRAGMENT_HEADER >= room then
                bytes == 0 && position == currentPosition && writePos == old(writePos)
                && backingBuffer[..] == old(backingBuffer[..])
              else
                && FitsUpTo(infos, currentPosition, position, room - FRAGMENT_HEADER)
                && bytes == |FragmentBytes(infos[currentPosition..position], position)|
                && backingBuffer[..writePos]
                   == old(backingBuffer[..writePos]) + FragmentBytes(infos[currentPosition..position], position)
                && old(writePos) + 8 <= writePos && Value(backingBuffer[old(writePos) + 4..old(writePos) + 8]) == position
    {
      hide AllInfos, FitsUpTo, FragmentBytes;
      bytes, writePos, position := Dictionaries.EncodeNewDictionaryEntries(backingBuffer, writePos, currentPosition, infos);
    }

    method GetEncodedBytes() returns (n: nat)
      requires Valid()
      ensures n == |backingBuffer[..writePos]|
    {
      n := writePos;
    }

    /** Hands out the buffer and how much of it is used, and goes on with an empty one. */
    method SwapBuffer(inBuffer: array<byte>) returns (outBuffer: array<byte>, outLength: nat, outSize: nat)
      requires Valid() && inBuffer.Length < MAX_BUFFER
      modifies this
      ensures Valid() && backingBuffer == inBuffer && writePos == 0 && currentExtentSize == None
      ensures outBuffer == old(backingBuffer) && outLength == old(writePos) && outSize == outBuffer.Length
    {
      outBuffer, outLength, outSize := backingBuffer, writePos, backingBuffer.Length;
      backingBuffer, writePos := inBuffer, 0;
      lastBufferIdEncoded, currentExtentSize := None, None;
    }
  }

  lemma {:induction false} SpaceLeft(encoder: Encoder)
    ensures encoder.Valid() <==> encoder.writePos <= encoder.backingBuffer.Length < MAX_BUFFER
    ensures EXTENT_HEADER == 5 && MAX_BUFFER < Pow256(4)
  {
    Pow256Values();
  }

  lemma {:induction false} ExtentIs(wrapAround: bool, id: nat, entries: seq<Entry>, nibbles: seq<seq<byte>>)
    requires id < Pow256(4) && AllNibbles(entries, nibbles)
    ensures Extent(wrapAround, id, entries, nibbles)
            == ExtentStart(wrapAround, id, EXTENT_HEADER + |IdBytes(id)| + |Body(entries, nibbles, 0)|) + Body(entries, nibbles, 0)
  {
  }

  lemma {:induction false} FirstStop(entries: seq<Entry>, nibbles: seq<seq<byte>>, done: nat, nbytes: nat, room: nat,
                                     known: nat, half: nat)
    requires AllEntries(entries) && done == |nibbles| <= |entries| && AllNibbles(entries[..done], nibbles)
    requires NoneStops(entries, nibbles, nbytes, room, known, half)
    requires done < |entries| ==>
               AllNibbles(entries[..done], nibbles[..done]) && StopsAt(entries, nibbles, done, nbytes, room, known, half)
    ensures StopsFirstAt(entries, nibbles, done, nbytes, room, known, half)
  {
    hide StopsAt, AllNibbles;
  }
}
