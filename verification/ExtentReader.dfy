/** Reading one extent back: header, then one message after the other. */
module ExtentReader {
  import opened Wrappers
  import opened Bytes
  import opened Packing
  import opened Packer
  import opened Arguments
  import opened ArgumentCompress
  import opened ArgumentDecode
  import opened Formats
  import opened LogHeader
  import opened Entries

  /** What the decoder keeps of a log statement: how many nibbles its messages have and how to print
      them. */
  datatype Metadata = Metadata(numNibbles: nat, fragments: seq<Fragment>)

  datatype Message = Message(threadId: nat, logId: nat, timestamp: nat, values: seq<Decoded>)

  /** The decoder has the statement of the message, and the statement prints what was logged. */
  predicate Readable(metadata: seq<Metadata>, e: Entry) {
    && e.Valid() && e.fmtId < |metadata|
    && MatchFrom(AllNeeds(metadata[e.fmtId].fragments), e.args)
    && metadata[e.fmtId].numNibbles == |Tags(e.args)|
  }

  predicate AllReadable(metadata: seq<Metadata>, entries: seq<Entry>) {
    forall i :: 0 <= i < |entries| ==> Readable(metadata, entries[i])
  }

  function MessageOf(threadId: nat, metadata: seq<Metadata>, e: Entry): Message
    requires Readable(metadata, e)
  {
    Message(threadId, e.fmtId, e.timestamp, AllExpected(AllNeeds(metadata[e.fmtId].fragments), e.args))
  }

  function MessagesOf(threadId: nat, metadata: seq<Metadata>, entries: seq<Entry>): (r: seq<Message>)
    requires AllReadable(metadata, entries)
    ensures |r| == |entries|
  {
    seq(|entries|, i requires 0 <= i < |entries| => MessageOf(threadId, metadata, entries[i]))
  }

  /** The bytes from behind the header of the first message on. */
  function RestOf(entries: seq<Entry>, nibbles: seq<seq<byte>>): seq<byte>
    requires AllNibbles(entries, nibbles) && entries != []
  {
    Compressed(entries[0].args, nibbles[0]) + Body(entries[1..], nibbles[1..], entries[0].timestamp)
  }

  /** The header of an extent, field by field. */
  lemma {:induction false} ExtentThere(file: seq<byte>, pos: nat, wrapAround: bool, id: nat, length: nat, body: seq<byte>)
    requires id < Pow256(4) && length < Pow256(4) && LiesAt(file, pos, ExtentStart(wrapAround, id, length) + body)
    ensures EXTENT_HEADER == 5 && pos + EXTENT_HEADER + |IdBytes(id)| + |body| <= |file|
    ensures var b := file[pos];
            && b % 4 == BUFFER_EXTENT && (b / 4 % 2 == 1 <==> wrapAround) && (b / 8 % 2 == 1 <==> id < 16)
            && (id < 16 ==> b / 16 == id)
            && (id >= 16 ==> b / 16 == |IdBytes(id)| && UINT32.Cast(Unpacked(b / 16, IdBytes(id))) == id)
    ensures Value(file[pos + 1..pos + 5]) == length
    ensures LiesAt(file, pos + EXTENT_HEADER, IdBytes(id)) && LiesAt(file, pos + EXTENT_HEADER + |IdBytes(id)|, body)
  {
    hide *;
    ExtentByteParts(wrapAround, id);
    ValueOfLittle(length, 4);
    ExtentLayout(wrapAround, id, length, body);
    var b := ExtentByte(wrapAround, id);
    LiesSplit(file, pos, [b], Little(length, 4) + (IdBytes(id) + body));
    LiesSplit(file, pos + 1, Little(length, 4), IdBytes(id) + body);
    LiesSplit(file, pos + 5, IdBytes(id), body);
    LiesWhere(file, pos, [b]);
    LiesWhere(file, pos + 1, Little(length, 4));
    LiesWhere(file, pos + 5 + |IdBytes(id)|, body);
    assert file[pos] == file[pos..pos + 1][0];
  }

  lemma {:induction false} ExtentLayout(wrapAround: bool, id: nat, length: nat, body: seq<byte>)
    requires id < Pow256(4)
    ensures EXTENT_HEADER == 5
    ensures ExtentStart(wrapAround, id, length) + body
            == [ExtentByte(wrapAround, id)] + (Little(length, 4) + (IdBytes(id) + body))
  {
    hide ExtentByte, Little, IdBytes;
  }

  lemma {:induction false} ExtentByteParts(wrapAround: bool, id: nat)
    requires id < Pow256(4)
    ensures var b := ExtentByte(wrapAround, id);
            && b % 4 == BUFFER_EXTENT && (b / 4 % 2 == 1 <==> wrapAround) && (b / 8 % 2 == 1 <==> id < 16)
            && (id < 16 ==> b / 16 == id)
            && (id >= 16 ==> b / 16 == |IdBytes(id)| && UINT32.Cast(Unpacked(b / 16, IdBytes(id))) == id)
  {
    hide *;
    IdTag(id);
    ExtentByteIs(wrapAround, id);
    var w, short := if wrapAround then 1 else 0, if id < 16 then 1 else 0;
    FieldsOf(w, short, if id < 16 then id else PackUnsigned(id).tag);
  }

  lemma {:induction false} ExtentByteIs(wrapAround: bool, id: nat)
    requires id < Pow256(4)
    ensures BUFFER_EXTENT == 2
    ensures ExtentByte(wrapAround, id)
            == 2 + 4 * (if wrapAround then 1 else 0) + 8 * (if id < 16 then 1 else 0)
               + 16 * (if id < 16 then id else PackUnsigned(id).tag)
  {
    hide Pow256, PackUnsigned;
  }

  lemma {:induction false} FieldsOf(w: nat, short: nat, n: nat)
    requires w < 2 && short < 2 && n < 16
    ensures var b := 2 + 4 * w + 8 * short + 16 * n; b % 4 == 2 && b / 4 % 2 == w && b / 8 % 2 == short && b / 16 == n
  {
  }

  lemma {:induction false} IdTag(id: nat)
    requires id < Pow256(4)
    ensures id < 16 ==> IdBytes(id) == []
    ensures PackUnsigned(id).tag < 16
    ensures id >= 16 ==> PackUnsigned(id).tag == |IdBytes(id)| && UINT32.Cast(Unpacked(PackUnsigned(id).tag, IdBytes(id))) == id
  {
    FewestBytes(id, 4) by { Pow256Grows(4, 8); }
    UnpackUnsigned(id, UINT32) by { Pow256Grows(4, 8); }
    CastKeeps(UINT32, id);
    hide Pow256, Little, Unpacked;
    assert UINT32.Holds(id);
  }

  // ---- Between two messages and within one ----

  /** The header of the next message has been read and its arguments come next. */
  predicate AtMessage(data: seq<byte>, readPos: nat, end: nat, id: nat, timestamp: nat,
                      pending: seq<Entry>, nibbles: seq<seq<byte>>)
  {
    && pending != [] && AllNibbles(pending, nibbles)
    && id == pending[0].fmtId && timestamp == pending[0].timestamp
    && LiesAt(data, readPos, RestOf(pending, nibbles)) && end == readPos + |RestOf(pending, nibbles)|
  }

  /** The next message, header and all, or the end. */
  predicate AtHeader(data: seq<byte>, readPos: nat, end: nat, last: nat, pending: seq<Entry>, nibbles: seq<seq<byte>>) {
    && AllNibbles(pending, nibbles) && last < Pow256(8)
    && LiesAt(data, readPos, Body(pending, nibbles, last)) && end == readPos + |Body(pending, nibbles, last)|
  }

  lemma {:induction false} HeaderComes(data: seq<byte>, readPos: nat, end: nat, last: nat, pending: seq<Entry>,
                                       nibbles: seq<seq<byte>>)
    requires AtHeader(data, readPos, end, last, pending, nibbles)
    ensures readPos <= end <= |data| && last < Pow256(8)
    ensures pending == [] <==> readPos >= end
    ensures pending != [] ==>
      var e := pending[0]; var header := HeaderBytes(e.fmtId, e.timestamp, last);
      && e.Valid() && e.fmtId < Pow256(4) && e.timestamp < Pow256(8)
      && readPos + |header| <= |data| && data[readPos..readPos + |header|] == header
      && data[readPos] % 4 == LOG_MSGS_OR_DIC
      && AtMessage(data, readPos + |header|, end, e.fmtId, e.timestamp, pending, nibbles)
  {
    hide *;
    AtHeaderParts(data, readPos, end, last, pending, nibbles);
    LiesWhere(data, readPos, Body(pending, nibbles, last));
    if pending == [] {
      NoBody(nibbles, last);
    } else {
      var e := pending[0];
      BodyParts(pending, nibbles, last);
      var header := HeaderBytes(e.fmtId, e.timestamp, last);
      HeaderStarts(e.fmtId, e.timestamp, last);
      LiesSplit(data, readPos, header, RestOf(pending, nibbles));
      LiesWhere(data, readPos, header);
      assert data[readPos] == data[readPos..readPos + |header|][0];
      AtMessageParts(data, readPos + |header|, end, e.fmtId, e.timestamp, pending, nibbles);
    }
  }

  lemma {:induction false} NoBody(nibbles: seq<seq<byte>>, last: nat)
    requires AllNibbles([], nibbles)
    ensures Body([], nibbles, last) == []
  {
  }

  lemma {:induction false} AtHeaderParts(data: seq<byte>, readPos: nat, end: nat, last: nat, pending: seq<Entry>,
                                         nibbles: seq<seq<byte>>)
    ensures AtHeader(data, readPos, end, last, pending, nibbles) <==>
      && AllNibbles(pending, nibbles) && last < Pow256(8)
      && LiesAt(data, readPos, Body(pending, nibbles, last)) && end == readPos + |Body(pending, nibbles, last)|
  {
    hide AllNibbles, Body, LiesAt;
  }

  lemma {:induction false} AtMessageParts(data: seq<byte>, readPos: nat, end: nat, id: nat, timestamp: nat,
                                          pending: seq<Entry>, nibbles: seq<seq<byte>>)
    ensures AtMessage(data, readPos, end, id, timestamp, pending, nibbles) <==>
      && pending != [] && AllNibbles(pending, nibbles)
      && id == pending[0].fmtId && timestamp == pending[0].timestamp
      && LiesAt(data, readPos, RestOf(pending, nibbles)) && end == readPos + |RestOf(pending, nibbles)|
  {
    hide AllNibbles, RestOf, LiesAt;
  }

  lemma {:induction false} HeaderStarts(id: nat, timestamp: nat, last: nat)
    requires id < Pow256(4)
    ensures |HeaderBytes(id, timestamp, last)| > 0 && HeaderBytes(id, timestamp, last)[0] % 4 == LOG_MSGS_OR_DIC
  {
    HeaderFacts(id, timestamp, last);
    HeaderByteParts(PackUnsigned(id).tag, PackInteger(INT64, Delta(timestamp, last)).tag);
    hide PackUnsigned, PackInteger, Delta, HeaderByte;
  }

  lemma {:induction false} BodyParts(pending: seq<Entry>, nibbles: seq<seq<byte>>, last: nat)
    requires AllNibbles(pending, nibbles) && pending != []
    ensures pending[0].Valid() && pending[0].fmtId < Pow256(4) && pending[0].timestamp < Pow256(8)
    ensures Body(pending, nibbles, last)
            == HeaderBytes(pending[0].fmtId, pending[0].timestamp, last) + RestOf(pending, nibbles)
  {
    hide HeaderBytes, Compressed, NibblesOf;
  }

  /** Where the arguments of a message end, the next header comes. */
  lemma {:induction false} ArgumentsCome(data: seq<byte>, readPos: nat, end: nat, id: nat, timestamp: nat,
                                         pending: seq<Entry>, nibbles: seq<seq<byte>>)
    requires AtMessage(data, readPos, end, id, timestamp, pending, nibbles)
    ensures pending != [] && |nibbles| == |pending| && id == pending[0].fmtId && timestamp == pending[0].timestamp
    ensures pending[0].Valid() && AllValid(pending[0].args) && NibblesOf(pending[0].args, nibbles[0])
    ensures LiesAt(data, readPos, Compressed(pending[0].args, nibbles[0]))
    ensures AtHeader(data, readPos + |Compressed(pending[0].args, nibbles[0])|, end, timestamp, pending[1..], nibbles[1..])
  {
    hide Compressed, Body, NibblesOf, Stored, Storable, AllValid, Pow256;
    LiesSplit(data, readPos, Compressed(pending[0].args, nibbles[0]), Body(pending[1..], nibbles[1..], pending[0].timestamp));
  }

  // ---- The fragment ----

  /** fread, of bytes that the file has. */
  method Read(storage: array<byte>, at: nat, file: seq<byte>, pos: nat, n: nat)
    requires at + n <= storage.Length && pos + n <= |file|
    modifies storage
    ensures storage[..at + n] == old(storage[..at]) + file[pos..pos + n]
  {
    Copy(storage, at, file[pos..pos + n]);
  }

  lemma {:induction false} TwoReads(file: seq<byte>, pos: nat, m: nat, n: nat)
    requires pos + m + n <= |file|
    ensures file[pos..pos + m] + file[pos + m..pos + m + n] == file[pos..pos + m + n]
  {
  }

  lemma {:induction false} StorageHolds(data: seq<byte>, file: seq<byte>, pos: nat, n: nat, i: nat, j: nat)
    requires n <= |data| && pos + n <= |file| && data[..n] == file[pos..pos + n] && i <= j <= n
    ensures data[i..j] == file[pos + i..pos + j]
    ensures i < n ==> data[i] == file[pos + i]
  {
    forall k | 0 <= k < n ensures data[k] == file[pos + k] { assert data[k] == data[..n][k] == file[pos..pos + n][k]; }
  }

  /** What lies in the piece of the file that the storage holds lies in the storage. */
  lemma {:induction false} LiesInStorage(data: seq<byte>, file: seq<byte>, pos: nat, n: nat, i: nat, bytes: seq<byte>)
    requires n <= |data| && pos + n <= |file| && data[..n] == file[pos..pos + n] && i + |bytes| <= n
    requires LiesAt(file, pos + i, bytes)
    ensures LiesAt(data, i, bytes)
  {
    StorageHolds(data, file, pos, n, i, i + |bytes|);
  }

  class BufferFragment {
    const storage: array<byte>
    var validBytes: nat
    var runtimeId: Option<nat>
    var readPos: nat
    var endOfBuffer: nat
    var hasMoreLogs: bool
    var nextLogId: nat
    var nextLogTimestamp: nat
    // The messages that have not been decompressed yet.
    ghost var pending: seq<Entry>
    ghost var nibbles: seq<seq<byte>>

    ghost predicate Valid()
      reads this, storage
    {
      if hasMoreLogs then AtMessage(storage[..], readPos, endOfBuffer, nextLogId, nextLogTimestamp, pending, nibbles)
      else pending == []
    }

    constructor (stagingBufferSize: nat)
      ensures Valid() && !hasMoreLogs && fresh(storage) && storage.Length == stagingBufferSize + EXTENT_HEADER + 4
    {
      storage := new byte[stagingBufferSize + EXTENT_HEADER + 4](_ => 0);
      validBytes, runtimeId, readPos, endOfBuffer := 0, None, 0, 0;
      hasMoreLogs, nextLogId, nextLogTimestamp := false, 0, 0;
      pending, nibbles := [], [];
    }

    method Reset()
      modifies this
      ensures Valid() && !hasMoreLogs && pending == [] && nextLogTimestamp == old(nextLogTimestamp)
    {
      validBytes, runtimeId, readPos, endOfBuffer, hasMoreLogs := 0, None, 0, 0, false;
      pending, nibbles := [], [];
    }

    predicate HasNext()
      reads this
    {
      hasMoreLogs
    }

    /** Reads the header of the next message, if there is one. */
    method ReadHeader(last: nat, ghost entries: seq<Entry>, ghost ns: seq<seq<byte>>)
      requires AtHeader(storage[..], readPos, endOfBuffer, last, entries, ns)
      modifies this
      ensures Valid() && pending == entries && hasMoreLogs == (entries != [])
      ensures runtimeId == old(runtimeId) && validBytes == old(validBytes) && endOfBuffer == old(endOfBuffer)
      ensures entries == [] ==> nextLogTimestamp == old(nextLogTimestamp) && nextLogId == old(nextLogId)
    {
      hide AtHeader, AtMessage, HeaderBytes, Pow256;
      HeaderComes(storage[..], readPos, endOfBuffer, last, entries, ns);
      pending, nibbles := entries, ns;
      if readPos >= endOfBuffer {
        hasMoreLogs := false;
      } else {
        var ok, end, id, timestamp :=
          DecompressLogHeader(storage[..], readPos, last, entries[0].fmtId, entries[0].timestamp);
        hasMoreLogs, readPos, nextLogId, nextLogTimestamp := ok, end, id, timestamp;
      }
    }

    /** Reads header and contents of an extent into the storage, unless it is larger than that. */
    method LoadExtent(file: seq<byte>, pos: nat, ghost wrap: bool, ghost id: nat, ghost body: seq<byte>)
      returns (ok: bool, end: nat)
      requires id < Pow256(4) && EXTENT_HEADER + |IdBytes(id)| + |body| < Pow256(4) && EXTENT_HEADER <= storage.Length
      requires LiesAt(file, pos, ExtentStart(wrap, id, EXTENT_HEADER + |IdBytes(id)| + |body|) + body)
      modifies this`validBytes, storage
      ensures var length := EXTENT_HEADER + |IdBytes(id)| + |body|;
              && (ok <==> length <= storage.Length)
              && (ok ==> end == pos + length <= |file| && validBytes == length && storage[..length] == file[pos..end])
              && (!ok ==> end == pos + EXTENT_HEADER)
    {
      hide *;
      ghost var length := EXTENT_HEADER + |IdBytes(id)| + |body|;
      ExtentThere(file, pos, wrap, id, length, body);
      Read(storage, 0, file, pos, EXTENT_HEADER);
      validBytes := EXTENT_HEADER;
      end := pos + EXTENT_HEADER;
      assert storage[..EXTENT_HEADER] == file[pos..pos + EXTENT_HEADER];
      StorageHolds(storage[..], file, pos, EXTENT_HEADER, 0, 0);
      StorageHolds(storage[..], file, pos, EXTENT_HEADER, 1, 5);
      var b: byte, be := storage[0], Value(storage[1..5]);
      assert storage[1..5] == storage[..][1..5];
      if b % 4 != BUFFER_EXTENT || be > storage.Length { return false, end; }
      var remaining := be - validBytes;
      Read(storage, EXTENT_HEADER, file, end, remaining);
      validBytes := validBytes + remaining;
      TwoReads(file, pos, EXTENT_HEADER, remaining);
      ok, end := true, end + remaining;
    }

    /** Reads a whole extent into the storage. It fails exactly when the extent is larger than that;
        an extent without messages leaves the time of an earlier message in place. */
    method ReadBufferExtent(file: seq<byte>, pos: nat, ghost wrap: bool, ghost id: nat, ghost entries: seq<Entry>,
                            ghost ns: seq<seq<byte>>)
      returns (ok: bool, end: nat, wrapAround: bool)
      requires id < Pow256(4) && AllNibbles(entries, ns) && |Extent(wrap, id, entries, ns)| < Pow256(4)
      requires LiesAt(file, pos, Extent(wrap, id, entries, ns)) && EXTENT_HEADER <= storage.Length
      modifies this, storage
      ensures Valid() && (ok <==> |Extent(wrap, id, entries, ns)| <= storage.Length)
      ensures ok ==> end == pos + |Extent(wrap, id, entries, ns)| && wrapAround == wrap
      ensures ok ==> runtimeId == Some(id) && pending == entries && hasMoreLogs == (entries != [])
      ensures ok && entries == [] ==> nextLogTimestamp == old(nextLogTimestamp)
      ensures !ok ==> end == pos + EXTENT_HEADER && pending == [] && !hasMoreLogs
    {
      hide *;
      ghost var body := Body(entries, ns, 0);
      ghost var length := EXTENT_HEADER + |IdBytes(id)| + |body|;
      ExtentSize(wrap, id, entries, ns);
      ok, end := LoadExtent(file, pos, wrap, id, body);
      wrapAround := false;
      if !ok {
        Reset();
        return;
      }
      ExtentThere(file, pos, wrap, id, length, body);
      StorageHolds(storage[..], file, pos, length, 0, 0);
      var b: byte := storage[0];
      readPos, endOfBuffer := EXTENT_HEADER, validBytes;
      if b / 8 % 2 == 1 {
        runtimeId := Some(b / 16);
        NoIdBytes(id);
      } else {
        var n := b / 16;
        LiesInStorage(storage[..], file, pos, length, EXTENT_HEADER, IdBytes(id));
        LiesWhere(storage[..], EXTENT_HEADER, IdBytes(id));
        assert storage[readPos..readPos + n] == IdBytes(id);
        runtimeId := Some(UINT32.Cast(Unpacked(n, storage[readPos..readPos + n])));
        readPos := readPos + n;
      }
      wrapAround := b / 4 % 2 == 1;
      LiesInStorage(storage[..], file, pos, length, readPos, body);
      AtFirstHeader(storage[..], readPos, endOfBuffer, entries, ns);
      ReadHeader(0, entries, ns);
    }

    /** Decompresses the next message, if there is one, and reads the header of the one after. */
    method DecompressNextLogStatement(metadata: seq<Metadata>) returns (ok: bool, message: Option<Message>)
      requires Valid() && (hasMoreLogs ==> runtimeId.Some? && Readable(metadata, pending[0]))
      modifies this
      ensures Valid() && ok == old(hasMoreLogs) && runtimeId == old(runtimeId)
      ensures !ok ==> pending == [] && message == None && nextLogTimestamp == old(nextLogTimestamp)
      ensures ok ==> message == Some(MessageOf(runtimeId.value, metadata, old(pending[0]))) && pending == old(pending[1..])
    {
      hide AtMessage, AtHeader, MatchFrom, AllExpected, Tags, Compressed, NibblesOf;
      if !hasMoreLogs { return false, None; }
      ArgumentsCome(storage[..], readPos, endOfBuffer, nextLogId, nextLogTimestamp, pending, nibbles);
      ghost var e := pending[0];
      var m := metadata[nextLogId];
      var values: seq<Decoded>;
      assert AllNeeds(m.fragments) + [] == AllNeeds(m.fragments);
      values, readPos := DecodeArguments(storage[..], readPos, m.numNibbles, m.fragments, [], e.args, nibbles[0]);
      message := Some(Message(runtimeId.value, nextLogId, nextLogTimestamp, values));
      ReadHeader(nextLogTimestamp, pending[1..], nibbles[1..]);
      ok := true;
    }
  }

  lemma {:induction false} ExtentSize(wrapAround: bool, id: nat, entries: seq<Entry>, nibbles: seq<seq<byte>>)
    requires id < Pow256(4) && AllNibbles(entries, nibbles)
    ensures var body := Body(entries, nibbles, 0); var length := EXTENT_HEADER + |IdBytes(id)| + |body|;
            && Extent(wrapAround, id, entries, nibbles) == ExtentStart(wrapAround, id, length) + body
            && |Extent(wrapAround, id, entries, nibbles)| == length
  {
    hide Body, IdBytes, ExtentByte;
  }

  lemma {:induction false} NoIdBytes(id: nat)
    requires id < 16
    ensures id < Pow256(4) && IdBytes(id) == []
  {
  }

  lemma {:induction false} AtFirstHeader(data: seq<byte>, readPos: nat, end: nat, entries: seq<Entry>, ns: seq<seq<byte>>)
    requires AllNibbles(entries, ns) && LiesAt(data, readPos, Body(entries, ns, 0)) && end == readPos + |Body(entries, ns, 0)|
    ensures AtHeader(data, readPos, end, 0, entries, ns)
  {
  }
}
