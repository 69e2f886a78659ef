/** From log statements to messages read back: the encoder and the decoder put together. */
module CodecTheorems {
  import opened Wrappers
  import opened Bytes
  import opened Packing
  import opened Packer
  import opened Arguments
  import opened ArgumentStore
  import opened ArgumentCompress
  import opened ArgumentDecode
  import opened Formats
  import opened Dictionaries
  import opened Entries
  import opened Encoders
  import opened ExtentReader
  import opened Decoders

  /** Arguments stored, compressed and decoded again: every value that the fragments ask for, strings
      cut to their precisions, in order.  It fails only for a string too long to store.  `later` is
      what the arguments were stored for that the fragments do not ask for. */
  method ArgumentRoundTrip(args: seq<Argument>, params: seq<Parameter>, numNibbles: nat, fragments: seq<Fragment>,
                           ghost later: seq<FormatType>)
    returns (ok: bool, values: seq<Decoded>)
    requires AllValid(args)
    requires var cut := Truncated(args, NO_PRECISION);
             && Describes(params, cut) && numNibbles == |Tags(cut)| && MatchFrom(AllNeeds(fragments) + later, cut)
    ensures var cut, needs := Truncated(args, NO_PRECISION), AllNeeds(fragments) + later;
            && (ok <==> Storable(cut)) && MatchFrom(needs, cut)
            && (ok ==> AllMatch(needs, cut) && values == AllExpected(needs, cut)[..|AllNeeds(fragments)|])
            && (ok && later == [] ==> AllMatch(AllNeeds(fragments), cut) && values == AllExpected(AllNeeds(fragments), cut))
  {
    hide *;
    ghost var cut := Truncated(args, NO_PRECISION);
    assert args[0..] == args;
    MatchIsValid(AllNeeds(fragments) + later, cut);
    values := [];
    var sizes := new nat[|args|](_ => 0);
    var size := GetArgSizes(args, 0, NO_PRECISION, sizes);
    assert sizes[..][0..] == sizes[0..];
    var memory := new byte[size](_ => 0);
    ghost var clean := memory[..];
    var end: nat;
    ok, end := StoreArguments(args, 0, NO_PRECISION, sizes[..], memory, 0);
    if !ok { return; }
    AppendedLies(clean, memory[..], Stored(cut), size);
    var output := new byte[NibbleBytes(numNibbles) + size + 3](_ => 0);
    ghost var before := output[..];
    ghost var nibbles: seq<byte>;
    var inEnd: nat;
    inEnd, end, nibbles := Compress(output, numNibbles, params, memory[..], 0, 0, cut);
    AppendedLies(before, output[..], Compressed(cut, nibbles), NibbleBytes(numNibbles) + size + 3);
    values, end := DecodeArguments(output[..], 0, numNibbles, fragments, later, cut, nibbles);
    assert later == [] ==> AllNeeds(fragments) + later == AllNeeds(fragments);
  }

  lemma {:induction false} AppendedLies(before: seq<byte>, after: seq<byte>, data: seq<byte>, reach: nat)
    requires Appended(before, after, 0, data, reach)
    ensures LiesAt(after, 0, data)
  {
  }

  predicate AllSmaller(entries: seq<Entry>, half: nat)
    requires AllEntries(entries)
  {
    forall i :: 0 <= i < |entries| ==> entries[i].Size() < half
  }

  /** When every entry is smaller than half a staging buffer, no more than the bytes asked for are
      consumed: the entry that they cut in two is left for the next call. */
  lemma {:induction false} ConsumedWithinBytes(entries: seq<Entry>, nibbles: seq<seq<byte>>, done: nat, nbytes: nat,
                                               room: nat, known: nat, half: nat)
    requires AllEntries(entries) && AllSmaller(entries, half)
    requires StopsFirstAt(entries, nibbles, done, nbytes, room, known, half)
    ensures AllEntries(entries[..done]) && |Uncompressed(entries[..done])| <= nbytes
  {
    hide Uncompressed, Body, AllNibbles;
    if done == 0 {
      NothingConsumed(entries);
    } else {
      EntryAt(entries, done - 1);
      assert !StopsAt(entries, nibbles, done - 1, nbytes, room, known, half);
    }
  }

  lemma {:induction false} NothingConsumed(entries: seq<Entry>)
    ensures AllEntries(entries[..0]) && |Uncompressed(entries[..0])| == 0
  {
  }

  /** An extent encoded from a chunk of at most half a staging buffer, of entries smaller than that,
      fits the storage of the decoder. */
  lemma {:induction false} ChunkIsReadable(entries: seq<Entry>, nibbles: seq<seq<byte>>, done: nat, nbytes: nat,
                                           room: nat, known: nat, capacity: nat, wrap: bool, id: nat)
    requires AllEntries(entries) && AllSmaller(entries, capacity / 2) && nbytes <= capacity / 2 && id < Pow256(4)
    requires StopsFirstAt(entries, nibbles, done, nbytes, room, known, capacity / 2)
    ensures AllNibbles(entries[..done], nibbles)
    ensures |Extent(wrap, id, entries[..done], nibbles)| <= capacity + EXTENT_HEADER + 4
  {
    ConsumedWithinBytes(entries, nibbles, done, nbytes, room, known, capacity / 2);
    hide Uncompressed, StopsAt, Extent;
    ExtentFits(wrap, id, entries[..done], nibbles, capacity);
  }

  /** Reads all messages of an extent that lies in a file. */
  method ReadAll(bf: BufferFragment, file: seq<byte>, pos: nat, metadata: seq<Metadata>, ghost wrap: bool, ghost id: nat,
                 ghost entries: seq<Entry>, ghost nibbles: seq<seq<byte>>)
    returns (wrapAround: bool, threadId: Option<nat>, messages: seq<Message>)
    requires id < Pow256(4) && AllNibbles(entries, nibbles) && AllReadable(metadata, entries)
    requires |Extent(wrap, id, entries, nibbles)| <= bf.storage.Length < Pow256(4) && EXTENT_HEADER <= bf.storage.Length
    requires LiesAt(file, pos, Extent(wrap, id, entries, nibbles))
    modifies bf, bf.storage
    ensures wrapAround == wrap && threadId == Some(id) && messages == MessagesOf(id, metadata, entries)
  {
    hide AllNibbles, Extent, MessagesOf, Readable, MessageOf, PendingMessages, AllReadable, AtMessage, LiesAt, Pow256;
    var ok: bool, end: nat;
    ok, end, wrapAround := bf.ReadBufferExtent(file, pos, wrap, id, entries, nibbles);
    threadId, messages := bf.runtimeId, [];
    AllPending(id, metadata, entries);
    PendingFirst(bf);
    while bf.HasNext()
      invariant bf.Valid() && bf.runtimeId == Some(id) && AllReadable(metadata, bf.pending)
      invariant messages + PendingMessages(Some(id), metadata, bf.pending) == MessagesOf(id, metadata, entries)
      decreases |bf.pending|
    {
      PendingFirst(bf);
      PendingPeel(id, metadata, bf.pending);
      var _, message := bf.DecompressNextLogStatement(metadata);
      messages := messages + [message.value];
    }
    PendingFirst(bf);
    NothingPending(Some(id), metadata);
  }

  lemma {:induction false} AllPending(id: nat, metadata: seq<Metadata>, entries: seq<Entry>)
    requires AllReadable(metadata, entries)
    ensures PendingMessages(Some(id), metadata, entries) == MessagesOf(id, metadata, entries)
  {
  }

  /** Encoding a chunk of whole entries and reading the extent back: the same thread, the same pass
      mark, and exactly the messages that the encoder says it has consumed, in their order: all up to
      the first that the encoder has a reason to stop at. */
  method EncodeAndReadBack(encoder: Encoder, from: seq<byte>, nbytes: nat, bufferId: nat, newPass: bool,
                           dictionary: seq<Site>, metadata: seq<Metadata>, stagingBufferSize: nat, ghost entries: seq<Entry>)
    returns (consumed: int, numEvents: nat, wrapAround: bool, threadId: Option<nat>, messages: seq<Message>,
             ghost nibbles: seq<seq<byte>>)
    requires encoder.Valid() && bufferId < Pow256(4) && EXTENT_HEADER + 4 <= encoder.backingBuffer.Length - encoder.writePos
    requires AllEntries(entries) && Described(dictionary, entries) && from == Uncompressed(entries)
    requires AllSmaller(entries, stagingBufferSize / 2) && nbytes <= stagingBufferSize / 2 && nbytes <= |from|
    requires AllReadable(metadata, entries) && stagingBufferSize + EXTENT_HEADER + 4 < Pow256(4)
    modifies encoder, encoder.backingBuffer
    ensures encoder.backingBuffer == old(encoder.backingBuffer)
    ensures StopsFirstAt(entries, nibbles, numEvents, nbytes,
                         encoder.backingBuffer.Length - old(encoder.writePos) - EXTENT_HEADER - |IdBytes(bufferId)|,
                         |dictionary|, stagingBufferSize / 2)
    ensures numEvents <= |entries| && AllEntries(entries[..numEvents])
    ensures 0 <= consumed == |Uncompressed(entries[..numEvents])| <= nbytes
    ensures wrapAround == newPass && threadId == Some(bufferId)
    ensures AllReadable(metadata, entries[..numEvents]) && messages == MessagesOf(bufferId, metadata, entries[..numEvents])
  {
    hide *;
    var start := encoder.writePos;
    EncoderRoom(encoder);
    consumed, numEvents, nibbles := encoder.EncodeLogMsgs(from, nbytes, bufferId, newPass, dictionary, stagingBufferSize / 2, entries);
    EncoderRoom(encoder);
    ghost var room := encoder.backingBuffer.Length - start - EXTENT_HEADER - |IdBytes(bufferId)|;
    ConsumedWithinBytes(entries, nibbles, numEvents, nbytes, room, |dictionary|, stagingBufferSize / 2);
    ChunkIsReadable(entries, nibbles, numEvents, nbytes, room, |dictionary|, stagingBufferSize, newPass, bufferId);
    SomeReadable(metadata, entries, numEvents);
    var file := encoder.backingBuffer[..encoder.writePos];
    LiesBehind(file, start, Extent(newPass, bufferId, entries[..numEvents], nibbles));
    var bf := new BufferFragment(stagingBufferSize);
    wrapAround, threadId, messages := ReadAll(bf, file, start, metadata, newPass, bufferId, entries[..numEvents], nibbles);
  }

  lemma {:induction false} EncoderRoom(encoder: Encoder)
    ensures encoder.Valid() ==> encoder.writePos <= encoder.backingBuffer.Length
    ensures EXTENT_HEADER == 5
  {
  }

  lemma {:induction false} SomeReadable(metadata: seq<Metadata>, entries: seq<Entry>, n: nat)
    requires AllReadable(metadata, entries) && n <= |entries|
    ensures AllReadable(metadata, entries[..n])
  {
    hide Readable;
  }

  lemma {:induction false} LiesBehind(file: seq<byte>, pos: nat, data: seq<byte>)
    requires pos <= |file| && file[pos..] == data
    ensures LiesAt(file, pos, data)
  {
  }

  /** Both ways of reading a file in file order give the same messages: the iterative one, called until
      it has no more, and the one that goes through the whole file. */
  method BothPathsAgree(file: seq<byte>, start: nat, stagingBufferSize: nat, ghost blocks: seq<Block>)
    returns (atOnce: seq<Message>, oneByOne: seq<Message>)
    requires stagingBufferSize + EXTENT_HEADER + 4 < Pow256(4)
    requires AtBlocks(file, start, blocks, [], stagingBufferSize + EXTENT_HEADER + 4)
    ensures WellFormed(blocks, [], stagingBufferSize + EXTENT_HEADER + 4)
    ensures atOnce == oneByOne == FileMessages(blocks, [], stagingBufferSize + EXTENT_HEADER + 4)
  {
    hide *;
    NextBlock(file, start, blocks, [], stagingBufferSize + EXTENT_HEADER + 4);
    var first := new Decoder(file, start, stagingBufferSize, blocks);
    CapacityIs(first);
    atOnce := first.InternalDecompressUnordered();
    var second := new Decoder(file, start, stagingBufferSize, blocks);
    CapacityIs(second);
    oneByOne := DecompressOneByOne(second);
  }

  lemma {:induction false} CapacityIs(decoder: Decoder)
    ensures decoder.Capacity() == decoder.stagingBufferSize + EXTENT_HEADER + 4
  {
  }

  /** The use that getNextLogStatement is meant for: call it until it has no more. */
  method DecompressOneByOne(decoder: Decoder) returns (messages: seq<Message>)
    requires decoder.Valid(decoder.bufferFragment)
    modifies decoder, decoder.bufferFragment, decoder.bufferFragment.storage
    ensures messages == old(decoder.Ahead(decoder.bufferFragment))
  {
    hide *;
    ghost var all := decoder.Ahead(decoder.bufferFragment);
    messages := [];
    ghost var ahead := all;
    var ok, message := decoder.GetNextLogStatement();
    while ok
      invariant decoder.Valid(decoder.bufferFragment)
      invariant ok ==> ahead != [] && message == Some(ahead[0]) && decoder.Ahead(decoder.bufferFragment) == ahead[1..]
      invariant messages + ahead == all && (!ok ==> ahead == [])
      decreases |ahead|
    {
      messages := messages + [message.value];
      ahead := ahead[1..];
      ok, message := decoder.GetNextLogStatement();
    }
  }

  /** What a buffer of `size` bytes takes of the statements from `from` on: nothing when it has no room
      for a header, and otherwise those up to the first that does not fit. */
  predicate Takes(infos: seq<LogInfo>, from: nat, to: nat, size: nat) {
    if size <= FRAGMENT_HEADER then to == from else FitsUpTo(infos, from, to, size - FRAGMENT_HEADER)
  }

  /** A buffer of `size` bytes can take any of the statements. */
  predicate HasRoom(infos: seq<LogInfo>, size: nat)
    requires AllInfos(infos)
  {
    forall j :: 0 <= j < |infos| ==> size > FRAGMENT_HEADER + |InfoBytes(infos[j])|
  }

  /** Static information written over any number of buffers and read back fragment by fragment: the
      same statements at the same indices.  Buffer i takes those from `stops[i]` up to `stops[i + 1]`,
      and as many buffers as there are statements, each with room for any of them, take all. */
  method DictionaryRoundTrip(infos: seq<LogInfo>, sizes: seq<nat>)
    returns (read: seq<LogInfo>, position: nat, ghost stops: seq<nat>)
    requires AllInfos(infos) && |infos| < Pow256(4) && forall i :: 0 <= i < |sizes| ==> sizes[i] < 0x4000_0000
    ensures position <= |infos| && read == infos[..position]
    ensures |stops| == |sizes| + 1 && stops[0] == 0 && stops[|sizes|] == position
    ensures forall i :: 0 <= i < |sizes| ==> Takes(infos, stops[i], stops[i + 1], sizes[i])
    ensures |sizes| >= |infos| && (forall i :: 0 <= i < |sizes| ==> HasRoom(infos, sizes[i])) ==> position == |infos|
  {
    hide FragmentBytes, AllInfoBytes, InfoBytes, LiesAt, AllInfos, Pow256, HasRoom;
    read, position, stops := [], 0, [0];
    for i := 0 to |sizes|
      invariant position <= |infos| && read == infos[..position]
      invariant |stops| == i + 1 && stops[0] == 0 && stops[i] == position
      invariant forall k :: 0 <= k < i ==> Takes(infos, stops[k], stops[k + 1], sizes[k])
    {
      var buffer := new byte[sizes[i]](_ => 0);
      ghost var from := position;
      var bytes: nat, end: nat;
      bytes, end, position := EncodeNewDictionaryEntries(buffer, 0, position, infos);
      if bytes > 0 {
        InfosBetween(infos, from, position);
        assert buffer[..0] == [] && buffer[..end] == [] + FragmentBytes(infos[from..position], position);
        LiesBehind(buffer[..end], 0, FragmentBytes(infos[from..position], position));
        var more, _ := ReadDictionaryFragment(buffer[..end], 0, infos[from..position], position);
        read := read + more;
        assert infos[..position] == infos[..from] + infos[from..position];
      }
      stops := stops + [position];
    }
    AllTaken(infos, sizes, stops);
  }

  /** A buffer with room for any statement takes at least one, if one is left. */
  lemma {:induction false} TakesOne(infos: seq<LogInfo>, from: nat, to: nat, size: nat)
    requires AllInfos(infos) && Takes(infos, from, to, size) && from <= |infos|
    requires HasRoom(infos, size)
    ensures from == |infos| || from < to
  {
    hide InfoBytes;
    if from < |infos| {
      assert size > FRAGMENT_HEADER + |InfoBytes(infos[from])|;
      InfosBetween(infos, from, from);
    }
  }

  lemma {:induction false} AllTaken(infos: seq<LogInfo>, sizes: seq<nat>, stops: seq<nat>)
    requires AllInfos(infos) && |stops| == |sizes| + 1 && stops[0] == 0
    requires forall i :: 0 <= i < |sizes| ==> Takes(infos, stops[i], stops[i + 1], sizes[i])
    ensures |sizes| >= |infos| && (forall i :: 0 <= i < |sizes| ==> HasRoom(infos, sizes[i])) ==> stops[|sizes|] == |infos|
  {
    hide Takes, HasRoom, AllInfos;
    if |sizes| >= |infos| && forall i :: 0 <= i < |sizes| ==> HasRoom(infos, sizes[i]) {
      for i := 0 to |sizes|
        invariant stops[i] == |infos| || i <= stops[i] < |infos|
      {
        assert Takes(infos, stops[i], stops[i + 1], sizes[i]);
        TakesOne(infos, stops[i], stops[i + 1], sizes[i]);
        TakesInRange(infos, stops[i], stops[i + 1], sizes[i]);
      }
    }
  }

  lemma {:induction false} TakesInRange(infos: seq<LogInfo>, from: nat, to: nat, size: nat)
    requires Takes(infos, from, to, size) && from <= |infos|
    ensures from <= to <= |infos|
  {
  }
}
