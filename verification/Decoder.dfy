/** The decoder on a whole log file: the two ways of going through it in file order. */
module Decoders {
  import opened Wrappers
  import opened Bytes
  import opened Packing
  import opened Packer
  import opened ArgumentCompress
  import opened Formats
  import opened MicroCode
  import opened LogHeader
  import opened Entries
  import opened Dictionaries
  import opened ExtentReader

  // ---- The file ----

  /** What a log file consists of behind its checkpoint. */
  datatype Block =
    | ExtentBlock(wrap: bool, id: nat, entries: seq<Entry>, nibbles: seq<seq<byte>>)
    | DictionaryBlock(infos: seq<LogInfo>, total: nat)
    | PaddingBlock(size: nat)

  /** The metadata built from a format string, with its counters of eight bits. */
  function MetadataOf(format: string): Option<Metadata> {
    match FragmentsOf(format)
    case None => None
    case Some(fragments) => Some(Metadata(AllNibblesOf(fragments) % 256, fragments[..|fragments| % 256]))
  }

  predicate Understood(infos: seq<LogInfo>) {
    forall i :: 0 <= i < |infos| ==> MetadataOf(infos[i].formatString).Some?
  }

  function AllMetadata(infos: seq<LogInfo>): (r: seq<Metadata>)
    requires Understood(infos)
    ensures |r| == |infos|
  {
    seq(|infos|, i requires 0 <= i < |infos| => MetadataOf(infos[i].formatString).value)
  }

  /** A block as the encoder writes it, that the decoder has the room and the metadata for. */
  predicate GoodBlock(b: Block, metadata: seq<Metadata>, capacity: nat) {
    match b
    case ExtentBlock(wrap, id, entries, nibbles) =>
      && id < Pow256(4) && AllNibbles(entries, nibbles) && AllReadable(metadata, entries)
      && |Extent(wrap, id, entries, nibbles)| <= capacity
    case DictionaryBlock(infos, total) =>
      AllInfos(infos) && |FragmentBytes(infos, total)| < 0x4000_0000 && Understood(infos)
    case PaddingBlock(size) => size >= 1
  }

  function BlockBytes(b: Block, metadata: seq<Metadata>, capacity: nat): seq<byte>
    requires GoodBlock(b, metadata, capacity)
  {
    match b
    case ExtentBlock(wrap, id, entries, nibbles) => Extent(wrap, id, entries, nibbles)
    case DictionaryBlock(infos, total) => FragmentBytes(infos, total)
    case PaddingBlock(size) => seq(size, _ => 0)
  }

  function MetadataAfter(b: Block, metadata: seq<Metadata>, capacity: nat): seq<Metadata>
    requires GoodBlock(b, metadata, capacity)
  {
    if b.DictionaryBlock? then metadata + AllMetadata(b.infos) else metadata
  }

  /** Every message is behind the dictionary fragment that it needs; padding is one block. */
  predicate WellFormed(blocks: seq<Block>, metadata: seq<Metadata>, capacity: nat) {
    blocks != [] ==>
      && GoodBlock(blocks[0], metadata, capacity)
      && (blocks[0].PaddingBlock? && |blocks| > 1 ==> !blocks[1].PaddingBlock?)
      && WellFormed(blocks[1..], MetadataAfter(blocks[0], metadata, capacity), capacity)
  }

  function FileBytes(blocks: seq<Block>, metadata: seq<Metadata>, capacity: nat): seq<byte>
    requires WellFormed(blocks, metadata, capacity)
  {
    if blocks == [] then []
    else
      BlockBytes(blocks[0], metadata, capacity) +
      FileBytes(blocks[1..], MetadataAfter(blocks[0], metadata, capacity), capacity)
  }

  function BlockMessages(b: Block, metadata: seq<Metadata>, capacity: nat): seq<Message>
    requires GoodBlock(b, metadata, capacity)
  {
    if b.ExtentBlock? then MessagesOf(b.id, metadata, b.entries) else []
  }

  /** The messages of the file in file order, each with its thread, time and argument values. */
  function FileMessages(blocks: seq<Block>, metadata: seq<Metadata>, capacity: nat): seq<Message>
    requires WellFormed(blocks, metadata, capacity)
  {
    if blocks == [] then []
    else
      BlockMessages(blocks[0], metadata, capacity) +
      FileMessages(blocks[1..], MetadataAfter(blocks[0], metadata, capacity), capacity)
  }

  // ---- Facts about the block that comes next ----

  datatype EntryType = INVALID | LOG_MSGS_OR_DICTIONARY | EXTENT | CHECKPOINT

  function TypeOf(b: byte): EntryType {
    match b % 4
    case 0 => INVALID
    case 1 => LOG_MSGS_OR_DICTIONARY
    case 2 => EXTENT
    case _ => CHECKPOINT
  }

  function TypeOfBlock(b: Block): EntryType {
    match b
    case ExtentBlock(_, _, _, _) => EXTENT
    case DictionaryBlock(_, _) => LOG_MSGS_OR_DICTIONARY
    case PaddingBlock(_) => INVALID
  }

  /** The first byte of a block tells what it is. */
  lemma {:induction false} BlockStarts(b: Block, metadata: seq<Metadata>, capacity: nat)
    requires GoodBlock(b, metadata, capacity)
    ensures |BlockBytes(b, metadata, capacity)| > 0
    ensures TypeOf(BlockBytes(b, metadata, capacity)[0]) == TypeOfBlock(b)
  {
    match b
    case ExtentBlock(wrap, id, entries, nibbles) =>
      ExtentFirst(wrap, id, entries, nibbles);
      hide *;
    case DictionaryBlock(infos, total) =>
      FragmentFirst(infos, total);
      hide *;
    case PaddingBlock(size) =>
  }

  lemma {:induction false} ExtentFirst(wrap: bool, id: nat, entries: seq<Entry>, nibbles: seq<seq<byte>>)
    requires id < Pow256(4) && AllNibbles(entries, nibbles)
    ensures |Extent(wrap, id, entries, nibbles)| > 0 && TypeOf(Extent(wrap, id, entries, nibbles)[0]) == EXTENT
  {
    ExtentByteParts(wrap, id);
    hide Body, IdBytes, ExtentByte, AllNibbles, Little;
  }

  lemma {:induction false} FragmentFirst(infos: seq<LogInfo>, total: nat)
    requires AllInfos(infos) && |FragmentBytes(infos, total)| < 0x4000_0000
    ensures |FragmentBytes(infos, total)| > 0
    ensures TypeOf(FragmentBytes(infos, total)[0]) == LOG_MSGS_OR_DICTIONARY
  {
    var size := |FragmentBytes(infos, total)|;
    assert Little(LOG_MSGS_OR_DIC + 4 * size, 4)[0] == (LOG_MSGS_OR_DIC + 4 * size) % 256;
    hide AllInfoBytes;
  }

  /** The file from `pos` on consists of `blocks`. */
  predicate AtBlocks(file: seq<byte>, pos: nat, blocks: seq<Block>, metadata: seq<Metadata>, capacity: nat) {
    && WellFormed(blocks, metadata, capacity)
    && LiesAt(file, pos, FileBytes(blocks, metadata, capacity))
    && pos + |FileBytes(blocks, metadata, capacity)| == |file|
  }

  lemma {:induction false} NextBlock(file: seq<byte>, pos: nat, blocks: seq<Block>, metadata: seq<Metadata>, capacity: nat)
    requires AtBlocks(file, pos, blocks, metadata, capacity)
    ensures pos <= |file| && WellFormed(blocks, metadata, capacity)
    ensures blocks == [] ==> pos == |file| && FileMessages(blocks, metadata, capacity) == []
    ensures blocks != [] ==>
      var b := blocks[0];
      && GoodBlock(b, metadata, capacity)
      && pos < |file| && TypeOf(file[pos]) == TypeOfBlock(b)
      && var bytes, after := BlockBytes(b, metadata, capacity), MetadataAfter(b, metadata, capacity);
      && LiesAt(file, pos, bytes) && pos + |bytes| <= |file|
      && AtBlocks(file, pos + |bytes|, blocks[1..], after, capacity) && WellFormed(blocks[1..], after, capacity)
      && FileMessages(blocks, metadata, capacity)
         == BlockMessages(b, metadata, capacity) + FileMessages(blocks[1..], after, capacity)
      && (b.PaddingBlock? && |blocks| > 1 ==> !blocks[1].PaddingBlock?)
  {
    hide *;
    AtBlocksParts(file, pos, blocks, metadata, capacity);
    FileUnrolls(blocks, metadata, capacity);
    LiesWhere(file, pos, FileBytes(blocks, metadata, capacity));
    if blocks != [] {
      var after := MetadataAfter(blocks[0], metadata, capacity);
      BlockStarts(blocks[0], metadata, capacity);
      var bytes := BlockBytes(blocks[0], metadata, capacity);
      LiesSplit(file, pos, bytes, FileBytes(blocks[1..], after, capacity));
      LiesWhere(file, pos, bytes);
      assert file[pos] == file[pos..pos + |bytes|][0];
      AtBlocksParts(file, pos + |bytes|, blocks[1..], after, capacity);
    }
  }

  lemma {:induction false} AtBlocksParts(file: seq<byte>, pos: nat, blocks: seq<Block>, metadata: seq<Metadata>, capacity: nat)
    ensures AtBlocks(file, pos, blocks, metadata, capacity) <==>
      && WellFormed(blocks, metadata, capacity)
      && LiesAt(file, pos, FileBytes(blocks, metadata, capacity))
      && pos + |FileBytes(blocks, metadata, capacity)| == |file|
  {
    hide WellFormed, FileBytes, LiesAt;
  }

  lemma {:induction false} FileUnrolls(blocks: seq<Block>, metadata: seq<Metadata>, capacity: nat)
    requires WellFormed(blocks, metadata, capacity)
    ensures blocks == [] ==> |FileBytes(blocks, metadata, capacity)| == 0 && FileMessages(blocks, metadata, capacity) == []
    ensures blocks != [] ==>
      && GoodBlock(blocks[0], metadata, capacity)
      && (blocks[0].PaddingBlock? && |blocks| > 1 ==> !blocks[1].PaddingBlock?)
      && var after := MetadataAfter(blocks[0], metadata, capacity);
      && WellFormed(blocks[1..], after, capacity)
      && FileBytes(blocks, metadata, capacity)
         == BlockBytes(blocks[0], metadata, capacity) + FileBytes(blocks[1..], after, capacity)
      && FileMessages(blocks, metadata, capacity)
         == BlockMessages(blocks[0], metadata, capacity) + FileMessages(blocks[1..], after, capacity)
  {
    hide GoodBlock, MetadataAfter, BlockBytes, BlockMessages;
  }

  /** The messages of an extent that are still to come. */
  function PendingMessages(threadId: Option<nat>, metadata: seq<Metadata>, pending: seq<Entry>): seq<Message>
    requires AllReadable(metadata, pending)
  {
    if threadId.None? || pending == [] then [] else MessagesOf(threadId.value, metadata, pending)
  }

  lemma {:induction false} PendingPeel(threadId: nat, metadata: seq<Metadata>, pending: seq<Entry>)
    requires AllReadable(metadata, pending) && pending != []
    ensures Readable(metadata, pending[0]) && AllReadable(metadata, pending[1..])
    ensures PendingMessages(Some(threadId), metadata, pending)
            == [MessageOf(threadId, metadata, pending[0])] + PendingMessages(Some(threadId), metadata, pending[1..])
  {
    hide Readable, MessageOf;
    assert Readable(metadata, pending[0]);
    forall i | 0 <= i < |pending[1..]| ensures Readable(metadata, pending[1..][i]) {
      assert Readable(metadata, pending[i + 1]);
    }
  }

  lemma {:induction false} NothingPending(threadId: Option<nat>, metadata: seq<Metadata>)
    ensures AllReadable(metadata, []) && PendingMessages(threadId, metadata, []) == []
  {
  }

  // ---- The decoder ----

  class Decoder {
    const file: seq<byte>
    const stagingBufferSize: nat
    const bufferFragment: BufferFragment
    var filePos: nat
    // feof: a read has met the end of the file.
    var atEof: bool
    var good: bool
    var metadata: seq<Metadata>
    ghost var blocks: seq<Block>

    ghost function Capacity(): nat
    {
      stagingBufferSize + EXTENT_HEADER + 4
    }

    /** The file is well-formed from here on, and `bf` holds messages that can be printed, if any. */
    ghost predicate Valid(bf: BufferFragment)
      reads this, bf, bf.storage
    {
      && good && bf.Valid() && bf.storage.Length == Capacity() < Pow256(4)
      && AtBlocks(file, filePos, blocks, metadata, Capacity())
      && (atEof ==> blocks == [])
      && AllReadable(metadata, bf.pending) && (bf.hasMoreLogs ==> bf.runtimeId.Some?)
    }

    /** The messages that are still to come: those of the extent at hand and of the rest of the file. */
    ghost function Ahead(bf: BufferFragment): seq<Message>
      requires Valid(bf)
      reads this, bf, bf.storage
    {
      PendingMessages(bf.runtimeId, metadata, bf.pending) + FileMessages(blocks, metadata, Capacity())
    }

    /** A decoder that has read the checkpoint of a file and nothing else. */
    constructor (file: seq<byte>, start: nat, stagingBufferSize: nat, ghost blocks: seq<Block>)
      requires stagingBufferSize + EXTENT_HEADER + 4 < Pow256(4)
      requires AtBlocks(file, start, blocks, [], stagingBufferSize + EXTENT_HEADER + 4)
      ensures Valid(bufferFragment) && this.file == file && this.stagingBufferSize == stagingBufferSize
      ensures Ahead(bufferFragment) == FileMessages(blocks, [], Capacity())
      ensures bufferFragment.pending == [] && this.blocks == blocks && metadata == []
      ensures fresh(bufferFragment) && fresh(bufferFragment.storage)
    {
      this.file, filePos, atEof, good, metadata, this.blocks := file, start, false, true, [], blocks;
      this.stagingBufferSize := stagingBufferSize;
      bufferFragment := new BufferFragment(stagingBufferSize);
      new;
      hide AtBlocks, FileMessages;
    }

    /** Looks at the next byte; only a look at the end of the file finds out about it. */
    method PeekEntryType(ghost bf: BufferFragment) returns (t: EntryType)
      requires Valid(bf)
      modifies this`atEof
      ensures Valid(bf) && Ahead(bf) == old(Ahead(bf))
      ensures blocks == [] ==> t == INVALID && atEof
      ensures blocks != [] ==> t == TypeOfBlock(blocks[0]) && !atEof
    {
      hide AtBlocks, FileMessages, PendingMessages, AllReadable, TypeOf, TypeOfBlock;
      NextBlock(file, filePos, blocks, metadata, Capacity());
      if filePos == |file| {
        atEof := true;
        return INVALID;
      }
      return TypeOf(file[filePos]);
    }

    method ReadExtent(bf: BufferFragment)
      requires Valid(bf) && bf.pending == [] && blocks != [] && blocks[0].ExtentBlock?
      modifies this, bf, bf.storage
      ensures Valid(bf) && Ahead(bf) == old(Ahead(bf)) && blocks == old(blocks[1..]) && atEof == old(atEof)
    {
      hide AtBlocks, FileMessages, MessagesOf, Extent, AllNibbles, Readable;
      ghost var b := blocks[0];
      NextBlock(file, filePos, blocks, metadata, Capacity());
      var ok, end, wrap := bf.ReadBufferExtent(file, filePos, b.wrap, b.id, b.entries, b.nibbles);
      filePos := end;
      blocks := blocks[1..];
    }

    method ReadDictionary(bf: BufferFragment)
      requires Valid(bf) && bf.pending == [] && blocks != [] && blocks[0].DictionaryBlock?
      modifies this
      ensures Valid(bf) && Ahead(bf) == old(Ahead(bf)) && blocks == old(blocks[1..]) && atEof == old(atEof)
    {
      hide AtBlocks, FileMessages, MessagesOf, Extent, AllNibbles, Readable, FragmentBytes, AllInfos, MetadataOf;
      ghost var b := blocks[0];
      NextBlock(file, filePos, blocks, metadata, Capacity());
      var infos: seq<LogInfo>;
      infos, filePos := ReadDictionaryFragment(file, filePos, b.infos, b.total);
      var more := BuildMetadata(infos);
      metadata := metadata + more;
      blocks := blocks[1..];
    }

    /** Consumes padding up to the next block or the end of the file. */
    method SkipPadding(bf: BufferFragment)
      requires Valid(bf) && bf.pending == []
      requires if blocks == [] then atEof else blocks[0].PaddingBlock?
      modifies this
      ensures Valid(bf) && Ahead(bf) == old(Ahead(bf)) && (old(atEof) ==> atEof)
      ensures blocks == if old(blocks) == [] then [] else old(blocks[1..])
    {
      hide AtBlocks, FileMessages, MessagesOf, AllReadable, TypeOf, GoodBlock;
      ghost var last := filePos;
      NextBlock(file, filePos, blocks, metadata, Capacity());
      if blocks != [] {
        last := filePos + |BlockBytes(blocks[0], metadata, Capacity())|;
        PaddingThere(file, filePos, blocks[0], metadata, Capacity());
        NextBlock(file, last, blocks[1..], metadata, Capacity());
        blocks := blocks[1..];
      }
      hide TypeOfBlock, BlockBytes;
      ghost var rest := blocks;
      var done := atEof;
      while !done
        invariant blocks == rest && metadata == old(metadata) && good && (old(atEof) ==> atEof)
        invariant filePos <= last <= |file| && (done ==> filePos == last)
        invariant atEof ==> blocks == []
        decreases |file| - filePos, !done
      {
        if filePos == |file| {
          atEof, done := true, true;
        } else if TypeOf(file[filePos]) != INVALID {
          done := true;
        } else {
          filePos := filePos + 1;
        }
      }
    }

    /** Every message of the extent at hand. */
    method DecompressAll(bf: BufferFragment) returns (messages: seq<Message>)
      requires Valid(bf)
      modifies bf
      ensures Valid(bf) && bf.pending == [] && messages == old(PendingMessages(bf.runtimeId, metadata, bf.pending))
    {
      hide AtBlocks, MessagesOf, AllReadable, PendingMessages, Readable, MessageOf, AtMessage;
      messages := [];
      ghost var all := PendingMessages(bf.runtimeId, metadata, bf.pending);
      while bf.HasNext()
        invariant Valid(bf) && messages + PendingMessages(bf.runtimeId, metadata, bf.pending) == all
        decreases |bf.pending|
      {
        PendingFirst(bf);
        PendingPeel(bf.runtimeId.value, metadata, bf.pending);
        var ok, message := bf.DecompressNextLogStatement(metadata);
        messages := messages + [message.value];
      }
      NothingPending(bf.runtimeId, metadata);
    }

    /** One round of internalDecompressUnordered: the next block, and all of its messages. */
    method DecompressBlock(bf: BufferFragment) returns (messages: seq<Message>)
      requires Valid(bf) && bf.pending == [] && !atEof
      modifies this, bf, bf.storage
      ensures Valid(bf) && bf.pending == [] && old(Ahead(bf)) == messages + Ahead(bf)
      ensures |blocks| < |old(blocks)| || (blocks == old(blocks) && atEof)
    {
      hide AtBlocks, FileMessages, MessagesOf, AllReadable, PendingMessages, TypeOfBlock, TypeOf, WellFormed;
      messages := [];
      var entry := PeekEntryType(bf);
      BlockTypes(blocks);
      match entry {
        case EXTENT =>
          ReadExtent(bf);
          messages := DecompressAll(bf);
          NothingPending(bf.runtimeId, metadata);
        case LOG_MSGS_OR_DICTIONARY =>
          ReadDictionary(bf);
        case INVALID =>
          SkipPadding(bf);
        case CHECKPOINT =>
          assert false;
      }
    }

    /** internalDecompressUnordered: extent after extent, each to its end. */
    method InternalDecompressUnordered() returns (messages: seq<Message>)
      requires Valid(bufferFragment) && bufferFragment.pending == []
      modifies this
      ensures messages == old(Ahead(bufferFragment)) && good && blocks == []
    {
      messages := [];
      var bf := new BufferFragment(stagingBufferSize);
      hide AtBlocks, FileMessages, MessagesOf, AllReadable, PendingMessages, WellFormed, GoodBlock, AtMessage, Pow256, LiesAt;
      NothingPending(bf.runtimeId, metadata);
      NothingPending(bufferFragment.runtimeId, metadata);
      ghost var all := Ahead(bufferFragment);
      assert Ahead(bf) == all;
      while !atEof && good
        invariant fresh(bf) && fresh(bf.storage) && Valid(bf) && bf.pending == []
        invariant messages + Ahead(bf) == all
        decreases |blocks|, !atEof
      {
        var more := DecompressBlock(bf);
        messages := messages + more;
      }
      NextBlock(file, filePos, blocks, metadata, Capacity());
      NothingPending(bf.runtimeId, metadata);
    }

    /** getNextLogStatement: one message per call, reading on in the file when the extent at hand is
        used up. */
    method GetNextLogStatement() returns (ok: bool, message: Option<Message>)
      requires Valid(bufferFragment)
      modifies this, bufferFragment, bufferFragment.storage
      ensures Valid(bufferFragment)
      ensures old(Ahead(bufferFragment)) == [] ==> !ok && message == None && Ahead(bufferFragment) == []
      ensures old(Ahead(bufferFragment)) != [] ==>
                && ok && message == Some(old(Ahead(bufferFragment))[0])
                && Ahead(bufferFragment) == old(Ahead(bufferFragment))[1..]
    {
      hide AtBlocks, FileMessages, MessagesOf, AllReadable, PendingMessages, TypeOfBlock;
      ghost var all := Ahead(bufferFragment);
      if bufferFragment.HasNext() {
        ok, message := DecompressOne();
        return;
      }
      if atEof || !good {
        NextBlock(file, filePos, blocks, metadata, Capacity());
        NothingPending(bufferFragment.runtimeId, metadata);
        return false, None;
      }
      while !bufferFragment.HasNext() && !atEof && good
        invariant Valid(bufferFragment) && Ahead(bufferFragment) == all
        decreases |blocks|, !atEof
      {
        PendingFirst(bufferFragment);
        var entry := PeekEntryType(bufferFragment);
        BlockTypes(blocks);
        match entry {
          case EXTENT =>
            ReadExtent(bufferFragment);
          case LOG_MSGS_OR_DICTIONARY =>
            ReadDictionary(bufferFragment);
          case INVALID =>
            SkipPadding(bufferFragment);
          case CHECKPOINT =>
            assert false;
        }
      }
      ok, message := DecompressOne();
    }

    /** The next message of the extent at hand, if it has one. */
    method DecompressOne() returns (ok: bool, message: Option<Message>)
      requires Valid(bufferFragment) && (!bufferFragment.hasMoreLogs ==> atEof)
      modifies bufferFragment
      ensures Valid(bufferFragment)
      ensures old(Ahead(bufferFragment)) == [] ==> !ok && message == None && Ahead(bufferFragment) == []
      ensures old(Ahead(bufferFragment)) != [] ==>
                && ok && message == Some(old(Ahead(bufferFragment))[0])
                && Ahead(bufferFragment) == old(Ahead(bufferFragment))[1..]
    {
      hide AtBlocks, FileMessages, MessagesOf, AllReadable, PendingMessages, Readable, MessageOf, AtMessage, WellFormed,
           TypeOf, TypeOfBlock, GoodBlock, BlockBytes, BlockMessages, MetadataAfter, LiesAt;
      PendingFirst(bufferFragment);
      NothingPending(bufferFragment.runtimeId, metadata);
      NextBlock(file, filePos, blocks, metadata, Capacity());
      if bufferFragment.hasMoreLogs {
        PendingPeel(bufferFragment.runtimeId.value, metadata, bufferFragment.pending);
        FirstOf(MessageOf(bufferFragment.runtimeId.value, metadata, bufferFragment.pending[0]),
                PendingMessages(bufferFragment.runtimeId, metadata, bufferFragment.pending[1..]),
                FileMessages(blocks, metadata, Capacity()));
      }
      ok, message := bufferFragment.DecompressNextLogStatement(metadata);
      PendingFirst(bufferFragment);
    }
  }

  lemma {:induction false} FirstOf(m: Message, more: seq<Message>, rest: seq<Message>)
    ensures [m] + more + rest != [] && ([m] + more + rest)[0] == m && ([m] + more + rest)[1..] == more + rest
  {
  }

  lemma {:induction false} PendingFirst(bf: BufferFragment)
    requires bf.Valid()
    ensures bf.hasMoreLogs <==> bf.pending != []
  {
    hide AllNibbles, RestOf, LiesAt;
  }

  lemma {:induction false} BlockTypes(blocks: seq<Block>)
    ensures blocks != [] ==> TypeOfBlock(blocks[0]) != CHECKPOINT
    ensures blocks != [] ==>
              && (TypeOfBlock(blocks[0]) == EXTENT <==> blocks[0].ExtentBlock?)
              && (TypeOfBlock(blocks[0]) == LOG_MSGS_OR_DICTIONARY <==> blocks[0].DictionaryBlock?)
              && (TypeOfBlock(blocks[0]) == INVALID <==> blocks[0].PaddingBlock?)
  {
  }

  /** Padding is all zeros. */
  lemma {:induction false} PaddingThere(file: seq<byte>, pos: nat, b: Block, metadata: seq<Metadata>, capacity: nat)
    requires GoodBlock(b, metadata, capacity) && b.PaddingBlock? && LiesAt(file, pos, BlockBytes(b, metadata, capacity))
    ensures var n := |BlockBytes(b, metadata, capacity)|;
            pos + n <= |file| && forall k :: pos <= k < pos + n ==> TypeOf(file[k]) == INVALID
    ensures MetadataAfter(b, metadata, capacity) == metadata && BlockMessages(b, metadata, capacity) == []
  {
    var n := b.size;
    assert file[pos..pos + n] == seq(n, _ => 0);
    forall k | pos <= k < pos + n ensures TypeOf(file[k]) == INVALID { assert file[k] == file[pos..pos + n][k - pos]; }
  }

  /** createMicroCode on the format string of every statement. */
  method BuildMetadata(infos: seq<LogInfo>) returns (metadata: seq<Metadata>)
    requires Understood(infos)
    ensures metadata == AllMetadata(infos)
  {
    hide FragmentsOf, AllNibblesOf;
    metadata := [];
    for i := 0 to |infos|
      invariant metadata == AllMetadata(infos)[..i]
    {
      var ok, fragments, numNibbles, numPrintFragments := CreateMicroCode(infos[i].formatString);
      assert MetadataOf(infos[i].formatString).Some?;
      metadata := metadata + [Metadata(numNibbles, fragments[..numPrintFragments])];
    }
  }
}
