/** Log messages in their two forms: the uncompressed entry in a staging buffer, and the compressed
    message in an extent of the log file. */
module Entries {
  import opened Bytes
  import opened Packing
  import opened Packer
  import opened Arguments
  import opened ArgumentCompress
  import opened LogHeader

  datatype Entry = Entry(fmtId: nat, timestamp: nat, args: seq<Argument>) {
    predicate Valid() {
      && fmtId < Pow256(4) && timestamp < Pow256(8)
      && AllValid(args) && Storable(args) && ENTRY_HEADER + |Stored(args)| < Pow256(4)
    }

    /** Bytes of the header and the arguments, uncompressed. */
    function Size(): (n: nat)
      requires Valid()
      ensures n >= ENTRY_HEADER
    {
      ENTRY_HEADER + |Stored(args)|
    }
  }

  // sizeof(UncompressedEntry)
  const ENTRY_HEADER: nat := 16

  predicate AllEntries(entries: seq<Entry>) {
    forall i :: 0 <= i < |entries| ==> entries[i].Valid()
  }

  // ---- Uncompressed ----

  function EntryHeader(id: nat, size: nat, timestamp: nat): (s: seq<byte>)
    ensures |s| == ENTRY_HEADER
  {
    Little(id, 4) + Little(size, 4) + Little(timestamp, 8)
  }

  function EntryBytes(e: Entry): (s: seq<byte>)
    requires e.Valid()
    ensures |s| == e.Size()
  {
    EntryHeader(e.fmtId, e.Size(), e.timestamp) + Stored(e.args)
  }

  function Uncompressed(entries: seq<Entry>): (s: seq<byte>)
    requires AllEntries(entries)
    ensures |s| >= ENTRY_HEADER * |entries|
  {
    if entries == [] then [] else EntryBytes(entries[0]) + Uncompressed(entries[1..])
  }

  // ---- Compressed ----

  function MessageBytes(e: Entry, last: nat, nibbles: seq<byte>): (s: seq<byte>)
    requires e.Valid()
  {
    HeaderBytes(e.fmtId, e.timestamp, last) + Compressed(e.args, nibbles)
  }

  /** Each entry comes with its nibble area. */
  predicate AllNibbles(entries: seq<Entry>, nibbles: seq<seq<byte>>) {
    && AllEntries(entries) && |nibbles| == |entries|
    && forall i :: 0 <= i < |entries| ==> NibblesOf(entries[i].args, nibbles[i])
  }

  /** The messages of an extent; the first time is stored as the distance to `last`. */
  function Body(entries: seq<Entry>, nibbles: seq<seq<byte>>, last: nat): seq<byte>
    requires AllNibbles(entries, nibbles)
  {
    if entries == [] then []
    else MessageBytes(entries[0], last, nibbles[0]) + Body(entries[1..], nibbles[1..], entries[0].timestamp)
  }

  function LastTime(entries: seq<Entry>, last: nat): nat {
    if entries == [] then last else entries[|entries| - 1].timestamp
  }

  /** One more message at the end. */
  lemma {:induction false} BodyAppend(entries: seq<Entry>, nibbles: seq<seq<byte>>, last: nat, e: Entry, n: seq<byte>)
    requires AllNibbles(entries, nibbles) && e.Valid() && NibblesOf(e.args, n)
    ensures AllNibbles(entries + [e], nibbles + [n])
    ensures Body(entries + [e], nibbles + [n], last)
            == Body(entries, nibbles, last) + MessageBytes(e, LastTime(entries, last), n)
  {
    hide MessageBytes, NibblesOf;
    var es, ns := entries + [e], nibbles + [n];
    assert es[0] == (if entries == [] then e else entries[0]);
    if entries == [] {
      assert es[1..] == [] && ns[1..] == [];
    } else {
      assert es[1..] == entries[1..] + [e] && ns[1..] == nibbles[1..] + [n];
      BodyAppend(entries[1..], nibbles[1..], entries[0].timestamp, e, n);
      assert LastTime(entries[1..], entries[0].timestamp) == LastTime(entries, last);
    }
  }

  // ---- Extents ----

  const BUFFER_EXTENT := 2
  // sizeof(BufferExtent)
  const EXTENT_HEADER: nat := 5

  /** Bits 0-1 hold the entry type, 2 the end of a pass, 3 whether bits 4-7 are the id itself. */
  function ExtentByte(wrapAround: bool, id: nat): byte
    requires id < Pow256(4)
  {
    FewestBytes(id, 4);
    BUFFER_EXTENT + (if wrapAround then 4 else 0) +
    (if id < 16 then 8 + 16 * id else 16 * PackUnsigned(id).tag)
  }

  function IdBytes(id: nat): (s: seq<byte>)
    requires id < Pow256(4)
    ensures |s| <= 4
  {
    FewestBytes(id, 4);
    if id < 16 then [] else PackUnsigned(id).bytes
  }

  /** The start of an extent, with its length field set to `length`. */
  function ExtentStart(wrapAround: bool, id: nat, length: nat): (s: seq<byte>)
    requires id < Pow256(4)
    ensures |s| == EXTENT_HEADER + |IdBytes(id)|
  {
    [ExtentByte(wrapAround, id)] + Little(length, 4) + IdBytes(id)
  }

  /** A whole extent: its length field counts everything from its first byte. */
  function Extent(wrapAround: bool, id: nat, entries: seq<Entry>, nibbles: seq<seq<byte>>): (s: seq<byte>)
    requires id < Pow256(4) && AllNibbles(entries, nibbles)
  {
    var body := Body(entries, nibbles, 0);
    ExtentStart(wrapAround, id, EXTENT_HEADER + |IdBytes(id)| + |body|) + body
  }

  // ---- Sizes ----

  /** Compressing never takes more room than the test before it asks for: everything written for an
      entry, what pack copies too much included, fits twice its size and a header. */
  lemma {:induction false} MessageFits(e: Entry)
    requires e.Valid()
    ensures 13 + NibbleBytes(|Tags(e.args)|) + |Stored(e.args)| + 3 <= 2 * e.Size() + ENTRY_HEADER
  {
    CompressedFits(e.args);
  }

  lemma {:induction false} MessageSize(e: Entry, last: nat, nibbles: seq<byte>)
    requires e.Valid() && NibblesOf(e.args, nibbles)
    ensures 0 < |MessageBytes(e, last, nibbles)| <= 2 * e.Size()
  {
    CompressedFits(e.args);
    HeaderTags(e.fmtId, e.timestamp, last);
    hide Tags, PackedValues, Texts, HoldsTags, Stored, PackUnsigned, PackInteger, Delta, Pow256;
  }

  /** A chunk of at most half a staging buffer compresses to an extent that the decoder's storage,
      a staging buffer and the longest extent header, can hold. */
  lemma {:induction false} ExtentFits(wrapAround: bool, id: nat, entries: seq<Entry>, nibbles: seq<seq<byte>>, capacity: nat)
    requires id < Pow256(4) && AllNibbles(entries, nibbles)
    requires |Uncompressed(entries)| <= capacity / 2
    ensures |Extent(wrapAround, id, entries, nibbles)| <= capacity + EXTENT_HEADER + 4
  {
    BodyFits(entries, nibbles, 0);
    hide Uncompressed, Body, AllNibbles, IdBytes;
  }

  lemma {:induction false} BodyFits(entries: seq<Entry>, nibbles: seq<seq<byte>>, last: nat)
    requires AllNibbles(entries, nibbles)
    ensures |Body(entries, nibbles, last)| <= 2 * |Uncompressed(entries)|
  {
    if entries != [] {
      BodyFits(entries[1..], nibbles[1..], entries[0].timestamp);
      MessageSize(entries[0], last, nibbles[0]);
      hide MessageBytes, EntryBytes, NibblesOf;
    }
  }
}
