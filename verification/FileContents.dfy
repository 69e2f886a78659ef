/** What the pipeline writes to a log file, as the blocks that the decoder reads: they are well-formed,
    and the messages that the decoder shows of a thread are those that the file holds of it. */
module FileContents {
  import opened Wrappers
  import opened Bytes
  import opened Packing
  import opened Arguments
  import opened ArgumentDecode
  import opened Formats
  import opened FormatParameters
  import opened MicroCode
  import opened FormatAgreement
  import opened FormatCodec
  import opened Entries
  import opened Dictionaries
  import opened ExtentReader
  import opened Decoders
  import opened Pipeline
  import opened PipelineInvariants
  import opened PipelineDictionary

  /** What the records of the pipeline stand for: the entry that lies in the staging buffer, the nibble
      area that it is compressed with, and the static information of a site. */
  datatype Meaning = Meaning(entry: Msg -> Entry, nibbles: Msg -> seq<byte>, info: Site -> LogInfo)

  /** The decoder makes metadata of the site's format, and its counters of eight bits are enough. */
  predicate GoodSite(w: Meaning, site: Site) {
    w.info(site).Valid() && Counted(w.info(site).formatString)
  }

  /** The message was logged by the site it refers to. */
  predicate GoodMsg(w: Meaning, sites: seq<Site>, m: Msg) {
    && m.fmtId < |sites| && GoodSite(w, sites[m.fmtId])
    && w.entry(m).fmtId == m.fmtId
    && LoggedBy(w.info(sites[m.fmtId]).formatString, w.entry(m))
    && NibblesOf(w.entry(m).args, w.nibbles(m))
    && w.entry(m).Size() == m.size
  }

  // ---- The log as blocks of a file ----

  function Infos(w: Meaning, sites: seq<Site>): (r: seq<LogInfo>)
    ensures |r| == |sites|
  {
    seq(|sites|, i requires 0 <= i < |sites| => w.info(sites[i]))
  }

  function EntriesOf(w: Meaning, msgs: seq<Msg>): (r: seq<Entry>)
    ensures |r| == |msgs|
  {
    seq(|msgs|, i requires 0 <= i < |msgs| => w.entry(msgs[i]))
  }

  function NibblesOfAll(w: Meaning, msgs: seq<Msg>): (r: seq<seq<byte>>)
    ensures |r| == |msgs|
  {
    seq(|msgs|, i requires 0 <= i < |msgs| => w.nibbles(msgs[i]))
  }

  /** `known` is how many sites the file has defined before. */
  function BlockOf(w: Meaning, item: Item, known: nat): Block
    requires !item.Checkpoint?
  {
    match item
    case Dictionary(entries) => DictionaryBlock(Infos(w, entries), known + |entries|)
    case Extent(id, wrap, msgs) => ExtentBlock(wrap, id, EntriesOf(w, msgs), NibblesOfAll(w, msgs))
  }

  predicate NoCheckpoint(items: seq<Item>) {
    forall i :: 0 <= i < |items| ==> !items[i].Checkpoint?
  }

  function BlocksOf(w: Meaning, items: seq<Item>, d: seq<Site>): (r: seq<Block>)
    requires NoCheckpoint(items)
    ensures |r| == |items|
  {
    if items == [] then []
    else [BlockOf(w, items[0], |d|)] + BlocksOf(w, items[1..], DictStep(d, items[0]))
  }

  /** The decoder has the room for it. */
  predicate Fits(w: Meaning, item: Item, capacity: nat) {
    match item
    case Checkpoint => true
    case Dictionary(entries) => AllInfos(Infos(w, entries)) ==> FRAGMENT_HEADER + |AllInfoBytes(Infos(w, entries))| < 0x4000_0000
    case Extent(id, wrap, msgs) =>
      id < Pow256(4) && (AllNibbles(EntriesOf(w, msgs), NibblesOfAll(w, msgs)) ==>
                           |Entries.Extent(wrap, id, EntriesOf(w, msgs), NibblesOfAll(w, msgs))| <= capacity)
  }

  // ---- What the decoder shows ----

  function FormatOf(w: Meaning, sites: seq<Site>, m: Msg): string
    requires m.fmtId < |sites|
  {
    w.info(sites[m.fmtId]).formatString
  }

  /** The message as it was logged, with the values read back. */
  function Shown(w: Meaning, sites: seq<Site>, id: nat, m: Msg): Message
    requires GoodMsg(w, sites, m)
  {
    LoggedMatches(w, sites, m);
    Message(id, m.fmtId, w.entry(m).timestamp, AllExpected(AllNeeds(FragmentsOf(FormatOf(w, sites, m)).value), w.entry(m).args))
  }

  lemma {:induction false} LoggedMatches(w: Meaning, sites: seq<Site>, m: Msg)
    requires GoodMsg(w, sites, m)
    ensures FragmentsOf(FormatOf(w, sites, m)).Some?
    ensures MatchFrom(AllNeeds(FragmentsOf(FormatOf(w, sites, m)).value), w.entry(m).args)
    ensures AllValid(w.entry(m).args) && AllMatch(AllNeeds(FragmentsOf(FormatOf(w, sites, m)).value), w.entry(m).args)
    ensures |Tags(w.entry(m).args)| == AllNibblesOf(FragmentsOf(FormatOf(w, sites, m)).value) < 256
  {
    hide LoggedBy, FragmentsOf, AllNeeds, Tags, AllNibblesOf, NibblesNeeded, Params;
    LoggedByParts(FormatOf(w, sites, m), w.entry(m));
    FormatMatches(FormatOf(w, sites, m), w.entry(m).args);
    MatchFromParts(AllNeeds(FragmentsOf(FormatOf(w, sites, m)).value), w.entry(m).args);
  }

  predicate AllGood(w: Meaning, sites: seq<Site>, msgs: seq<Msg>) {
    forall i :: 0 <= i < |msgs| ==> GoodMsg(w, sites, msgs[i])
  }

  function AllShown(w: Meaning, sites: seq<Site>, id: nat, msgs: seq<Msg>): (r: seq<Message>)
    requires AllGood(w, sites, msgs)
    ensures |r| == |msgs| && forall i :: 0 <= i < |r| ==> r[i].threadId == id
  {
    seq(|msgs|, i requires 0 <= i < |msgs| => Shown(w, sites, id, msgs[i]))
  }

  /** Of the printed messages, those of one thread. */
  function OfThread(id: nat, messages: seq<Message>): seq<Message> {
    if messages == [] then []
    else (if messages[0].threadId == id then [messages[0]] else []) + OfThread(id, messages[1..])
  }

  lemma {:induction false} OfThreadAppend(id: nat, a: seq<Message>, b: seq<Message>)
    ensures OfThread(id, a + b) == OfThread(id, a) + OfThread(id, b)
  {
    if a == [] {
      assert a + b == b;
    } else {
      assert (a + b)[0] == a[0] && (a + b)[1..] == a[1..] + b;
      OfThreadAppend(id, a[1..], b);
      var first := if a[0].threadId == id then [a[0]] else [];
      assert OfThread(id, a) == first + OfThread(id, a[1..]);
      assert OfThread(id, a + b) == first + OfThread(id, a[1..] + b);
    }
  }

  lemma {:induction false} OfThreadAll(id: nat, owner: nat, messages: seq<Message>)
    requires forall i :: 0 <= i < |messages| ==> messages[i].threadId == owner
    ensures OfThread(id, messages) == if id == owner then messages else []
  {
    if messages != [] { OfThreadAll(id, owner, messages[1..]); }
  }

  // ---- One block ----

  /** The decoder's metadata after the dictionary `d`. */
  predicate Holds(w: Meaning, d: seq<Site>, metadata: seq<Metadata>) {
    |metadata| == |d| && forall i :: 0 <= i < |d| ==> MetadataOf(w.info(d[i]).formatString) == Some(metadata[i])
  }

  predicate GoodSites(w: Meaning, sites: seq<Site>) {
    forall i :: 0 <= i < |sites| ==> GoodSite(w, sites[i])
  }

  lemma {:induction false} MetadataIs(w: Meaning, site: Site)
    requires GoodSite(w, site)
    ensures var fragments := FragmentsOf(w.info(site).formatString).value;
            MetadataOf(w.info(site).formatString) == Some(Metadata(AllNibblesOf(fragments) % 256, fragments))
  {
    hide FragmentsOf, AllNibblesOf;
    var fragments := FragmentsOf(w.info(site).formatString).value;
    assert fragments[..|fragments| % 256] == fragments;
  }

  lemma {:induction false} OneReadable(w: Meaning, sites: seq<Site>, d: seq<Site>, metadata: seq<Metadata>, id: nat, m: Msg)
    requires GoodMsg(w, sites, m) && d <= sites && m.fmtId < |d| && Holds(w, d, metadata)
    ensures Readable(metadata, w.entry(m)) && MessageOf(id, metadata, w.entry(m)) == Shown(w, sites, id, m)
  {
    hide LoggedBy, FragmentsOf, AllNeeds, Tags, AllNibblesOf, MatchFrom, AllMatch, AllExpected, NibblesOf, MetadataOf;
    var e := w.entry(m);
    var fragments := FragmentsOf(FormatOf(w, sites, m)).value;
    LoggedMatches(w, sites, m);
    LoggedByParts(FormatOf(w, sites, m), e);
    MetadataIs(w, sites[m.fmtId]);
    assert d[m.fmtId] == sites[m.fmtId];
    assert metadata[m.fmtId] == Metadata(AllNibblesOf(fragments) % 256, fragments);
    assert AllNeeds(fragments) + [] == AllNeeds(fragments);
    ReadableIff(metadata, e, AllNeeds(fragments), []);
  }

  lemma {:induction false} ExtentGood(w: Meaning, sites: seq<Site>, d: seq<Site>, metadata: seq<Metadata>, item: Item,
                                      capacity: nat)
    requires item.Extent? && Resolved(d, item, sites) && Holds(w, d, metadata)
    requires AllGood(w, sites, item.msgs) && Fits(w, item, capacity)
    ensures GoodBlock(BlockOf(w, item, |d|), metadata, capacity)
    ensures BlockMessages(BlockOf(w, item, |d|), metadata, capacity) == AllShown(w, sites, item.bufferId, item.msgs)
  {
    hide GoodMsg, Holds, Readable, Shown, MessageOf, NibblesOf, Entries.Extent, Pow256;
    var msgs := item.msgs;
    var entries := EntriesOf(w, msgs);
    forall i | 0 <= i < |msgs|
      ensures entries[i].Valid() && NibblesOf(entries[i].args, w.nibbles(msgs[i]))
      ensures Readable(metadata, entries[i])
      ensures MessageOf(item.bufferId, metadata, entries[i]) == Shown(w, sites, item.bufferId, msgs[i])
    {
      GoodMsgParts(w, sites, msgs[i]);
      OneReadable(w, sites, d, metadata, item.bufferId, msgs[i]);
    }
  }

  lemma {:induction false} GoodMsgParts(w: Meaning, sites: seq<Site>, m: Msg)
    requires GoodMsg(w, sites, m)
    ensures w.entry(m).Valid() && NibblesOf(w.entry(m).args, w.nibbles(m)) && w.entry(m).fmtId == m.fmtId
  {
    hide LoggedBy;
    LoggedByParts(FormatOf(w, sites, m), w.entry(m));
  }

  lemma {:induction false} DictionaryGood(w: Meaning, d: seq<Site>, metadata: seq<Metadata>, item: Item, capacity: nat)
    requires item.Dictionary? && GoodSites(w, item.entries) && Holds(w, d, metadata) && Fits(w, item, capacity)
    ensures var b := BlockOf(w, item, |d|);
            && GoodBlock(b, metadata, capacity) && BlockMessages(b, metadata, capacity) == []
            && Holds(w, d + item.entries, MetadataAfter(b, metadata, capacity))
  {
    hide MetadataOf, AllInfoBytes, FragmentsOf;
    var infos := Infos(w, item.entries);
    forall i | 0 <= i < |infos| ensures infos[i].Valid() && MetadataOf(infos[i].formatString).Some? {
      assert GoodSite(w, item.entries[i]);
      MetadataIs(w, item.entries[i]);
    }
    assert AllInfos(infos) && Understood(infos);
    hide GoodSite;
  }

  // ---- A whole file ----

  /** Every message has its dictionary entry before it, when `d` is known at the beginning. */
  predicate ResolvedFrom(d: seq<Site>, items: seq<Item>, sites: seq<Site>)
    decreases |items|
  {
    items == [] || (Resolved(d, items[0], sites) && ResolvedFrom(DictStep(d, items[0]), items[1..], sites))
  }

  predicate GoodItem(w: Meaning, sites: seq<Site>, item: Item) {
    match item
    case Checkpoint => false
    case Dictionary(entries) => GoodSites(w, entries)
    case Extent(_, _, msgs) => AllGood(w, sites, msgs)
  }

  predicate GoodItems(w: Meaning, sites: seq<Site>, items: seq<Item>, capacity: nat) {
    forall i :: 0 <= i < |items| ==> GoodItem(w, sites, items[i]) && Fits(w, items[i], capacity)
  }

  lemma {:induction false} GoodItemsPeel(w: Meaning, sites: seq<Site>, items: seq<Item>, capacity: nat)
    requires GoodItems(w, sites, items, capacity)
    ensures NoCheckpoint(items)
    ensures items != [] ==>
              GoodItem(w, sites, items[0]) && Fits(w, items[0], capacity) && GoodItems(w, sites, items[1..], capacity)
  {
    hide GoodItem, Fits;
    forall i | 0 <= i < |items| ensures !items[i].Checkpoint? { NotCheckpoint(w, sites, items[i]); }
  }

  lemma {:induction false} NotCheckpoint(w: Meaning, sites: seq<Site>, item: Item)
    requires GoodItem(w, sites, item)
    ensures !item.Checkpoint?
  {
  }

  /** The block of one item: well-formed, and showing the item's messages. */
  lemma {:induction false} ItemGood(w: Meaning, sites: seq<Site>, d: seq<Site>, metadata: seq<Metadata>, item: Item,
                                    capacity: nat, id: nat)
    requires GoodItem(w, sites, item) && Fits(w, item, capacity) && Resolved(d, item, sites) && Holds(w, d, metadata)
    ensures !item.Checkpoint? && !BlockOf(w, item, |d|).PaddingBlock?
    ensures var b := BlockOf(w, item, |d|);
            && GoodBlock(b, metadata, capacity) && Holds(w, DictStep(d, item), MetadataAfter(b, metadata, capacity))
            && AllGood(w, sites, MsgsOf(id, [item]))
            && OfThread(id, BlockMessages(b, metadata, capacity)) == AllShown(w, sites, id, MsgsOf(id, [item]))
  {
    hide GoodSites, GoodMsg, Holds, Fits, Shown, GoodBlock, BlockMessages, MetadataOf, Resolved;
    assert [item][1..] == [];
    var b := BlockOf(w, item, |d|);
    match item
    case Dictionary(entries) => DictionaryGood(w, d, metadata, item, capacity);
    case Extent(owner, _, msgs) =>
      ExtentGood(w, sites, d, metadata, item, capacity);
      OfThreadAll(id, owner, BlockMessages(b, metadata, capacity));
  }

  lemma {:induction false} ShownAppend(w: Meaning, sites: seq<Site>, id: nat, a: seq<Msg>, b: seq<Msg>)
    requires AllGood(w, sites, a) && AllGood(w, sites, b)
    ensures AllGood(w, sites, a + b) && AllShown(w, sites, id, a + b) == AllShown(w, sites, id, a) + AllShown(w, sites, id, b)
  {
    hide GoodMsg, Shown;
  }

  lemma {:induction false} FileUnroll(blocks: seq<Block>, b: Block, rest: seq<Block>, metadata: seq<Metadata>, capacity: nat)
    requires blocks == [b] + rest && GoodBlock(b, metadata, capacity) && !b.PaddingBlock?
    requires WellFormed(rest, MetadataAfter(b, metadata, capacity), capacity)
    ensures WellFormed(blocks, metadata, capacity)
    ensures FileMessages(blocks, metadata, capacity)
            == BlockMessages(b, metadata, capacity) + FileMessages(rest, MetadataAfter(b, metadata, capacity), capacity)
  {
    hide GoodBlock, BlockMessages, MetadataAfter;
    assert blocks[1..] == rest;
  }

  /** What is written is a well-formed file, and what the decoder shows of a thread is what the log
      holds of it. */
  lemma {:induction false} FileShows(w: Meaning, sites: seq<Site>, d: seq<Site>, metadata: seq<Metadata>,
                                     items: seq<Item>, capacity: nat, id: nat)
    requires GoodItems(w, sites, items, capacity) && ResolvedFrom(d, items, sites) && Holds(w, d, metadata)
    ensures NoCheckpoint(items) && AllGood(w, sites, MsgsOf(id, items))
    ensures WellFormed(BlocksOf(w, items, d), metadata, capacity)
    ensures OfThread(id, FileMessages(BlocksOf(w, items, d), metadata, capacity)) == AllShown(w, sites, id, MsgsOf(id, items))
    decreases |items|
  {
    hide GoodItem, GoodItems, Fits, Resolved, Holds, GoodMsg, BlockOf, GoodBlock, BlockMessages, MetadataAfter, AllShown,
         DictStep, AllGood;
    GoodItemsPeel(w, sites, items, capacity);
    if items == [] {
      NothingShown(w, sites, id);
    } else {
      var b, rest := BlockOf(w, items[0], |d|), BlocksOf(w, items[1..], DictStep(d, items[0]));
      ItemGood(w, sites, d, metadata, items[0], capacity, id);
      var later := MetadataAfter(b, metadata, capacity);
      FileShows(w, sites, DictStep(d, items[0]), later, items[1..], capacity, id);
      FileUnroll(BlocksOf(w, items, d), b, rest, metadata, capacity);
      OfThreadAppend(id, BlockMessages(b, metadata, capacity), FileMessages(rest, later, capacity));
      assert items == [items[0]] + items[1..];
      MsgsOfAppend(id, [items[0]], items[1..]);
      ShownAppend(w, sites, id, MsgsOf(id, [items[0]]), MsgsOf(id, items[1..]));
    }
  }

  lemma {:induction false} NothingShown(w: Meaning, sites: seq<Site>, id: nat)
    ensures AllGood(w, sites, []) && AllShown(w, sites, id, []) == []
  {
  }
}
