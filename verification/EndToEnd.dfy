/** From the log statements of the threads to what the decoder shows: every file that a run of the
    pipeline writes can be read, and the messages in it are those that were logged. */
module EndToEnd {
  import opened Wrappers
  import opened Bytes
  import opened Packing
  import opened Arguments
  import opened ArgumentDecode
  import opened FormatCodec
  import opened Entries
  import opened Dictionaries
  import opened LogHeader
  import opened ExtentReader
  import opened Decoders
  import opened Pipeline
  import opened PipelineInvariants
  import opened PipelineDictionary
  import opened PipelineTheorems
  import opened PipelineExact
  import opened FileContents

  // ---- What is in the log ----

  predicate SmallMsgs(msgs: seq<Msg>, threshold: nat) {
    forall i :: 0 <= i < |msgs| ==> msgs[i].size < threshold
  }

  predicate SliceAt(entries: seq<Site>, sites: seq<Site>, k: nat) {
    k + |entries| <= |sites| && entries == sites[k..k + |entries|]
  }

  predicate IsSlice(entries: seq<Site>, sites: seq<Site>) {
    exists k :: 0 <= k <= |sites| && SliceAt(entries, sites, k)
  }

  /** Dictionary fragments are stretches of the registered sites; small messages fill no extent beyond
      the threshold. */
  ghost predicate ItemShape(item: Item, sites: seq<Site>, threshold: nat) {
    match item
    case Checkpoint => true
    case Dictionary(entries) => IsSlice(entries, sites)
    case Extent(_, _, msgs) => SmallMsgs(msgs, threshold) ==> Size(msgs) <= threshold
  }

  ghost predicate LogShape(log: seq<Item>, sites: seq<Site>, threshold: nat) {
    log != [] && log[0].Checkpoint? && forall i | 0 <= i < |log| :: ItemShape(log[i], sites, threshold)
  }

  lemma {:induction false} ShapeSnoc(log: seq<Item>, item: Item, sites: seq<Site>, threshold: nat)
    requires LogShape(log, sites, threshold) && ItemShape(item, sites, threshold)
    ensures LogShape(log + [item], sites, threshold)
  {
    hide ItemShape;
  }

  lemma {:induction false} ShapeMoreSites(log: seq<Item>, sites: seq<Site>, site: Site, threshold: nat)
    requires LogShape(log, sites, threshold)
    ensures LogShape(log, sites + [site], threshold)
  {
    hide SmallMsgs;
    forall i | 0 <= i < |log| ensures ItemShape(log[i], sites + [site], threshold) {
      assert ItemShape(log[i], sites, threshold);
      if log[i].Dictionary? {
        var entries := log[i].entries;
        var k :| 0 <= k <= |sites| && SliceAt(entries, sites, k);
        assert SliceAt(entries, sites + [site], k);
      }
    }
  }

  /** The test of the encoder keeps small messages within the threshold. */
  lemma {:induction false} ChunkShape(held: seq<Msg>, n: nat, threshold: nat, known: nat)
    requires ChunkOk(held, n, threshold, known) && SmallMsgs(held[..n], threshold)
    ensures Size(held[..n]) <= threshold
  {
    assert held[..n][n - 1] == held[n - 1];
  }

  /** The actions that put something into the log or register a site. */
  predicate Grows(a: Action) {
    a.Register? || a.Relaunch? || a.BeginPass? || a.Encode? || a.EncodeNothing?
  }

  lemma {:induction false} ShapeUnchanged(s: State, a: Action, threshold: nat)
    requires Inv(s) && Enabled(s, a, threshold) && !Grows(a) && LogShape(Log(s.output), s.threads.sites, threshold)
    ensures LogShape(Log(Apply(s, a, threshold).output), Apply(s, a, threshold).threads.sites, threshold)
  {
    hide LogShape, BuffersOk, Conserved, IndicesOk;
    var t := Apply(s, a, threshold);
    if a.AioDone? { assert Log(t.output) == Log(s.output); }
    if a.StartAio? { assert Log(t.output) == Log(s.output); }
  }

  lemma {:induction false} ShapeBeginPass(s: State, a: Action, threshold: nat)
    requires Enabled(s, a, threshold) && a.BeginPass? && LogShape(Log(s.output), s.threads.sites, threshold)
    ensures LogShape(Log(Apply(s, a, threshold).output), s.threads.sites, threshold)
  {
    hide LogShape, Log;
    var sites, first := s.threads.sites, s.catalog.nextSite;
    if first < |sites| && a.room {
      var item := Dictionary(sites[first..first + a.entries]);
      assert SliceAt(item.entries, sites, first);
      LogEmit(s.output, item);
      ShapeSnoc(Log(s.output), item, sites, threshold);
    }
  }

  lemma {:induction false} ShapeEncode(s: State, a: Action, threshold: nat)
    requires Enabled(s, a, threshold) && (a.Encode? || a.EncodeNothing?)
    requires LogShape(Log(s.output), s.threads.sites, threshold)
    ensures LogShape(Log(Apply(s, a, threshold).output), s.threads.sites, threshold)
  {
    hide LogShape, Log, SmallMsgs;
    var buf := s.threads.bufs[s.scan.control.i];
    var msgs := if a.Encode? then s.scan.control.held[..a.n] else [];
    var item := Item.Extent(buf.id, s.scan.wrapAround, msgs);
    if a.Encode? && SmallMsgs(msgs, threshold) {
      ChunkShape(s.scan.control.held, a.n, threshold, |s.catalog.shadow|);
    }
    LogEmit(s.output, item);
    ShapeSnoc(Log(s.output), item, s.threads.sites, threshold);
  }

  lemma {:induction false} StepShape(s: State, a: Action, threshold: nat)
    requires Inv(s) && Enabled(s, a, threshold) && LogShape(Log(s.output), s.threads.sites, threshold)
    ensures LogShape(Log(Apply(s, a, threshold).output), Apply(s, a, threshold).threads.sites, threshold)
  {
    if !Grows(a) { ShapeUnchanged(s, a, threshold); }
    else if a.BeginPass? { ShapeBeginPass(s, a, threshold); }
    else if a.Encode? || a.EncodeNothing? { ShapeEncode(s, a, threshold); }
    else {
      hide LogShape, Inv;
      match a
      case Register(site) => ShapeMoreSites(Log(s.output), s.threads.sites, site, threshold);
      case Relaunch => ShapeRelaunch(s, threshold);
    }
  }

  lemma {:induction false} ShapeRelaunch(s: State, threshold: nat)
    requires Inv(s) && Enabled(s, Relaunch, threshold) && LogShape(Log(s.output), s.threads.sites, threshold)
    ensures LogShape(Log(Apply(s, Relaunch, threshold).output), s.threads.sites, threshold)
  {
    hide LogShape, BuffersOk, Conserved;
    assert Log(Apply(s, Relaunch, threshold).output) == Log(s.output) + [Checkpoint];
    ShapeSnoc(Log(s.output), Checkpoint, s.threads.sites, threshold);
  }

  lemma {:induction false} StartShape(s: State, threshold: nat)
    requires Init(s)
    ensures LogShape(Log(s.output), s.threads.sites, threshold)
  {
  }

  lemma {:induction false} RunShape(states: seq<State>, acts: seq<Action>, threshold: nat, i: nat)
    requires IsRun(states, acts, threshold) && i < |states|
    ensures LogShape(Log(states[i].output), states[i].threads.sites, threshold)
    decreases i
  {
    hide Enabled, Apply, LogShape, Inv, Log;
    if i == 0 {
      StartShape(states[0], threshold);
    } else {
      RunShape(states, acts, threshold, i - 1);
      RunInv(states, acts, threshold, i - 1);
      assert IsStep(states[i - 1], acts[i - 1], states[i - 1 + 1], threshold);
      StepShape(states[i - 1], acts[i - 1], threshold);
    }
  }

  lemma {:induction false} InMsgsOf(log: seq<Item>, k: nat, m: Msg)
    requires k < |log| && log[k].Extent? && m in log[k].msgs
    ensures m in MsgsOf(log[k].bufferId, log)
  {
    if k > 0 { InMsgsOf(log[1..], k - 1, m); }
  }

  lemma {:induction false} InLogIsCommitted(t: Threads, log: seq<Item>, k: nat, m: Msg)
    requires BuffersOk(t, log) && Conserved(t, log)
    requires k < |log| && log[k].Extent? && m in log[k].msgs
    ensures log[k].bufferId in t.committed && m in t.committed[log[k].bufferId]
  {
    hide Distinct, MsgsOf, UnreadOf;
    InMsgsOf(log, k, m);
    assert log[k] in log;
    var id := log[k].bufferId;
    assert t.committed[id] == MsgsOf(id, log) + UnreadOf(t.bufs, id);
  }

  // ---- What it means ----

  /** Everything that the threads have logged, and every site, means something.  Messages are smaller
      than the threshold, which is half of a staging buffer; thread ids have 32 bits; and the static
      information of all sites together stays within the thirty bits of a fragment's size. */
  predicate Meaningful(w: Meaning, t: Threads, threshold: nat) {
    && GoodSites(w, t.sites)
    && (AllInfos(Infos(w, t.sites)) ==> FRAGMENT_HEADER + |AllInfoBytes(Infos(w, t.sites))| < 0x4000_0000)
    && forall id <- t.committed ::
         id < Pow256(4) && AllGood(w, t.sites, t.committed[id]) && SmallMsgs(t.committed[id], threshold)
  }

  lemma {:induction false} SliceSmaller(infos: seq<LogInfo>, k: nat, n: nat)
    requires AllInfos(infos) && k + n <= |infos|
    ensures AllInfos(infos[k..k + n]) && |AllInfoBytes(infos[k..k + n])| <= |AllInfoBytes(infos)|
    decreases |infos|
  {
    hide InfoBytes;
    if k > 0 {
      assert infos[k..k + n] == infos[1..][k - 1..k - 1 + n];
      SliceSmaller(infos[1..], k - 1, n);
    } else if n > 0 {
      assert infos[0..n][0] == infos[0] && infos[0..n][1..] == infos[1..][0..n - 1];
      SliceSmaller(infos[1..], 0, n - 1);
    }
  }

  lemma {:induction false} GoodInfos(w: Meaning, sites: seq<Site>)
    requires GoodSites(w, sites)
    ensures AllInfos(Infos(w, sites))
  {
    hide Counted;
    forall i | 0 <= i < |sites| ensures Infos(w, sites)[i].Valid() { assert GoodSite(w, sites[i]); }
  }

  lemma {:induction false} DictionaryFits(w: Meaning, t: Threads, threshold: nat, item: Item, capacity: nat)
    requires Meaningful(w, t, threshold) && item.Dictionary? && IsSlice(item.entries, t.sites)
    ensures GoodSites(w, item.entries) && Fits(w, item, capacity)
  {
    hide GoodSite, AllInfoBytes, AllGood, Pow256;
    var entries := item.entries;
    var k :| 0 <= k <= |t.sites| && SliceAt(entries, t.sites, k);
    forall j | 0 <= j < |entries| ensures GoodSite(w, entries[j]) { assert entries[j] == t.sites[k + j]; }
    GoodInfos(w, t.sites);
    assert Infos(w, entries) == Infos(w, t.sites)[k..k + |entries|];
    SliceSmaller(Infos(w, t.sites), k, |entries|);
  }

  /** The size of the records is that of the entries they stand for. */
  lemma {:induction false} SizeOfEntries(w: Meaning, sites: seq<Site>, msgs: seq<Msg>)
    requires AllGood(w, sites, msgs)
    ensures AllEntries(EntriesOf(w, msgs)) && |Uncompressed(EntriesOf(w, msgs))| == Size(msgs)
  {
    hide LoggedBy, NibblesOf, GoodSite;
    forall i | 0 <= i < |msgs| ensures w.entry(msgs[i]).Valid() && w.entry(msgs[i]).Size() == msgs[i].size {
      GoodMsgParts(w, sites, msgs[i]);
    }
    hide GoodMsg;
    if msgs != [] {
      assert EntriesOf(w, msgs)[1..] == EntriesOf(w, msgs[1..]);
      SizeOfEntries(w, sites, msgs[1..]);
    }
  }

  lemma {:induction false} ChunkFits(w: Meaning, sites: seq<Site>, item: Item, threshold: nat, stagingBufferSize: nat)
    requires item.Extent? && item.bufferId < Pow256(4) && AllGood(w, sites, item.msgs)
    requires Size(item.msgs) <= threshold <= stagingBufferSize / 2
    ensures Fits(w, item, stagingBufferSize + EXTENT_HEADER + 4)
  {
    SizeOfEntries(w, sites, item.msgs);
    hide AllGood, Uncompressed, Pow256, Entries.Extent, AllNibbles;
    var entries, nibbles := EntriesOf(w, item.msgs), NibblesOfAll(w, item.msgs);
    if AllNibbles(entries, nibbles) { ExtentFits(item.wrapAround, item.bufferId, entries, nibbles, stagingBufferSize); }
  }

  lemma {:induction false} ExtentItemFits(w: Meaning, t: Threads, log: seq<Item>, k: nat, threshold: nat, stagingBufferSize: nat)
    requires BuffersOk(t, log) && Conserved(t, log) && Meaningful(w, t, threshold) && threshold <= stagingBufferSize / 2
    requires k < |log| && log[k].Extent? && ItemShape(log[k], t.sites, threshold)
    ensures AllGood(w, t.sites, log[k].msgs) && Fits(w, log[k], stagingBufferSize + EXTENT_HEADER + 4)
  {
    var item := log[k];
    hide GoodMsg, GoodSites, Conserved, Pow256, Fits, Distinct;
    forall j | 0 <= j < |item.msgs| ensures GoodMsg(w, t.sites, item.msgs[j]) && item.msgs[j].size < threshold {
      InLogIsCommitted(t, log, k, item.msgs[j]);
    }
    assert item in log && item.bufferId in t.committed;
    ChunkFits(w, t.sites, item, threshold, stagingBufferSize);
  }

  /** A log file: what lies between a checkpoint and the next one. */
  predicate FileIn(log: seq<Item>, from: nat, items: seq<Item>) {
    && 0 < from && from + |items| <= |log| && log[from - 1].Checkpoint?
    && log[from..from + |items|] == items && NoCheckpoint(items)
  }

  /** What is resolved in the log is resolved from what a reader knows at any point of it. */
  lemma {:induction false} ResolvedTail(log: seq<Item>, pos: nat, items: seq<Item>, d: seq<Site>, sites: seq<Site>)
    requires AllResolved(log, sites) && pos + |items| <= |log| && log[pos..pos + |items|] == items
    requires DictAfter([], log[..pos]) == d
    ensures ResolvedFrom(d, items, sites)
    decreases |items|
  {
    hide Resolved, DictStep;
    if items != [] {
      assert log[pos] == items[0];
      assert Resolved(DictAfter([], log[..pos]), log[pos], sites);
      assert log[..pos + 1] == log[..pos] + [log[pos]];
      DictAfterAppend([], log[..pos], [log[pos]]);
      OneStep(d, items[0]);
      assert log[pos + 1..pos + 1 + |items[1..]|] == items[1..];
      ResolvedTail(log, pos + 1, items[1..], DictStep(d, items[0]), sites);
    }
  }

  lemma {:induction false} OneStep(d: seq<Site>, item: Item)
    ensures DictAfter(d, [item]) == DictStep(d, item)
  {
    assert [item][1..] == [];
  }

  /** A checkpoint makes a reader forget. */
  lemma {:induction false} FreshFile(log: seq<Item>, from: nat)
    requires 0 < from <= |log| && log[from - 1].Checkpoint?
    ensures DictAfter([], log[..from]) == []
  {
    assert log[..from] == log[..from - 1] + [log[from - 1]];
    DictAfterAppend([], log[..from - 1], [log[from - 1]]);
    OneStep(DictAfter([], log[..from - 1]), log[from - 1]);
  }

  lemma {:induction false} ItemsGood(w: Meaning, t: Threads, log: seq<Item>, threshold: nat, from: nat, items: seq<Item>,
                                     stagingBufferSize: nat)
    requires BuffersOk(t, log) && Conserved(t, log) && LogShape(log, t.sites, threshold)
    requires Meaningful(w, t, threshold) && threshold <= stagingBufferSize / 2 && FileIn(log, from, items)
    ensures GoodItems(w, t.sites, items, stagingBufferSize + EXTENT_HEADER + 4)
  {
    hide Conserved, BuffersOk, Fits, AllGood, GoodSites, Meaningful;
    var capacity := stagingBufferSize + EXTENT_HEADER + 4;
    forall i | 0 <= i < |items| ensures GoodItem(w, t.sites, items[i]) && Fits(w, items[i], capacity) {
      assert items[i] == log[from + i];
      assert ItemShape(log[from + i], t.sites, threshold);
      match items[i]
      case Checkpoint =>
      case Dictionary(entries) => DictionaryFits(w, t, threshold, items[i], capacity);
      case Extent(id, _, msgs) => ExtentItemFits(w, t, log, from + i, threshold, stagingBufferSize);
    }
  }

  lemma {:induction false} FileInLog(o: Output, from: nat, items: seq<Item>)
    requires FileIn(o.file, from, items)
    ensures FileIn(Log(o), from, items)
  {
  }

  lemma {:induction false} InvParts(s: State)
    requires Inv(s) && CatalogOk(s)
    ensures BuffersOk(s.threads, Log(s.output)) && Conserved(s.threads, Log(s.output))
    ensures AllResolved(Log(s.output), s.threads.sites)
  {
  }

  lemma {:induction false} FileInParts(log: seq<Item>, from: nat, items: seq<Item>)
    requires FileIn(log, from, items)
    ensures 0 < from && from + |items| <= |log| && log[from - 1].Checkpoint? && log[from..from + |items|] == items
    ensures NoCheckpoint(items)
  {
  }

  lemma {:induction false} NothingHeld(w: Meaning)
    ensures Holds(w, [], [])
  {
  }

  /** What the decoder makes of a file. */
  predicate FileOk(w: Meaning, items: seq<Item>, stagingBufferSize: nat) {
    NoCheckpoint(items) && WellFormed(BlocksOf(w, items, []), [], stagingBufferSize + EXTENT_HEADER + 4)
  }

  function FileOutput(w: Meaning, items: seq<Item>, stagingBufferSize: nat): seq<Message>
    requires FileOk(w, items, stagingBufferSize)
  {
    FileMessages(BlocksOf(w, items, []), [], stagingBufferSize + EXTENT_HEADER + 4)
  }

  /** At every moment of every run: a log file written so far is one that the decoder can read, and
      the messages that it shows of a thread, in their order, are those that the file holds of it,
      each with the id, the time and the argument values that were logged. */
  lemma {:induction false} FileIsReadable(states: seq<State>, acts: seq<Action>, threshold: nat, i: nat, w: Meaning,
                                          from: nat, items: seq<Item>, stagingBufferSize: nat, id: nat)
    requires IsRun(states, acts, threshold) && i < |states| && Meaningful(w, states[i].threads, threshold)
    requires threshold <= stagingBufferSize / 2 && FileIn(states[i].output.file, from, items)
    ensures FileOk(w, items, stagingBufferSize) && AllGood(w, states[i].threads.sites, MsgsOf(id, items))
    ensures OfThread(id, FileOutput(w, items, stagingBufferSize)) == AllShown(w, states[i].threads.sites, id, MsgsOf(id, items))
  {
    var s := states[i];
    var log := Log(s.output);
    hide *;
    RunInv(states, acts, threshold, i);
    RunShape(states, acts, threshold, i);
    InvParts(s);
    FileInLog(s.output, from, items);
    FileInParts(log, from, items);
    ItemsGood(w, s.threads, log, threshold, from, items, stagingBufferSize);
    FreshFile(log, from);
    ResolvedTail(log, from, items, [], s.threads.sites);
    NothingHeld(w);
    FileShows(w, s.threads.sites, [], [], items, stagingBufferSize + EXTENT_HEADER + 4, id);
    FileOkIs(w, items, stagingBufferSize);
  }

  lemma {:induction false} FileOkIs(w: Meaning, items: seq<Item>, stagingBufferSize: nat)
    requires NoCheckpoint(items) && WellFormed(BlocksOf(w, items, []), [], stagingBufferSize + EXTENT_HEADER + 4)
    ensures FileOk(w, items, stagingBufferSize)
    ensures FileOutput(w, items, stagingBufferSize)
            == FileMessages(BlocksOf(w, items, []), [], stagingBufferSize + EXTENT_HEADER + 4)
  {
  }

  // ---- All files of a run ----

  /** The output of a run cut into files; it begins with a checkpoint. */
  function Files(log: seq<Item>): seq<seq<Item>> {
    if log == [] then []
    else
      var before, last := Files(log[..|log| - 1]), log[|log| - 1];
      if last.Checkpoint? then before + [[]]
      else if before == [] then []
      else before[..|before| - 1] + [before[|before| - 1] + [last]]
  }

  predicate IsFile(log: seq<Item>, items: seq<Item>) {
    exists from :: 0 <= from <= |log| && FileIn(log, from, items)
  }

  lemma {:induction false} FilesAre(log: seq<Item>)
    ensures forall k | 0 <= k < |Files(log)| :: IsFile(log, Files(log)[k])
    ensures var n := |Files(log)|; n > 0 ==> var last := Files(log)[n - 1];
              |last| <= |log| && FileIn(log, |log| - |last|, last)
  {
    hide *;
    if log == [] {
      NoFiles();
    } else {
      var init, item := log[..|log| - 1], log[|log| - 1];
      assert log == init + [item];
      FilesAre(init);
      FilesStep(init, item);
      var before, files := Files(init), Files(log);
      forall k | 0 <= k < |before| ensures IsFile(log, before[k]) { StillFile(init, item, before[k]); }
      if item.Checkpoint? {
        NewFile(init, item);
      } else if before != [] {
        LongerFile(init, item, before[|before| - 1]);
      }
    }
  }

  lemma {:induction false} NoFiles()
    ensures Files([]) == []
  {
  }

  lemma {:induction false} FilesStep(init: seq<Item>, item: Item)
    ensures var before, files := Files(init), Files(init + [item]);
            && (item.Checkpoint? ==> files == before + [[]])
            && (!item.Checkpoint? && before == [] ==> files == [])
            && (!item.Checkpoint? && before != [] ==>
                  files == before[..|before| - 1] + [before[|before| - 1] + [item]])
  {
    assert (init + [item])[..|init|] == init;
  }

  lemma {:induction false} StillFile(init: seq<Item>, item: Item, file: seq<Item>)
    requires IsFile(init, file)
    ensures IsFile(init + [item], file)
  {
    hide NoCheckpoint;
    var from :| 0 <= from <= |init| && FileIn(init, from, file);
    assert FileIn(init + [item], from, file);
  }

  lemma {:induction false} NewFile(init: seq<Item>, item: Item)
    requires item.Checkpoint?
    ensures var log := init + [item]; FileIn(log, |log|, []) && IsFile(log, [])
  {
    var log := init + [item];
    assert FileIn(log, |log|, []);
  }

  lemma {:induction false} LongerFile(init: seq<Item>, item: Item, last: seq<Item>)
    requires |last| <= |init| && FileIn(init, |init| - |last|, last) && !item.Checkpoint?
    ensures FileIn(init + [item], |init| - |last|, last + [item]) && IsFile(init + [item], last + [item])
  {
    assert FileIn(init + [item], |init| - |last|, last + [item]);
  }

  /** The messages of one buffer, file by file. */
  function MsgsOfFiles(id: nat, files: seq<seq<Item>>): seq<Msg> {
    if files == [] then [] else MsgsOfFiles(id, files[..|files| - 1]) + MsgsOf(id, files[|files| - 1])
  }

  /** Nothing is between the files. */
  lemma {:induction false} FilesHoldAll(log: seq<Item>, id: nat)
    requires log != [] ==> log[0].Checkpoint?
    ensures MsgsOfFiles(id, Files(log)) == MsgsOf(id, log)
    ensures log != [] ==> Files(log) != []
  {
    hide MsgsOf;
    NoneOfNothing(id);
    if log != [] {
      var init, item := log[..|log| - 1], log[|log| - 1];
      FilesHoldAll(init, id);
      assert log == init + [item];
      MsgsOfSnoc(id, init, item);
      var before := Files(init);
      if item.Checkpoint? {
        assert (before + [[]])[..|before|] == before;
      } else {
        var last := before[|before| - 1];
        var files := before[..|before| - 1] + [last + [item]];
        assert files[..|files| - 1] == before[..|before| - 1];
        MsgsOfSnoc(id, last, item);
      }
    }
  }

  lemma {:induction false} NoneOfNothing(id: nat)
    ensures MsgsOf(id, []) == []
  {
  }

  predicate FilesOk(w: Meaning, files: seq<seq<Item>>, stagingBufferSize: nat) {
    forall k :: 0 <= k < |files| ==> FileOk(w, files[k], stagingBufferSize)
  }

  /** What the decoder shows of a thread, file by file. */
  function ThreadOutput(w: Meaning, files: seq<seq<Item>>, stagingBufferSize: nat, id: nat): seq<Message>
    requires FilesOk(w, files, stagingBufferSize)
  {
    if files == [] then []
    else
      var n := |files| - 1;
      ThreadOutput(w, files[..n], stagingBufferSize, id) + OfThread(id, FileOutput(w, files[n], stagingBufferSize))
  }

  lemma {:induction false} OutputIsShown(w: Meaning, sites: seq<Site>, files: seq<seq<Item>>, stagingBufferSize: nat, id: nat)
    requires FilesOk(w, files, stagingBufferSize)
    requires forall k :: 0 <= k < |files| ==>
               && AllGood(w, sites, MsgsOf(id, files[k]))
               && OfThread(id, FileOutput(w, files[k], stagingBufferSize)) == AllShown(w, sites, id, MsgsOf(id, files[k]))
    ensures AllGood(w, sites, MsgsOfFiles(id, files))
    ensures ThreadOutput(w, files, stagingBufferSize, id) == AllShown(w, sites, id, MsgsOfFiles(id, files))
  {
    hide AllGood, AllShown, FileOk, FileOutput, MsgsOf;
    if files == [] {
      NothingShown(w, sites, id);
    } else {
      var n := |files| - 1;
      assert forall k :: 0 <= k < n ==> files[..n][k] == files[k];
      OutputIsShown(w, sites, files[..n], stagingBufferSize, id);
      ShownAppend(w, sites, id, MsgsOfFiles(id, files[..n]), MsgsOf(id, files[n]));
    }
  }

  /** At every moment of every run: all files written so far can be read, and what the decoder shows of
      a thread, file by file, is what the run has written of it. */
  lemma {:induction false} FilesAreReadable(states: seq<State>, acts: seq<Action>, threshold: nat, i: nat, w: Meaning,
                                            stagingBufferSize: nat, id: nat)
    requires IsRun(states, acts, threshold) && i < |states| && Meaningful(w, states[i].threads, threshold)
    requires threshold <= stagingBufferSize / 2
    ensures var sites, file := states[i].threads.sites, states[i].output.file;
            && FilesOk(w, Files(file), stagingBufferSize) && AllGood(w, sites, MsgsOf(id, file))
            && ThreadOutput(w, Files(file), stagingBufferSize, id) == AllShown(w, sites, id, MsgsOf(id, file))
  {
    hide *;
    var sites, file := states[i].threads.sites, states[i].output.file;
    var files := Files(file);
    FilesAre(file);
    forall k | 0 <= k < |files|
      ensures FileOk(w, files[k], stagingBufferSize) && AllGood(w, sites, MsgsOf(id, files[k]))
      ensures OfThread(id, FileOutput(w, files[k], stagingBufferSize)) == AllShown(w, sites, id, MsgsOf(id, files[k]))
    {
      var from := FileAt(file, files[k]);
      FileIsReadable(states, acts, threshold, i, w, from, files[k], stagingBufferSize, id);
    }
    FilesOkIs(w, files, stagingBufferSize);
    OutputIsShown(w, sites, files, stagingBufferSize, id);
    RunShape(states, acts, threshold, i);
    FileBegins(states[i].output, sites, threshold);
    FilesHoldAll(file, id);
  }

  lemma {:induction false} FileAt(log: seq<Item>, items: seq<Item>) returns (from: nat)
    requires IsFile(log, items)
    ensures FileIn(log, from, items)
  {
    from :| 0 <= from <= |log| && FileIn(log, from, items);
  }

  lemma {:induction false} FilesOkIs(w: Meaning, files: seq<seq<Item>>, stagingBufferSize: nat)
    requires forall k | 0 <= k < |files| :: FileOk(w, files[k], stagingBufferSize)
    ensures FilesOk(w, files, stagingBufferSize)
  {
  }

  lemma {:induction false} FileBegins(o: Output, sites: seq<Site>, threshold: nat)
    requires LogShape(Log(o), sites, threshold)
    ensures o.file != [] ==> o.file[0].Checkpoint?
  {
  }

  /** What the decoder shows of a thread is the beginning of what the thread has logged. */
  lemma {:induction false} DecodedIsLogged(states: seq<State>, acts: seq<Action>, threshold: nat, i: nat, w: Meaning,
                                           stagingBufferSize: nat, id: nat)
    requires IsRun(states, acts, threshold) && i < |states| && Meaningful(w, states[i].threads, threshold)
    requires threshold <= stagingBufferSize / 2 && id in states[i].threads.committed
    ensures var t, files := states[i].threads, Files(states[i].output.file);
            && FilesOk(w, files, stagingBufferSize) && AllGood(w, t.sites, t.committed[id])
            && ThreadOutput(w, files, stagingBufferSize, id) <= AllShown(w, t.sites, id, t.committed[id])
  {
    var s := states[i];
    hide *;
    FilesAreReadable(states, acts, threshold, i, w, stagingBufferSize, id);
    Conservation(states, acts, threshold, i, id);
    MeaningfulAt(w, s.threads, threshold, id);
    ShownPrefix(w, s.threads.sites, id, MsgsOf(id, s.output.file), s.threads.committed[id]);
  }

  lemma {:induction false} MeaningfulAt(w: Meaning, t: Threads, threshold: nat, id: nat)
    requires Meaningful(w, t, threshold) && id in t.committed
    ensures AllGood(w, t.sites, t.committed[id])
  {
    hide GoodMsg, GoodSite, AllInfoBytes, Pow256;
  }

  lemma {:induction false} ShownPrefix(w: Meaning, sites: seq<Site>, id: nat, a: seq<Msg>, b: seq<Msg>)
    requires AllGood(w, sites, b) && a <= b
    ensures AllGood(w, sites, a) && AllShown(w, sites, id, a) <= AllShown(w, sites, id, b)
  {
    hide GoodMsg, Shown;
  }

  /** And once a sync has completed during which no pass deleted its first buffer while others
      remained, the decoder shows all that the thread had logged before the request. */
  lemma {:induction false} SyncedIsDecoded(states: seq<State>, acts: seq<Action>, threshold: nat, r: nat, e: nat,
                                           w: Meaning, stagingBufferSize: nat, id: nat)
    requires IsRun(states, acts, threshold) && Latest(acts, r, e) && |states| == |acts| + 1
    requires forall d | r < d < e :: !SkipsOthers(states[d], acts[d])
    requires states[e].sync.status == SyncCompleted && id in states[r].threads.committed
    requires Meaningful(w, states[e].threads, threshold) && threshold <= stagingBufferSize / 2
    ensures var sites, files, before := states[e].threads.sites, Files(states[e].output.file), states[r].threads.committed[id];
            && FilesOk(w, files, stagingBufferSize) && AllGood(w, sites, before)
            && AllShown(w, sites, id, before) <= ThreadOutput(w, files, stagingBufferSize, id)
  {
    var s := states[e];
    hide *;
    FilesAreReadable(states, acts, threshold, e, w, stagingBufferSize, id);
    SyncSafety(states, acts, threshold, r, e, id);
    ShownPrefix(w, s.threads.sites, id, states[r].threads.committed[id], MsgsOf(id, s.output.file));
  }
}
