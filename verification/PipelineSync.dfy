/** sync(): when syncStatus becomes SYNC_COMPLETED, everything logged before the latest request is in
    the file, except what was logged into buffers that the last pass missed. */
module PipelineSync {
  import opened Pipeline
  import opened PipelineInvariants

  /** Of every thread, but for those whose buffers were missed, at least the messages that the
      latest request saw are in `items`. */
  ghost predicate Covers(items: seq<Item>, snapshot: map<nat, nat>, missed: set<nat>) {
    forall id <- snapshot :: id in missed || snapshot[id] <= |MsgsOf(id, items)|
  }

  lemma CoversAppend(xs: seq<Item>, ys: seq<Item>, snapshot: map<nat, nat>, missed: set<nat>)
    requires Covers(xs, snapshot, missed)
    ensures Covers(xs + ys, snapshot, missed)
  {
    forall id <- snapshot ensures id in missed || snapshot[id] <= |MsgsOf(id, xs + ys)| {
      MsgsOfAppend(id, xs, ys);
    }
  }

  ghost predicate SnapshotOk(t: Threads, snapshot: map<nat, nat>) {
    forall id <- snapshot :: id in t.committed && snapshot[id] <= |t.committed[id]|
  }

  predicate InPass(c: Control) {
    c.Scanning? || c.CheckingDelete? || c.Encoding? || c.Relocking? || c.Scanned?
  }

  /** Index j lies on the way that the scan has gone from its start `last` to `i`. */
  predicate Leg(last: nat, i: nat, j: nat) {
    if last <= i then last <= j < i else j >= last || j < i
  }

  predicate Behind(c: Scan, j: nat) {
    match c.control
    case Scanning(i) => Leg(c.last, i, j)
    case CheckingDelete(i) => Leg(c.last, i, j) || j == i
    case Encoding(i, _) => Leg(c.last, i, j)
    case _ => true
  }

  /** Of the buffers `ids`, those that lie behind the scan were found empty or are missed. */
  ghost predicate Visited(bufs: seq<Buffer>, c: Scan, ids: set<nat>) {
    forall j | 0 <= j < |bufs| && Behind(c, j) && bufs[j].id in ids :: bufs[j].id in c.foundEmpty + c.missed
  }

  /** What the second pass has established, as long as it finds nothing to encode. */
  ghost predicate PassOk(t: Threads, written: seq<Item>, c: Scan, snapshot: map<nat, nat>) {
    && (forall id <- c.foundEmpty :: id in snapshot ==> snapshot[id] <= |MsgsOf(id, written)|)
    && Visited(t.bufs, c, snapshot.Keys)
  }

  function Written(o: Output): seq<Item> { o.file + o.inflight }

  ghost predicate StatusOk(s: State) {
    match s.sync.status
    case SyncRequested => true
    case PerformingSecondPass =>
      InPass(s.scan.control) && s.output.encoder == [] ==>
        PassOk(s.threads, Written(s.output), s.scan, s.sync.snapshot)
    case WaitingOnAio => Covers(Written(s.output), s.sync.snapshot, s.sync.missed)
    case SyncCompleted => Covers(s.output.file, s.sync.snapshot, s.sync.missed)
  }

  ghost predicate SyncInv(s: State) {
    SnapshotOk(s.threads, s.sync.snapshot) && StatusOk(s)
  }

  lemma OutsideSync(s: State, a: Action, threshold: nat)
    requires Inv(s) && SyncInv(s) && Enabled(s, a, threshold)
    requires a.Commit? || a.Register? || a.AddBuffer? || a.Die? || a.RequestSync? || a.RequestExit?
    ensures SyncInv(Apply(s, a, threshold))
  {
    hide Conserved, Covers, IndicesOk, OutputOk;
  }

  /** The steps outside a pass, and those of a pass that leave something in the encoder. */
  lemma BusySync(s: State, a: Action, threshold: nat)
    requires Inv(s) && SyncInv(s) && Enabled(s, a, threshold)
    requires a.Relaunch? || a.Encode? || a.EncodeNothing? || a.Relock? || a.AioPending? || a.Stop?
    ensures SyncInv(Apply(s, a, threshold))
  {
    hide Conserved, Covers, BuffersOk, PassOk, Advance;
  }

  lemma BeginPassSync(s: State, a: Action, threshold: nat)
    requires Inv(s) && SyncInv(s) && Enabled(s, a, threshold) && a.BeginPass?
    ensures SyncInv(Apply(s, a, threshold))
  {
    hide Conserved, Covers, BuffersOk;
  }

  lemma AioSync(s: State, a: Action, threshold: nat)
    requires Inv(s) && SyncInv(s) && Enabled(s, a, threshold)
    requires a.AioDone? || a.Notify? || a.StartAio?
    ensures SyncInv(Apply(s, a, threshold))
  {
    hide Conserved, Covers, BuffersOk, PassOk;
    var t := Apply(s, a, threshold);
    match a
    case AioDone =>
      assert Written(t.output) == Written(s.output);
      if s.sync.status.SyncCompleted? {
        CoversAppend(s.output.file, s.output.inflight, s.sync.snapshot, s.sync.missed);
      }
    case Notify => assert Written(s.output) == s.output.file;
    case StartAio =>
      assert Written(s.output) == s.output.file;
      if s.sync.status.WaitingOnAio? {
        CoversAppend(s.output.file, t.output.inflight, s.sync.snapshot, s.sync.missed);
      }
  }

  lemma PeekSync(s: State, a: Action, threshold: nat)
    requires Inv(s) && SyncInv(s) && Enabled(s, a, threshold) && a.Peek?
    ensures SyncInv(Apply(s, a, threshold))
  {
    var t := Apply(s, a, threshold);
    var buf := s.threads.bufs[s.scan.control.i];
    if a.taken == 0 && s.output.encoder == [] && buf.id in s.sync.snapshot {
      EmptyIsCovered(s, buf.id, s.scan.control.i);
    }
    hide Conserved, Covers, BuffersOk;
  }

  lemma EmptyIsCovered(s: State, id: nat, i: nat)
    requires Inv(s) && SnapshotOk(s.threads, s.sync.snapshot) && id in s.sync.snapshot
    requires s.output.encoder == []
    requires i < |s.threads.bufs| && s.threads.bufs[i].id == id && s.threads.bufs[i].unread == []
    ensures s.sync.snapshot[id] <= |MsgsOf(id, Written(s.output))|
  {
    UnreadAt(s.threads.bufs, i);
    assert Log(s.output) == Written(s.output);
  }

  lemma GoneIsCovered(s: State, id: nat)
    requires Inv(s) && SnapshotOk(s.threads, s.sync.snapshot) && id in s.sync.snapshot
    requires s.output.encoder == []
    requires forall b <- s.threads.bufs :: b.id != id
    ensures s.sync.snapshot[id] <= |MsgsOf(id, Written(s.output))|
  {
    UnreadAbsent(s.threads.bufs, id);
    assert Log(s.output) == Written(s.output);
  }

  lemma PassCovers(s: State)
    requires Inv(s) && SyncInv(s) && s.scan.control.Scanned?
    requires s.output.encoder == [] && s.sync.status.PerformingSecondPass?
    ensures Covers(Written(s.output), s.sync.snapshot, s.scan.missed)
  {
    forall id <- s.sync.snapshot
      ensures id in s.scan.missed || s.sync.snapshot[id] <= |MsgsOf(id, Written(s.output))|
    {
      if b :| b in s.threads.bufs && b.id == id {
        var j :| 0 <= j < |s.threads.bufs| && s.threads.bufs[j] == b;
        assert Behind(s.scan, j);
      } else {
        GoneIsCovered(s, id);
      }
    }
  }

  lemma CheckEncoderSync(s: State, threshold: nat)
    requires Inv(s) && SyncInv(s) && Enabled(s, CheckEncoder, threshold)
    ensures SyncInv(Apply(s, CheckEncoder, threshold))
  {
    if s.output.encoder == [] && s.sync.status.PerformingSecondPass? {
      PassCovers(s);
      if !s.output.outstanding { assert Written(s.output) == s.output.file; }
    }
    hide Conserved, BuffersOk, PassOk, Covers;
  }

  /** Moving on from index i: what lies behind afterwards lay behind before, or was i. */
  lemma LegAdvance(c: Scan, i: nat, n: nat, j: nat)
    requires i < n && c.last < n && j < n && !c.full
    requires Behind(Advance(c, i, n), j)
    ensures Leg(c.last, i, j) || j == i
  {
    if i + 1 < n {
      SmallMod(i + 1, n);
    } else {
      SelfMod(n);
    }
  }

  lemma SmallMod(a: nat, n: nat)
    requires a < n
    ensures a % n == a
  {
  }

  lemma SelfMod(n: nat)
    requires n > 0
    ensures n % n == 0
  {
  }

  /** The same after deleting index i, unless the scan started there; indices above i shift down. */
  lemma LegDelete(c: Scan, i: nat, remaining: nat, j: nat)
    requires i <= remaining && c.last <= remaining && j < remaining && !c.full && i != c.last
    requires Behind(ScanAfterDelete(c, i, remaining), j)
    ensures Leg(c.last, i, if j < i then j else j + 1)
  {
    if i < remaining {
      SmallMod(i, remaining);
    } else {
      SelfMod(remaining);
    }
  }

  /** Deleting the buffer where the scan started leaves behind it only those it misses. */
  lemma LegSkip(c: Scan, bufs: seq<Buffer>, j: nat)
    requires c.last < |bufs| && j < |bufs| - 1 && !c.full
    requires Behind(ScanAfterDelete(c, c.last, |bufs| - 1), j)
    ensures (bufs[..c.last] + bufs[c.last + 1..])[j].id in MissedFrom(bufs, c.last)
  {
    if c.last == 0 {
      assert (bufs[..0] + bufs[1..])[j] == bufs[1..][j];
    } else if c.last < |bufs| - 1 {
      SmallMod(c.last, |bufs| - 1);
    } else {
      SelfMod(|bufs| - 1);
    }
  }

  /** Dealing with buffer i, found empty, keeps `Visited`. */
  lemma DecideDeleteVisits(s: State, threshold: nat, ids: set<nat>)
    requires Inv(s) && Enabled(s, DecideDelete, threshold) && !s.scan.full
    requires Visited(s.threads.bufs, s.scan, ids)
    ensures var t := Apply(s, DecideDelete, threshold); Visited(t.threads.bufs, t.scan, ids)
  {
    hide Conserved, BuffersOk, Advance, ScanAfterDelete, Behind, Leg, MissedFrom;
    var t := Apply(s, DecideDelete, threshold);
    var i, n := s.scan.control.i, |s.threads.bufs|;
    var more := s.scan.(missed := s.scan.missed + MissedFrom(s.threads.bufs, i));
    DeleteIndex(s.scan, i, n - 1);
    DeleteIndex(more, i, n - 1);
    AdvanceIndex(s.scan, i, n);
    forall j | 0 <= j < |t.threads.bufs| && Behind(t.scan, j) && t.threads.bufs[j].id in ids
      ensures t.threads.bufs[j].id in t.scan.foundEmpty + t.scan.missed
    {
      var old_j := if |t.threads.bufs| == n || j < i then j else j + 1;
      assert t.threads.bufs[j].id == s.threads.bufs[old_j].id;
      if |t.threads.bufs| < n && i == s.scan.last {
        LegSkip(more, s.threads.bufs, j);
      } else {
        if |t.threads.bufs| == n { LegAdvance(s.scan, i, n, j); } else { LegDelete(s.scan, i, n - 1, j); }
        BehindChecking(s.scan, old_j);
      }
    }
  }

  lemma DecideDeleteSync(s: State, threshold: nat)
    requires Inv(s) && SyncInv(s) && Enabled(s, DecideDelete, threshold)
    ensures SyncInv(Apply(s, DecideDelete, threshold))
  {
    var t := Apply(s, DecideDelete, threshold);
    if s.sync.status.PerformingSecondPass? && s.output.encoder == [] {
      DecideDeleteVisits(s, threshold, s.sync.snapshot.Keys);
    }
    hide Conserved, BuffersOk, Covers, Visited, IndicesOk, DoDecideDelete;
    DecideHistory(s, s.scan.control.i);
  }

  lemma DecideHistory(s: State, i: nat)
    requires IndicesOk(s.threads.bufs, s.scan) && i < |s.threads.bufs|
    ensures var t := DoDecideDelete(s, i);
            && t.sync == s.sync && t.output == s.output && t.threads.committed == s.threads.committed
            && t.scan.foundEmpty == s.scan.foundEmpty
            && (t.scan.control.Scanned? || t.scan.control.Scanning?)
  {
    hide Advance, ScanAfterDelete, MissedFrom;
    var n, c := |s.threads.bufs|, s.scan;
    AdvanceIndex(c, i, n);
    DeleteIndex(if i == c.last then c.(missed := c.missed + MissedFrom(s.threads.bufs, i)) else c, i, n - 1);
  }

  lemma BehindChecking(c: Scan, j: nat)
    requires c.control.CheckingDelete?
    ensures Behind(c, j) == (Leg(c.last, c.control.i, j) || j == c.control.i)
  {
  }

  lemma StepSync(s: State, a: Action, threshold: nat)
    requires Inv(s) && SyncInv(s) && Enabled(s, a, threshold)
    ensures SyncInv(Apply(s, a, threshold))
  {
    hide Inv, Enabled, Apply, SyncInv;
    match a
    case BeginPass(_, _) => BeginPassSync(s, a, threshold);
    case AioDone => AioSync(s, a, threshold);
    case Notify => AioSync(s, a, threshold);
    case StartAio => AioSync(s, a, threshold);
    case Peek(_) => PeekSync(s, a, threshold);
    case DecideDelete => DecideDeleteSync(s, threshold);
    case CheckEncoder => CheckEncoderSync(s, threshold);
    case Relaunch => BusySync(s, a, threshold);
    case Encode(_) => BusySync(s, a, threshold);
    case EncodeNothing(_) => BusySync(s, a, threshold);
    case Relock => BusySync(s, a, threshold);
    case AioPending => BusySync(s, a, threshold);
    case Stop => BusySync(s, a, threshold);
    case _ => OutsideSync(s, a, threshold);
  }
}
