/** Conservation of messages, valid indices, one write at a time, and dictionary entries written
    before they are used: invariants of every run of the pipeline. */
module PipelineInvariants {
  import opened Pipeline

  /** The messages of one buffer in a stretch of log. */
  function MsgsOf(id: nat, items: seq<Item>): seq<Msg> {
    if items == [] then []
    else (match items[0]
          case Extent(b, _, msgs) => if b == id then msgs else []
          case _ => []) + MsgsOf(id, items[1..])
  }

  lemma {:induction false} MsgsOfAppend(id: nat, xs: seq<Item>, ys: seq<Item>)
    ensures MsgsOf(id, xs + ys) == MsgsOf(id, xs) + MsgsOf(id, ys)
  {
    if xs == [] {
      assert xs + ys == ys;
    } else {
      MsgsOfAppend(id, xs[1..], ys);
      assert (xs + ys)[1..] == xs[1..] + ys;
    }
  }

  lemma MsgsOfSnoc(id: nat, xs: seq<Item>, y: Item)
    ensures MsgsOf(id, xs + [y]) == MsgsOf(id, xs) + (if y.Extent? && y.bufferId == id then y.msgs else [])
  {
    MsgsOfAppend(id, xs, [y]);
    assert [y][1..] == [];
  }

  lemma {:induction false} NoMsgs(id: nat, items: seq<Item>)
    requires forall it <- items :: it.Extent? ==> it.bufferId != id
    ensures MsgsOf(id, items) == []
  {
    if items != [] { NoMsgs(id, items[1..]); }
  }

  /** What is still unread of one buffer; nothing once the buffer has been deleted. */
  function UnreadOf(bufs: seq<Buffer>, id: nat): seq<Msg> {
    if bufs == [] then [] else if bufs[0].id == id then bufs[0].unread else UnreadOf(bufs[1..], id)
  }

  predicate Distinct(bufs: seq<Buffer>) {
    forall j, k :: 0 <= j < k < |bufs| ==> bufs[j].id != bufs[k].id
  }

  lemma {:induction false} UnreadAt(bufs: seq<Buffer>, j: nat)
    requires Distinct(bufs) && j < |bufs|
    ensures UnreadOf(bufs, bufs[j].id) == bufs[j].unread
  {
    if j > 0 {
      assert bufs[0].id != bufs[j].id;
      UnreadAt(bufs[1..], j - 1);
    }
  }

  lemma {:induction false} UnreadAbsent(bufs: seq<Buffer>, id: nat)
    requires forall b <- bufs :: b.id != id
    ensures UnreadOf(bufs, id) == []
  {
    if bufs != [] { UnreadAbsent(bufs[1..], id); }
  }

  lemma {:induction false} UnreadUpdate(bufs: seq<Buffer>, j: nat, b: Buffer, id: nat)
    requires j < |bufs| && b.id == bufs[j].id && Distinct(bufs)
    ensures UnreadOf(bufs[j := b], id) == if id == b.id then b.unread else UnreadOf(bufs, id)
  {
    if j == 0 {
      assert bufs[j := b][1..] == bufs[1..];
    } else {
      assert bufs[0].id != bufs[j].id;
      assert bufs[j := b][1..] == bufs[1..][j - 1 := b];
      UnreadUpdate(bufs[1..], j - 1, b, id);
    }
  }

  lemma {:induction false} UnreadAdd(bufs: seq<Buffer>, b: Buffer, id: nat)
    requires b.unread == []
    ensures UnreadOf(bufs + [b], id) == UnreadOf(bufs, id)
  {
    if bufs == [] {
      assert (bufs + [b])[1..] == [];
    } else {
      assert (bufs + [b])[1..] == bufs[1..] + [b];
      UnreadAdd(bufs[1..], b, id);
    }
  }

  lemma {:induction false} UnreadRemove(bufs: seq<Buffer>, j: nat, id: nat)
    requires j < |bufs| && bufs[j].unread == [] && Distinct(bufs)
    ensures UnreadOf(bufs[..j] + bufs[j + 1..], id) == UnreadOf(bufs, id)
  {
    if j == 0 {
      assert bufs[..j] + bufs[j + 1..] == bufs[1..];
      if id == bufs[0].id { UnreadAbsent(bufs[1..], id); }
    } else {
      assert (bufs[..j] + bufs[j + 1..])[1..] == bufs[1..][..j - 1] + bufs[1..][j..];
      UnreadRemove(bufs[1..], j - 1, id);
    }
  }

  // ---- Conservation ----

  ghost predicate BuffersOk(t: Threads, log: seq<Item>) {
    && Distinct(t.bufs)
    && (forall b <- t.bufs :: b.id in t.committed)
    && (forall it <- log :: it.Extent? ==> it.bufferId in t.committed)
  }

  /** Each thread's messages are, in their order, in the file, in flight, in the encoder or unread;
      none is lost, duplicated or reordered. */
  ghost predicate Conserved(t: Threads, log: seq<Item>) {
    forall id <- t.committed :: t.committed[id] == MsgsOf(id, log) + UnreadOf(t.bufs, id)
  }

  predicate IndicesOk(bufs: seq<Buffer>, c: Scan) {
    && (if bufs == [] then c.last == 0 else c.last < |bufs|)
    && match c.control
       case Scanning(i) => i < |bufs|
       case CheckingDelete(i) => i < |bufs|
       case Relocking(i) => i < |bufs|
       case Encoding(i, held) => i < |bufs| && held != [] && held <= bufs[i].unread
       case _ => true
  }

  /** At most one write is outstanding, and only then is anything in flight. */
  predicate OutputOk(o: Output, c: Scan) {
    && (c.full ==> o.encoder != [])
    && (!o.outstanding ==> o.inflight == [])
    && (c.control.Relocking? ==> o.encoder != [])
    && (c.control.StartingAio? || c.control.Notifying? ==> !o.outstanding)
    && (c.control.Stopped? ==> o.encoder == [] && !o.outstanding)
  }

  ghost predicate Inv(s: State) {
    && BuffersOk(s.threads, Log(s.output))
    && Conserved(s.threads, Log(s.output))
    && IndicesOk(s.threads.bufs, s.scan)
    && OutputOk(s.output, s.scan)
  }

  lemma InitInv(s: State)
    requires Init(s)
    ensures Inv(s)
  {
  }

  lemma CommitKeeps(t: Threads, log: seq<Item>, b: nat, msg: Msg)
    requires BuffersOk(t, log) && Conserved(t, log) && b < |t.bufs|
    ensures var u := DoCommit(t, b, msg); BuffersOk(u, log) && Conserved(u, log)
  {
    var u := DoCommit(t, b, msg);
    UnreadAt(t.bufs, b);
    forall id <- u.committed ensures u.committed[id] == MsgsOf(id, log) + UnreadOf(u.bufs, id) {
      UnreadUpdate(t.bufs, b, u.bufs[b], id);
    }
  }

  lemma DieKeeps(t: Threads, log: seq<Item>, b: nat)
    requires BuffersOk(t, log) && Conserved(t, log) && b < |t.bufs|
    ensures var u := t.(bufs := t.bufs[b := t.bufs[b].(dead := true)]); BuffersOk(u, log) && Conserved(u, log)
  {
    var u := t.(bufs := t.bufs[b := t.bufs[b].(dead := true)]);
    UnreadAt(t.bufs, b);
    forall id <- u.committed ensures u.committed[id] == MsgsOf(id, log) + UnreadOf(u.bufs, id) {
      UnreadUpdate(t.bufs, b, u.bufs[b], id);
    }
  }

  lemma AddBufferKeeps(t: Threads, log: seq<Item>, added: nat)
    requires BuffersOk(t, log) && Conserved(t, log) && added !in t.committed
    ensures var u := DoAddBuffer(t, added); BuffersOk(u, log) && Conserved(u, log)
  {
    var u := DoAddBuffer(t, added);
    forall id <- u.committed ensures u.committed[id] == MsgsOf(id, log) + UnreadOf(u.bufs, id) {
      UnreadAdd(t.bufs, Buffer(added, [], false), id);
      if id == added { NoMsgs(id, log); UnreadAbsent(t.bufs, id); }
    }
  }

  lemma EncodeKeeps(t: Threads, log: seq<Item>, i: nat, n: nat, item: Item)
    requires BuffersOk(t, log) && Conserved(t, log) && i < |t.bufs| && n <= |t.bufs[i].unread|
    requires item.Extent? && item.bufferId == t.bufs[i].id && item.msgs == t.bufs[i].unread[..n]
    ensures var u := t.(bufs := t.bufs[i := t.bufs[i].(unread := t.bufs[i].unread[n..])]);
            BuffersOk(u, log + [item]) && Conserved(u, log + [item])
  {
    var u := t.(bufs := t.bufs[i := t.bufs[i].(unread := t.bufs[i].unread[n..])]);
    var buf, rest := t.bufs[i], t.bufs[i].unread[n..];
    assert item.msgs + rest == buf.unread;
    forall id <- u.committed ensures u.committed[id] == MsgsOf(id, log + [item]) + UnreadOf(u.bufs, id) {
      MsgsOfSnoc(id, log, item);
      UnreadAt(t.bufs, i);
      UnreadUpdate(t.bufs, i, u.bufs[i], id);
      if id == buf.id {
        assert MsgsOf(id, log) + (item.msgs + rest) == (MsgsOf(id, log) + item.msgs) + rest;
      }
    }
  }

  lemma DeleteKeeps(t: Threads, log: seq<Item>, i: nat)
    requires BuffersOk(t, log) && Conserved(t, log) && i < |t.bufs| && t.bufs[i].unread == []
    ensures var u := t.(bufs := t.bufs[..i] + t.bufs[i + 1..]); BuffersOk(u, log) && Conserved(u, log)
  {
    var u := t.(bufs := t.bufs[..i] + t.bufs[i + 1..]);
    forall id <- u.committed ensures u.committed[id] == MsgsOf(id, log) + UnreadOf(u.bufs, id) {
      UnreadRemove(t.bufs, i, id);
    }
  }

  /** Items without messages, and new sites, change no thread's messages. */
  lemma EmitKeeps(t: Threads, log: seq<Item>, item: Item)
    requires BuffersOk(t, log) && Conserved(t, log)
    requires item.Extent? ==> item.msgs == [] && item.bufferId in t.committed
    ensures BuffersOk(t, log + [item]) && Conserved(t, log + [item])
  {
    hide Distinct, MsgsOf, UnreadOf;
    forall id <- t.committed ensures t.committed[id] == MsgsOf(id, log + [item]) + UnreadOf(t.bufs, id) {
      MsgsOfSnoc(id, log, item);
    }
  }

  lemma LogEmit(o: Output, item: Item)
    ensures Log(Emit(o, item)) == Log(o) + [item]
  {
  }

  lemma OutsideInv(s: State, a: Action, threshold: nat)
    requires Inv(s) && Enabled(s, a, threshold)
    requires a.Commit? || a.Register? || a.AddBuffer? || a.Die? || a.RequestSync? || a.RequestExit?
    ensures Inv(Apply(s, a, threshold))
  {
    match a
    case Commit(b, msg) => CommitKeeps(s.threads, Log(s.output), b, msg);
    case Die(b) => DieKeeps(s.threads, Log(s.output), b);
    case AddBuffer(id) => AddBufferKeeps(s.threads, Log(s.output), id);
    case _ =>
  }

  lemma EncodeInv(s: State, a: Action, threshold: nat)
    requires Inv(s) && Enabled(s, a, threshold) && (a.Encode? || a.EncodeNothing?)
    ensures Inv(Apply(s, a, threshold))
  {
    hide Conserved, BuffersOk, Log;
    var i := s.scan.control.i;
    if a.Encode? {
      var item := Extent(s.threads.bufs[i].id, s.scan.wrapAround, s.scan.control.held[..a.n]);
      LogEmit(s.output, item);
      EncodeKeeps(s.threads, Log(s.output), i, a.n, item);
    } else if a.header {
      var item := Extent(s.threads.bufs[i].id, s.scan.wrapAround, []);
      LogEmit(s.output, item);
      BufferKnown(s.threads, Log(s.output), i);
      EmitKeeps(s.threads, Log(s.output), item);
    }
  }

  lemma BufferKnown(t: Threads, log: seq<Item>, i: nat)
    requires BuffersOk(t, log) && i < |t.bufs|
    ensures t.bufs[i].id in t.committed
  {
  }

  lemma ModBelow(a: nat, n: nat)
    requires n > 0
    ensures a % n < n
  {
  }

  /** Both ways of moving on leave the scan finished or at an index in range. */
  lemma AdvanceIndex(c: Scan, i: nat, n: nat)
    requires n > 0
    ensures var d := Advance(c, i, n);
            && d.last == c.last && d.full == c.full
            && d.foundEmpty == c.foundEmpty && d.missed == c.missed
            && (d.control.Scanned? || (d.control.Scanning? && d.control.i < n))
  {
    ModBelow(i + 1, n);
  }

  lemma DeleteIndex(c: Scan, i: nat, remaining: nat)
    requires i <= remaining && c.last <= remaining
    ensures var d := ScanAfterDelete(c, i, remaining);
            && d.full == c.full
            && (d.control.Scanned? || (d.control.Scanning? && d.control.i < remaining))
            && (if remaining == 0 then d.last == 0 else d.last < remaining)
            && d.foundEmpty == c.foundEmpty && d.missed == c.missed
  {
    if remaining > 0 { ModBelow(i, remaining); }
  }

  lemma AdvanceInv(s: State, a: Action, threshold: nat)
    requires Inv(s) && Enabled(s, a, threshold) && a.Relock?
    ensures Inv(Apply(s, a, threshold))
  {
    hide Conserved, BuffersOk, Log, Advance;
    AdvanceIndex(s.scan, s.scan.control.i, |s.threads.bufs|);
  }

  lemma DecideShape(s: State, i: nat)
    requires IndicesOk(s.threads.bufs, s.scan) && i < |s.threads.bufs|
    ensures var t, buf := DoDecideDelete(s, i), s.threads.bufs[i];
            && t.output == s.output
            && t.threads == (if buf.dead && buf.unread == []
                             then s.threads.(bufs := s.threads.bufs[..i] + s.threads.bufs[i + 1..])
                             else s.threads)
            && t.scan.full == s.scan.full
            && IndicesOk(t.threads.bufs, t.scan)
            && (t.scan.control.Scanned? || t.scan.control.Scanning?)
  {
    hide Advance, ScanAfterDelete, MissedFrom;
    var n, c := |s.threads.bufs|, s.scan;
    AdvanceIndex(c, i, n);
    DeleteIndex(if i == c.last then c.(missed := c.missed + MissedFrom(s.threads.bufs, i)) else c, i, n - 1);
  }

  lemma DecideDeleteInv(s: State, a: Action, threshold: nat)
    requires Inv(s) && Enabled(s, a, threshold) && a.DecideDelete?
    ensures Inv(Apply(s, a, threshold))
  {
    hide Conserved, BuffersOk, Log, IndicesOk, DoDecideDelete;
    var i := s.scan.control.i;
    DecideShape(s, i);
    var t := Apply(s, a, threshold);
    assert Log(t.output) == Log(s.output);
    if s.threads.bufs[i].unread == [] { DeleteKeeps(s.threads, Log(s.output), i); }
  }

  lemma ScanInv(s: State, a: Action, threshold: nat)
    requires Inv(s) && Enabled(s, a, threshold)
    requires a.Peek? || a.CheckEncoder? || a.AioPending? || a.Notify? || a.Stop?
    ensures Inv(Apply(s, a, threshold))
  {
    hide Conserved, BuffersOk, Log;
  }

  lemma BeginPassInv(s: State, a: Action, threshold: nat)
    requires Inv(s) && Enabled(s, a, threshold) && a.BeginPass?
    ensures Inv(Apply(s, a, threshold))
  {
    hide Conserved, BuffersOk, Log;
    var sites, first := s.threads.sites, s.catalog.nextSite;
    if first < |sites| && a.room {
      var item := Dictionary(sites[first..first + a.entries]);
      LogEmit(s.output, item);
      EmitKeeps(s.threads, Log(s.output), item);
    }
  }

  lemma AioInv(s: State, a: Action, threshold: nat)
    requires Inv(s) && Enabled(s, a, threshold) && (a.AioDone? || a.StartAio? || a.Relaunch?)
    ensures Inv(Apply(s, a, threshold))
  {
    hide Conserved, BuffersOk;
    var t := Apply(s, a, threshold);
    match a
    case AioDone => assert Log(t.output) == Log(s.output);
    case StartAio => assert Log(t.output) == Log(s.output);
    case Relaunch =>
      assert Log(t.output) == Log(s.output) + [Checkpoint];
      EmitKeeps(s.threads, Log(s.output), Checkpoint);
  }

  /** Every action of every thread keeps conservation, valid indices and a single write. */
  lemma StepInv(s: State, a: Action, threshold: nat)
    requires Inv(s) && Enabled(s, a, threshold)
    ensures Inv(Apply(s, a, threshold))
  {
    hide Inv, Enabled, Apply;
    match a
    case Encode(_) => EncodeInv(s, a, threshold);
    case EncodeNothing(_) => EncodeInv(s, a, threshold);
    case BeginPass(_, _) => BeginPassInv(s, a, threshold);
    case AioDone => AioInv(s, a, threshold);
    case StartAio => AioInv(s, a, threshold);
    case Relaunch => AioInv(s, a, threshold);
    case Peek(_) => ScanInv(s, a, threshold);
    case DecideDelete => DecideDeleteInv(s, a, threshold);
    case Relock => AdvanceInv(s, a, threshold);
    case CheckEncoder => ScanInv(s, a, threshold);
    case AioPending => ScanInv(s, a, threshold);
    case Notify => ScanInv(s, a, threshold);
    case Stop => ScanInv(s, a, threshold);
    case _ => OutsideInv(s, a, threshold);
  }
}
