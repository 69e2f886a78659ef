/** Which staging buffers one pass of the compression thread looks at, whatever the logging threads
    do meanwhile. */
module PipelineScan {
  import opened Pipeline
  import opened PipelineInvariants
  import opened PipelineSync
  import opened PipelineTheorems

  /** The action deletes the buffer at which the pass started. */
  predicate Skips(s: State, a: Action) {
    && a == DecideDelete
    && s.scan.control == CheckingDelete(s.scan.last)
    && s.scan.last < |s.threads.bufs|
    && s.threads.bufs[s.scan.last].dead
    && s.threads.bufs[s.scan.last].unread == []
  }

  predicate Misses(s: State, a: Action, id: nat) {
    Skips(s, a) && id in MissedFrom(s.threads.bufs, s.scan.last)
  }

  predicate Idle(s: State) {
    InPass(s.scan.control) && s.output.encoder == []
  }

  /** Step p begins a pass that is not over before state e and has found nothing to encode so far. */
  ghost predicate IdlePass(states: seq<State>, acts: seq<Action>, p: nat, e: nat) {
    && |states| == |acts| + 1 && p < e < |states|
    && acts[p].BeginPass?
    && forall k | p < k <= e :: Idle(states[k])
  }

  // ---- What a pass keeps ----

  /** Past its start, a pass has missed nothing or the one buffer at which it is going to stop. */
  predicate MissedLast(bufs: seq<Buffer>, c: Scan) {
    c.missed == {} || (c.last < |bufs| && c.missed == {bufs[c.last].id})
  }

  predicate PositionOk(bufs: seq<Buffer>, c: Scan, ids: set<nat>) {
    match c.control
    case Scanning(i) =>
      && i < |bufs| && Ids(bufs) <= ids
      && if i == c.last then c.foundEmpty == {} && c.missed == {} else MissedLast(bufs, c)
    case CheckingDelete(i) =>
      && i < |bufs| && Ids(bufs) <= ids && bufs[i].id in c.foundEmpty
      && if i == c.last then c.foundEmpty == {bufs[i].id} && c.missed == {} else MissedLast(bufs, c)
    case _ => true
  }

  /** `ids` are the buffers there were when the pass began. */
  ghost predicate VisitInv(t: Threads, c: Scan, ids: set<nat>) {
    && ids <= t.committed.Keys
    && Visited(t.bufs, c, ids)
    && ids <= c.foundEmpty + Ids(t.bufs)
    && c.foundEmpty !! c.missed
    && PositionOk(t.bufs, c, ids)
  }

  lemma BeginVisits(s: State, a: Action, threshold: nat)
    requires Inv(s) && Enabled(s, a, threshold) && a.BeginPass? && Idle(Apply(s, a, threshold))
    ensures VisitInv(s.threads, Apply(s, a, threshold).scan, Ids(s.threads.bufs))
  {
    hide Conserved;
  }

  lemma SameIds(bufs: seq<Buffer>, b: nat, buf: Buffer)
    requires b < |bufs| && buf.id == bufs[b].id
    ensures Ids(bufs[b := buf]) == Ids(bufs)
  {
    forall j | 0 <= j < |bufs| ensures bufs[b := buf][j].id == bufs[j].id {}
    forall id <- Ids(bufs) ensures id in Ids(bufs[b := buf]) {
      var j :| 0 <= j < |bufs| && bufs[j].id == id;
      assert bufs[b := buf][j] in bufs[b := buf];
    }
  }

  lemma OutsideVisits(s: State, a: Action, threshold: nat, ids: set<nat>)
    requires Inv(s) && VisitInv(s.threads, s.scan, ids) && Enabled(s, a, threshold)
    requires a.Commit? || a.Register? || a.AddBuffer? || a.Die? || a.RequestSync? || a.RequestExit?
    ensures VisitInv(Apply(s, a, threshold).threads, Apply(s, a, threshold).scan, ids)
  {
    hide Conserved, Ids, IndicesOk, Leg;
    var t := Apply(s, a, threshold);
    match a
    case Commit(b, _) => SameIds(s.threads.bufs, b, t.threads.bufs[b]);
    case Die(b) => SameIds(s.threads.bufs, b, t.threads.bufs[b]);
    case AddBuffer(id) => assert Ids(s.threads.bufs) <= Ids(t.threads.bufs) by { IdsOfAppend(s.threads.bufs, id); }
    case _ =>
  }

  lemma IdsOfAppend(bufs: seq<Buffer>, id: nat)
    ensures Ids(bufs) <= Ids(bufs + [Buffer(id, [], false)])
  {
    var longer := bufs + [Buffer(id, [], false)];
    forall x <- Ids(bufs) ensures x in Ids(longer) {
      var b :| b in bufs && b.id == x;
      assert b in longer;
    }
  }

  lemma PeekVisits(s: State, taken: nat, threshold: nat, ids: set<nat>)
    requires Inv(s) && VisitInv(s.threads, s.scan, ids) && Enabled(s, Peek(taken), threshold)
    ensures VisitInv(s.threads, Apply(s, Peek(taken), threshold).scan, ids)
  {
    hide Conserved, Ids;
  }

  lemma DecideVisits(s: State, threshold: nat, ids: set<nat>)
    requires Inv(s) && VisitInv(s.threads, s.scan, ids) && Enabled(s, DecideDelete, threshold) && !s.scan.full
    ensures VisitInv(Apply(s, DecideDelete, threshold).threads, Apply(s, DecideDelete, threshold).scan, ids)
  {
    DecideDeleteVisits(s, threshold, ids);
    DecidePosition(s, s.scan.control.i, ids);
    hide Conserved, Visited, DoDecideDelete, Ids, Distinct;
  }

  lemma DecidePosition(s: State, i: nat, ids: set<nat>)
    requires s.scan.control == CheckingDelete(i) && i < |s.threads.bufs| && s.scan.last < |s.threads.bufs| && !s.scan.full
    requires Distinct(s.threads.bufs) && PositionOk(s.threads.bufs, s.scan, ids) && s.scan.foundEmpty !! s.scan.missed
    ensures var t := DoDecideDelete(s, i);
            && t.threads.committed == s.threads.committed
            && PositionOk(t.threads.bufs, t.scan, ids) && t.scan.foundEmpty !! t.scan.missed
            && t.scan.foundEmpty == s.scan.foundEmpty && s.threads.bufs[i].id in s.scan.foundEmpty
            && Ids(s.threads.bufs) <= Ids(t.threads.bufs) + {s.threads.bufs[i].id}
  {
    var bufs := s.threads.bufs;
    CheckedIsFound(bufs, s.scan, i, ids);
    AdvanceIndex(s.scan, i, |bufs|);
    IdsOfRemove(bufs, i);
    hide PositionOk, Ids, Distinct, Advance, ScanAfterDelete, MissedFrom;
    if bufs[i].dead && bufs[i].unread == [] {
      DeletePosition(bufs, s.scan, i, ids);
    } else {
      AdvancePosition(bufs, s.scan, i, ids);
    }
  }

  lemma CheckedIsFound(bufs: seq<Buffer>, c: Scan, i: nat, ids: set<nat>)
    requires c.control == CheckingDelete(i) && i < |bufs| && PositionOk(bufs, c, ids)
    ensures bufs[i].id in c.foundEmpty
  {
  }

  lemma IdsOfRemove(bufs: seq<Buffer>, i: nat)
    requires i < |bufs|
    ensures Ids(bufs) == Ids(bufs[..i] + bufs[i + 1..]) + {bufs[i].id}
  {
    var less := bufs[..i] + bufs[i + 1..];
    forall id <- Ids(bufs) ensures id in Ids(less) + {bufs[i].id} {
      var j :| 0 <= j < |bufs| && bufs[j].id == id;
      if j != i { assert bufs[j] == less[if j < i then j else j - 1]; }
    }
  }

  lemma AdvancePosition(bufs: seq<Buffer>, c: Scan, i: nat, ids: set<nat>)
    requires c.control == CheckingDelete(i) && PositionOk(bufs, c, ids) && !c.full && c.last < |bufs|
    ensures PositionOk(bufs, Advance(c, i, |bufs|), ids)
  {
    if i + 1 < |bufs| { SmallMod(i + 1, |bufs|); } else { SelfMod(|bufs|); }
  }

  /** Where the scan goes after deleting buffer i, with the modulo spelled out. */
  lemma DeleteTo(c: Scan, i: nat, remaining: nat)
    requires i <= remaining && c.last <= remaining && !c.full
    ensures var d := ScanAfterDelete(c, i, remaining);
            && d.foundEmpty == c.foundEmpty && d.missed == c.missed
            && (remaining == 0 ==> d.control == Scanned)
            && (remaining > 0 ==>
                  var next := if i < remaining then i else 0;
                  && d.last == (if c.last >= i && c.last > 0 then c.last - 1 else c.last)
                  && d.control == if next == d.last then Scanned else Scanning(next))
  {
    if i < remaining { SmallMod(i, remaining); } else if remaining > 0 { SelfMod(remaining); }
  }

  lemma DeletePosition(bufs: seq<Buffer>, c: Scan, i: nat, ids: set<nat>)
    requires c.control == CheckingDelete(i) && PositionOk(bufs, c, ids) && !c.full && c.last < |bufs|
    requires Distinct(bufs) && c.foundEmpty !! c.missed
    ensures var less := bufs[..i] + bufs[i + 1..];
            var d := if i == c.last then c.(missed := c.missed + MissedFrom(bufs, i)) else c;
            var e := ScanAfterDelete(d, i, |less|);
            PositionOk(less, e, ids) && e.foundEmpty !! e.missed && e.foundEmpty == c.foundEmpty
  {
    var n := |bufs|;
    var d := if i == c.last then c.(missed := c.missed + MissedFrom(bufs, i)) else c;
    IdsOfRemove(bufs, i);
    DeleteTo(d, i, n - 1);
    hide Ids, ScanAfterDelete;
    if i == c.last { DeleteStart(bufs, c); }
  }

  /** Deleting the first buffer: it is not among those missed. */
  lemma DeleteStart(bufs: seq<Buffer>, c: Scan)
    requires c.last < |bufs| && Distinct(bufs)
    ensures bufs[c.last].id !in MissedFrom(bufs, c.last)
  {
    if c.last == 0 { NotBehind(bufs); }
  }

  lemma NotBehind(bufs: seq<Buffer>)
    requires Distinct(bufs) && |bufs| > 0
    ensures bufs[0].id !in Ids(bufs[1..])
  {
    forall j | 0 <= j < |bufs| - 1 ensures bufs[1..][j].id != bufs[0].id {}
  }

  lemma StepVisits(s: State, a: Action, threshold: nat, ids: set<nat>)
    requires Inv(s) && VisitInv(s.threads, s.scan, ids) && Enabled(s, a, threshold)
    requires Idle(s) && Idle(Apply(s, a, threshold))
    ensures VisitInv(Apply(s, a, threshold).threads, Apply(s, a, threshold).scan, ids)
  {
    hide VisitInv, BuffersOk, Conserved, IndicesOk;
    match a
    case Peek(taken) => PeekVisits(s, taken, threshold, ids);
    case DecideDelete => DecideVisits(s, threshold, ids);
    case Commit(_, _) => OutsideVisits(s, a, threshold, ids);
    case Register(_) => OutsideVisits(s, a, threshold, ids);
    case AddBuffer(_) => OutsideVisits(s, a, threshold, ids);
    case Die(_) => OutsideVisits(s, a, threshold, ids);
    case RequestSync => OutsideVisits(s, a, threshold, ids);
    case RequestExit => OutsideVisits(s, a, threshold, ids);
    case _ =>
  }

  lemma RunStep(states: seq<State>, acts: seq<Action>, threshold: nat, k: nat)
    requires IsRun(states, acts, threshold) && k < |acts|
    ensures Enabled(states[k], acts[k], threshold) && states[k + 1] == Apply(states[k], acts[k], threshold)
    ensures Inv(states[k])
  {
    hide Enabled, Apply, Inv;
    assert IsStep(states[k], acts[k], states[k + 1], threshold);
    RunInv(states, acts, threshold, k);
  }

  lemma PassStep(states: seq<State>, acts: seq<Action>, p: nat, e: nat)
    requires IdlePass(states, acts, p, e)
    ensures p < e < |states| == |acts| + 1 && acts[p].BeginPass? && Idle(states[e])
    ensures p < e - 1 ==> Idle(states[e - 1]) && IdlePass(states, acts, p, e - 1)
  {
  }

  lemma {:induction false} PassInv(states: seq<State>, acts: seq<Action>, threshold: nat, p: nat, e: nat)
    requires IsRun(states, acts, threshold) && IdlePass(states, acts, p, e)
    ensures VisitInv(states[e].threads, states[e].scan, Ids(states[p].threads.bufs))
    decreases e
  {
    hide *;
    PassStep(states, acts, p, e);
    RunStep(states, acts, threshold, e - 1);
    if e == p + 1 {
      BeginVisits(states[p], acts[p], threshold);
      BeginKeepsThreads(states[p], acts[p], threshold);
    } else {
      PassInv(states, acts, threshold, p, e - 1);
      StepVisits(states[e - 1], acts[e - 1], threshold, Ids(states[p].threads.bufs));
    }
  }

  lemma BeginKeepsThreads(s: State, a: Action, threshold: nat)
    requires Enabled(s, a, threshold) && a.BeginPass?
    ensures Apply(s, a, threshold).threads == s.threads && Apply(s, a, threshold).scan.missed == {}
  {
  }

  lemma MissedStep(s: State, a: Action, threshold: nat, id: nat)
    requires Enabled(s, a, threshold) && Idle(s) && Idle(Apply(s, a, threshold))
    ensures id in Apply(s, a, threshold).scan.missed <==> id in s.scan.missed || Misses(s, a, id)
  {
    hide MissedFrom, ChunkOk, DoCommit;
  }

  /** What counts as missed is what the deletions of first buffers leave out. */
  lemma {:induction false} MissedByDeletion(states: seq<State>, acts: seq<Action>, threshold: nat, p: nat, e: nat, id: nat)
    requires IsRun(states, acts, threshold) && IdlePass(states, acts, p, e)
    ensures id in states[e].scan.missed <==> exists d | p < d < e :: Misses(states[d], acts[d], id)
    decreases e
  {
    hide *;
    PassStep(states, acts, p, e);
    RunStep(states, acts, threshold, e - 1);
    if e == p + 1 {
      BeginKeepsThreads(states[p], acts[p], threshold);
    } else {
      MissedByDeletion(states, acts, threshold, p, e - 1, id);
      MissedStep(states[e - 1], acts[e - 1], threshold, id);
    }
  }

  // ---- The theorems ----

  /** A pass that finds nothing to encode looks at exactly those of the buffers present at its
      beginning that no deletion of its first buffer makes it miss. */
  lemma PassVisits(states: seq<State>, acts: seq<Action>, threshold: nat, p: nat, e: nat, id: nat)
    requires IsRun(states, acts, threshold) && IdlePass(states, acts, p, e) && states[e].scan.control.Scanned?
    requires id in Ids(states[p].threads.bufs)
    ensures id in states[e].scan.foundEmpty <==> !exists d | p < d < e :: Misses(states[d], acts[d], id)
  {
    hide IsRun, Inv, Misses;
    PassInv(states, acts, threshold, p, e);
    MissedByDeletion(states, acts, threshold, p, e, id);
    var bufs, c := states[e].threads.bufs, states[e].scan;
    if id in Ids(bufs) {
      var j :| 0 <= j < |bufs| && bufs[j].id == id;
      assert Behind(c, j);
    }
  }

  /** It looks at all of them if and only if it does not delete its first buffer while others remain. */
  lemma PassVisitsAll(states: seq<State>, acts: seq<Action>, threshold: nat, p: nat, e: nat)
    requires IsRun(states, acts, threshold) && IdlePass(states, acts, p, e) && states[e].scan.control.Scanned?
    ensures Ids(states[p].threads.bufs) <= states[e].scan.foundEmpty
            <==> forall d | p < d < e && Skips(states[d], acts[d]) :: |states[d].threads.bufs| == 1
  {
    hide IsRun, IdlePass, VisitInv, Skips, Misses, MissedFrom, Ids;
    PassStep(states, acts, p, e);
    var ids := Ids(states[p].threads.bufs);
    forall id <- ids
      ensures id in states[e].scan.foundEmpty <==> !exists d | p < d < e :: Misses(states[d], acts[d], id)
    {
      PassVisits(states, acts, threshold, p, e, id);
    }
    forall d | p < d < e && Skips(states[d], acts[d])
      ensures |states[d].threads.bufs| == 1 <==> forall id <- ids :: !Misses(states[d], acts[d], id)
    {
      ShorterPass(states, acts, p, d, e);
      PassInv(states, acts, threshold, p, d);
      SkipsSome(states[d], acts[d], ids);
    }
    forall d, id | p < d < e && Misses(states[d], acts[d], id) ensures Skips(states[d], acts[d]) {
      MissesSkips(states[d], acts[d], id);
    }
  }

  lemma ShorterPass(states: seq<State>, acts: seq<Action>, p: nat, d: nat, e: nat)
    requires IdlePass(states, acts, p, e) && p < d <= e
    ensures IdlePass(states, acts, p, d)
  {
  }

  lemma MissesSkips(s: State, a: Action, id: nat)
    requires Misses(s, a, id)
    ensures Skips(s, a)
  {
  }

  lemma SkipsSome(s: State, a: Action, ids: set<nat>)
    requires Skips(s, a) && VisitInv(s.threads, s.scan, ids)
    ensures |s.threads.bufs| == 1 <==> forall id <- ids :: !Misses(s, a, id)
  {
    var bufs, last := s.threads.bufs, s.scan.last;
    if last > 0 {
      assert bufs[last - 1].id in ids;
      assert Misses(s, a, bufs[last - 1].id);
    } else if |bufs| > 1 {
      assert bufs[1] == bufs[1..][0];
      assert bufs[1].id in ids;
      assert Misses(s, a, bufs[1].id);
    }
  }
}
