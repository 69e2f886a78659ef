/** What a completed sync() has written to the file: everything logged before it when no pass deleted
    its first buffer, and exactly which messages may be absent otherwise. */
module PipelineExact {
  import opened Pipeline
  import opened PipelineInvariants
  import opened PipelineSync
  import opened PipelineTheorems
  import opened PipelineScan

  /** The sync requested in step r is the latest one up to state e. */
  ghost predicate Latest(acts: seq<Action>, r: nat, e: nat) {
    && r < e <= |acts| && acts[r] == RequestSync
    && forall k | r < k < e :: acts[k] != RequestSync
  }

  lemma Sooner(acts: seq<Action>, r: nat, e: nat)
    requires Latest(acts, r, e)
    ensures r < e <= |acts| && acts[r] == RequestSync
    ensures r + 1 < e ==> Latest(acts, r, e - 1) && acts[e - 1] != RequestSync
  {
  }

  /** How syncStatus moves: a request; an empty encoder for the first time, and at once another pass; an
      empty encoder again, with or without a write to wait for; and the end of that write. */
  lemma SyncMoves(s: State, a: Action, threshold: nat)
    requires Enabled(s, a, threshold)
    ensures var t, drained := Apply(s, a, threshold), a == CheckEncoder && s.output.encoder == [];
            && (a == RequestSync ==> t.sync.status == SyncRequested)
            && (drained && s.sync.status == SyncRequested ==>
                  t.sync.status == PerformingSecondPass && t.scan.control == LoopTop)
            && (drained && s.sync.status == PerformingSecondPass ==>
                  t.sync.status == if s.output.outstanding then WaitingOnAio else SyncCompleted)
            && (a == Notify && s.sync.status == WaitingOnAio ==> t.sync.status == SyncCompleted)
            && (t.sync.status != s.sync.status ==> a == RequestSync || a == Notify || drained)
  {
  }

  // ---- No deletion of a first buffer ----

  /** The action deletes the buffer at which the pass started while others remain. */
  predicate SkipsOthers(s: State, a: Action) {
    Skips(s, a) && |s.threads.bufs| > 1
  }

  predicate NothingMissed(s: State) {
    && (s.sync.status.PerformingSecondPass? && InPass(s.scan.control) ==> s.scan.missed == {})
    && (s.sync.status.WaitingOnAio? || s.sync.status.SyncCompleted? ==> s.sync.missed == {})
  }

  lemma NothingMissedStep(s: State, a: Action, threshold: nat)
    requires Inv(s) && Enabled(s, a, threshold) && !SkipsOthers(s, a)
    requires a != RequestSync ==> NothingMissed(s)
    ensures NothingMissed(Apply(s, a, threshold))
  {
    hide BuffersOk, Conserved, OutputOk;
  }

  lemma {:induction false} NothingMissedSince(states: seq<State>, acts: seq<Action>, threshold: nat, r: nat, e: nat)
    requires IsRun(states, acts, threshold) && Latest(acts, r, e) && |states| == |acts| + 1
    requires forall d | r < d < e :: !SkipsOthers(states[d], acts[d])
    ensures NothingMissed(states[e])
    decreases e
  {
    hide *;
    Sooner(acts, r, e);
    RunStep(states, acts, threshold, e - 1);
    if e == r + 1 {
      RequestSkipsNone(states[r]);
    } else {
      NothingMissedSince(states, acts, threshold, r, e - 1);
    }
    NothingMissedStep(states[e - 1], acts[e - 1], threshold);
  }

  lemma RequestSkipsNone(s: State)
    ensures !SkipsOthers(s, RequestSync)
  {
  }

  /** Once a sync is completed, the file has what every thread whose buffer was not missed had logged
      before the request. */
  lemma CompletedCovers(states: seq<State>, acts: seq<Action>, threshold: nat, r: nat, e: nat, id: nat)
    requires IsRun(states, acts, threshold) && Latest(acts, r, e) && |states| == |acts| + 1
    requires states[e].sync.status == SyncCompleted && id !in states[e].sync.missed
    requires id in states[r].threads.committed
    ensures states[r].threads.committed[id] <= MsgsOf(id, states[e].output.file)
  {
    SinceRequest(states, acts, threshold, r, e, id);
    RunInv(states, acts, threshold, e);
    hide IsRun, Inv;
    WrittenBefore(states, acts, threshold, r, e, id);
  }

  /** Having written as many messages as were logged before is having written these. */
  lemma WrittenBefore(states: seq<State>, acts: seq<Action>, threshold: nat, r: nat, e: nat, id: nat)
    requires IsRun(states, acts, threshold) && Latest(acts, r, e) && |states| == |acts| + 1
    requires id in states[r].threads.committed
    ensures states[r].threads.committed[id] <= MsgsOf(id, states[e].output.file)
            <==> |states[r].threads.committed[id]| <= |MsgsOf(id, states[e].output.file)|
  {
    SinceRequest(states, acts, threshold, r, e, id);
    Conservation(states, acts, threshold, e, id);
    hide IsRun, IndicesOk;
    var o, before := states[e].output, states[r].threads.committed[id];
    if |before| <= |MsgsOf(id, o.file)| {
      BothPrefixes(before, MsgsOf(id, o.file), MsgsOf(id, o.inflight), MsgsOf(id, o.encoder),
                   UnreadOf(states[e].threads.bufs, id), states[e].threads.committed[id]);
    }
  }

  /** Sync safety: if no pass since the request deleted its first buffer while others remained, in
      particular if no buffer was deleted at all, then once syncStatus is SYNC_COMPLETED every
      message that any thread had logged before the request is in the file. */
  lemma SyncSafety(states: seq<State>, acts: seq<Action>, threshold: nat, r: nat, e: nat, id: nat)
    requires IsRun(states, acts, threshold) && Latest(acts, r, e) && |states| == |acts| + 1
    requires forall d | r < d < e :: !SkipsOthers(states[d], acts[d])
    requires states[e].sync.status == SyncCompleted && id in states[r].threads.committed
    ensures states[r].threads.committed[id] <= MsgsOf(id, states[e].output.file)
  {
    hide IsRun, Latest, SkipsOthers;
    NothingMissedSince(states, acts, threshold, r, e);
    CompletedCovers(states, acts, threshold, r, e, id);
  }

  // ---- The pass that completes a sync ----

  predicate Waiting(s: State) {
    s.sync.status.WaitingOnAio? && (s.output.outstanding || s.scan.control.Notifying?)
  }

  /** The encoder was found empty after the second pass, as the guard of the source asks. */
  predicate Completing(s: State, a: Action) {
    a == CheckEncoder && s.sync.status.PerformingSecondPass? && Idle(s) && s.scan.control.Scanned?
  }

  lemma StatusStep(s: State, a: Action, threshold: nat)
    requires Inv(s) && Enabled(s, a, threshold) && a != RequestSync
    ensures var t := Apply(s, a, threshold);
            && (t.sync.status.WaitingOnAio? ==> s.sync.status.WaitingOnAio? || Completing(s, a))
            && (t.sync.status.SyncCompleted? ==>
                  s.sync.status.SyncCompleted? || (a == Notify && s.sync.status.WaitingOnAio?) || Completing(s, a))
            && (t.sync.status.PerformingSecondPass? && Idle(t) ==>
                  a.BeginPass? || (s.sync.status.PerformingSecondPass? && Idle(s)))
  {
    hide BuffersOk, Conserved, IndicesOk;
  }

  lemma WaitingStep(s: State, a: Action, threshold: nat)
    requires Inv(s) && Enabled(s, a, threshold) && a != RequestSync
    requires Waiting(s) || Completing(s, a)
    ensures var t := Apply(s, a, threshold);
            && Written(t.output) == Written(s.output)
            && (t.sync.status.WaitingOnAio? ==> Waiting(t))
            && (t.sync.status.SyncCompleted? ==> t.output.file == Written(s.output))
  {
    hide BuffersOk, Conserved, IndicesOk;
  }

  lemma IdleStep(s: State, a: Action, threshold: nat)
    requires Enabled(s, a, threshold) && Idle(s) && Idle(Apply(s, a, threshold))
    ensures Written(Apply(s, a, threshold).output) == Written(s.output)
  {
  }

  /** Up to state c the sync has been waiting since the pass that ended in step e. */
  lemma {:induction false} FindCompleting(states: seq<State>, acts: seq<Action>, threshold: nat, r: nat, c: nat)
    returns (e: nat)
    requires IsRun(states, acts, threshold) && Latest(acts, r, c) && |states| == |acts| + 1
    requires states[c].sync.status.WaitingOnAio?
    ensures r < e < c && Completing(states[e], acts[e])
    ensures Waiting(states[c]) && Written(states[c].output) == Written(states[e].output)
    decreases c
  {
    hide *;
    Sooner(acts, r, c);
    RunStep(states, acts, threshold, c - 1);
    if c == r + 1 {
      RequestStatus(states[r], threshold);
    } else {
      StatusStep(states[c - 1], acts[c - 1], threshold);
      if states[c - 1].sync.status.WaitingOnAio? {
        e := FindCompleting(states, acts, threshold, r, c - 1);
      } else {
        e := c - 1;
      }
      WaitingStep(states[c - 1], acts[c - 1], threshold);
    }
  }

  lemma RequestStatus(s: State, threshold: nat)
    requires Enabled(s, RequestSync, threshold)
    ensures Apply(s, RequestSync, threshold).sync.status.SyncRequested?
  {
  }

  lemma {:induction false} FindPass(states: seq<State>, acts: seq<Action>, threshold: nat, r: nat, e: nat)
    returns (p: nat)
    requires IsRun(states, acts, threshold) && Latest(acts, r, e) && |states| == |acts| + 1
    requires states[e].sync.status.PerformingSecondPass? && Idle(states[e])
    ensures r < p < e && IdlePass(states, acts, p, e)
    ensures forall d | p < d <= e :: Written(states[d].output) == Written(states[e].output)
    decreases e
  {
    hide Enabled, Apply, Idle, Inv, IsRun, Latest, Written;
    Sooner(acts, r, e);
    RunStep(states, acts, threshold, e - 1);
    if e == r + 1 {
      RequestStatus(states[r], threshold);
    } else {
      StatusStep(states[e - 1], acts[e - 1], threshold);
      if acts[e - 1].BeginPass? {
        p := e - 1;
      } else {
        p := FindPass(states, acts, threshold, r, e - 1);
        IdleStep(states[e - 1], acts[e - 1], threshold);
      }
    }
  }

  // ---- Exactness ----

  /** What is unread of a buffer was logged after the first n messages of its thread. */
  predicate OnlyLater(t: Threads, id: nat, n: nat) {
    id in t.committed && n + |UnreadOf(t.bufs, id)| <= |t.committed[id]|
  }

  lemma OnlyLaterWritten(s: State, id: nat, n: nat)
    requires Inv(s) && Idle(s) && id in s.threads.committed
    ensures OnlyLater(s.threads, id, n) <==> n <= |MsgsOf(id, Written(s.output))|
  {
    assert Log(s.output) == Written(s.output);
  }

  /** In the pass that completes a sync: the n messages which a thread had logged before the request
      are written if and only if, should the pass miss the thread's buffer because it deletes its
      first one, what this buffer then holds was logged later. */
  lemma PassExact(states: seq<State>, acts: seq<Action>, threshold: nat, r: nat, p: nat, e: nat, id: nat)
    requires IsRun(states, acts, threshold) && Latest(acts, r, e) && e < |acts| && |states| == |acts| + 1
    requires r < p && IdlePass(states, acts, p, e) && Completing(states[e], acts[e])
    requires forall d | p < d <= e :: Written(states[d].output) == Written(states[e].output)
    requires id in states[r].threads.committed
    ensures |states[r].threads.committed[id]| <= |MsgsOf(id, Written(states[e].output))|
            <==> forall d | p < d < e && Misses(states[d], acts[d], id) ::
                   OnlyLater(states[d].threads, id, |states[r].threads.committed[id]|)
  {
    var n := |states[r].threads.committed[id]|;
    hide *;
    forall d | p < d < e
      ensures OnlyLater(states[d].threads, id, n) <==> n <= |MsgsOf(id, Written(states[e].output))|
    {
      StillLatest(acts, r, d, e);
      SinceRequest(states, acts, threshold, r, d, id);
      RunStep(states, acts, threshold, d);
      IdleInside(states, acts, p, d, e);
      OnlyLaterWritten(states[d], id, n);
    }
    if n > |MsgsOf(id, Written(states[e].output))| {
      StillLatest(acts, r, e, e);
      SinceRequest(states, acts, threshold, r, e, id);
      RunInv(states, acts, threshold, e);
      CompletingIs(states[e], acts[e]);
      if id !in states[e].scan.missed { CompletingCovers(states[e], id); }
      MissedByDeletion(states, acts, threshold, p, e, id);
    }
  }

  lemma StillLatest(acts: seq<Action>, r: nat, d: nat, e: nat)
    requires Latest(acts, r, e) && r < d <= e
    ensures Latest(acts, r, d) && acts[r] == RequestSync && forall k | r < k < d :: acts[k] != RequestSync
  {
  }

  lemma IdleInside(states: seq<State>, acts: seq<Action>, p: nat, d: nat, e: nat)
    requires IdlePass(states, acts, p, e) && p < d <= e
    ensures Idle(states[d])
  {
  }

  lemma CompletingIs(s: State, a: Action)
    requires Completing(s, a)
    ensures a == CheckEncoder && s.sync.status.PerformingSecondPass? && Idle(s) && s.scan.control.Scanned?
  {
  }

  lemma CompletingCovers(s: State, id: nat)
    requires Inv(s) && SyncInv(s) && Idle(s) && s.scan.control.Scanned? && s.sync.status.PerformingSecondPass?
    requires id in s.sync.snapshot && id !in s.scan.missed
    ensures s.sync.snapshot[id] <= |MsgsOf(id, Written(s.output))|
  {
    hide MsgsOf, Inv, SyncInv;
    PassCovers(s);
  }

  /** Sync exactness: step c completes the sync requested in step r.  It was decided by a pass p..e
      of the compression thread, and at this moment the file has all that a thread had logged
      before the request if and only if that pass did not miss the thread's buffer while it still
      held some of it. */
  lemma SyncExact(states: seq<State>, acts: seq<Action>, threshold: nat, r: nat, c: nat)
    returns (p: nat, e: nat)
    requires IsRun(states, acts, threshold) && Latest(acts, r, c + 1) && r < c && |states| == |acts| + 1
    requires !states[c].sync.status.SyncCompleted? && states[c + 1].sync.status.SyncCompleted?
    ensures r < p < e <= c && IdlePass(states, acts, p, e) && Completing(states[e], acts[e])
    ensures forall id <- states[r].threads.committed ::
              (states[r].threads.committed[id] <= MsgsOf(id, states[c + 1].output.file))
              <==> forall d | p < d < e && Misses(states[d], acts[d], id) ::
                     OnlyLater(states[d].threads, id, |states[r].threads.committed[id]|)
  {
    hide *;
    Sooner(acts, r, c + 1);
    RunStep(states, acts, threshold, c);
    StatusStep(states[c], acts[c], threshold);
    if states[c].sync.status.WaitingOnAio? {
      e := FindCompleting(states, acts, threshold, r, c);
    } else {
      e := c;
    }
    WaitingStep(states[c], acts[c], threshold);
    StillLatest(acts, r, e, c + 1);
    CompletingIs(states[e], acts[e]);
    p := FindPass(states, acts, threshold, r, e);
    forall id <- states[r].threads.committed
      ensures (states[r].threads.committed[id] <= MsgsOf(id, states[c + 1].output.file))
              <==> forall d | p < d < e && Misses(states[d], acts[d], id) ::
                     OnlyLater(states[d].threads, id, |states[r].threads.committed[id]|)
    {
      PassExact(states, acts, threshold, r, p, e, id);
      WrittenBefore(states, acts, threshold, r, c + 1, id);
    }
  }
}
