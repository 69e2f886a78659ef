/** What holds over whole runs of the pipeline. */
module PipelineTheorems {
  import opened Pipeline
  import opened PipelineInvariants
  import opened PipelineDictionary
  import opened PipelineSync

  /** A run: any interleaving of the compression thread with the other threads. */
  ghost predicate IsRun(states: seq<State>, acts: seq<Action>, threshold: nat) {
    && |states| == |acts| + 1
    && Init(states[0])
    && forall i | 0 <= i < |acts| :: IsStep(states[i], acts[i], states[i + 1], threshold)
  }

  ghost predicate IsStep(s: State, a: Action, t: State, threshold: nat) {
    Enabled(s, a, threshold) && t == Apply(s, a, threshold)
  }

  lemma {:induction false} RunInv(states: seq<State>, acts: seq<Action>, threshold: nat, i: nat)
    requires IsRun(states, acts, threshold) && i < |states|
    ensures Inv(states[i]) && CatalogOk(states[i]) && SyncInv(states[i])
    decreases i
  {
    hide Inv, CatalogOk, SyncInv, Enabled, Apply, Init;
    if i == 0 {
      InitAll(states[0]);
    } else {
      RunInv(states, acts, threshold, i - 1);
      assert IsStep(states[i - 1], acts[i - 1], states[i - 1 + 1], threshold);
      StepInv(states[i - 1], acts[i - 1], threshold);
      StepCatalog(states[i - 1], acts[i - 1], threshold);
      StepSync(states[i - 1], acts[i - 1], threshold);
    }
  }

  lemma InitAll(s: State)
    requires Init(s)
    ensures Inv(s) && CatalogOk(s) && SyncInv(s)
  {
    InitInv(s);
    InitCatalog(s);
  }

  /** Conservation: at every moment of every run, what a thread has logged is what the file, the
      write in flight, the encoder and its staging buffer hold of it, in this order. */
  lemma Conservation(states: seq<State>, acts: seq<Action>, threshold: nat, i: nat, id: nat)
    requires IsRun(states, acts, threshold) && i < |states| && id in states[i].threads.committed
    ensures var s := states[i];
            && s.threads.committed[id] == MsgsOf(id, s.output.file) + MsgsOf(id, s.output.inflight)
                                          + MsgsOf(id, s.output.encoder) + UnreadOf(s.threads.bufs, id)
            && IndicesOk(s.threads.bufs, s.scan)
  {
    RunInv(states, acts, threshold, i);
    var o := states[i].output;
    MsgsOfAppend(id, o.file + o.inflight, o.encoder);
    MsgsOfAppend(id, o.file, o.inflight);
  }

  lemma CommittedGrows(s: State, a: Action, threshold: nat, id: nat)
    requires Enabled(s, a, threshold) && id in s.threads.committed
    ensures var t := Apply(s, a, threshold);
            id in t.threads.committed && s.threads.committed[id] <= t.threads.committed[id]
            && (a != RequestSync ==> t.sync.snapshot == s.sync.snapshot)
  {
  }

  lemma {:induction false} SinceRequest(states: seq<State>, acts: seq<Action>, threshold: nat, r: nat, e: nat, id: nat)
    requires IsRun(states, acts, threshold) && r < e < |states| && acts[r] == RequestSync
    requires forall k | r < k < e :: acts[k] != RequestSync
    requires id in states[r].threads.committed
    ensures id in states[e].threads.committed && states[r].threads.committed[id] <= states[e].threads.committed[id]
    ensures id in states[e].sync.snapshot && states[e].sync.snapshot[id] == |states[r].threads.committed[id]|
    decreases e
  {
    assert IsStep(states[e - 1], acts[e - 1], states[e - 1 + 1], threshold);
    if e > r + 1 {
      SinceRequest(states, acts, threshold, r, e - 1, id);
      CommittedGrows(states[e - 1], acts[e - 1], threshold, id);
    }
  }

  lemma BothPrefixes(before: seq<Msg>, a: seq<Msg>, b: seq<Msg>, c: seq<Msg>, d: seq<Msg>, now: seq<Msg>)
    requires before <= now && now == a + b + c + d && |before| <= |a|
    ensures before <= a
  {
    assert before == now[..|before|] == a[..|before|];
  }
}
