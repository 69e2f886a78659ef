/** The order in which the compression thread goes through the staging buffers, and which extents carry
    the mark of a new pass: what the decoder's stages are made of. */
module PipelineMarks {
  import opened Pipeline
  import opened PipelineInvariants
  import opened PipelineTheorems
  import M = OrderedMerge
  import O = MergeOrder

  // ---- Going around ----

  /** The buffer at hand, or between two passes the one that the next pass begins with. */
  function Cursor(c: Scan): nat {
    match c.control
    case Scanning(i) => i
    case CheckingDelete(i) => i
    case Encoding(i, _) => i
    case Relocking(i) => i
    case _ => c.last
  }

  predicate Deletes(s: State) {
    && s.scan.control.CheckingDelete? && s.scan.control.i < |s.threads.bufs|
    && s.threads.bufs[s.scan.control.i].dead && s.threads.bufs[s.scan.control.i].unread == []
  }

  /** While the output is full nothing is scanned, and the buffer that did not fit is remembered. */
  predicate FullStops(c: Scan) {
    c.full ==> match c.control
               case Scanning(_) => false
               case CheckingDelete(_) => false
               case Encoding(_, _) => false
               case Relocking(i) => c.last == i
               case _ => true
  }

  lemma StepFull(s: State, a: Action, threshold: nat)
    requires Enabled(s, a, threshold) && FullStops(s.scan)
    ensures FullStops(Apply(s, a, threshold).scan)
    ensures s.scan.full && !Apply(s, a, threshold).scan.full ==>
              a == Relaunch || (a == StartAio && s.output.encoder != [])
  {
    hide ChunkOk, DoCommit, MissedFrom, Ids;
    if a.Relock? { AdvanceIndex(s.scan, s.scan.control.i, |s.threads.bufs|); }
    if a.DecideDelete? && IndexIn(s) { DeleteKeepsFull(s); }
  }

  predicate IndexIn(s: State) { s.scan.control.CheckingDelete? && s.scan.control.i < |s.threads.bufs| }

  lemma DeleteKeepsFull(s: State)
    requires IndexIn(s)
    ensures var t := DoDecideDelete(s, s.scan.control.i);
            t.scan.full == s.scan.full && (t.scan.control.Scanned? || t.scan.control.Scanning?)
  {
    hide MissedFrom;
  }

  lemma {:induction false} RunFull(states: seq<State>, acts: seq<Action>, threshold: nat, k: nat)
    requires IsRun(states, acts, threshold) && k < |states|
    ensures FullStops(states[k].scan)
    decreases k
  {
    hide Enabled, Apply, FullStops;
    if k == 0 {
      StartFull(states[0]);
    } else {
      RunFull(states, acts, threshold, k - 1);
      assert IsStep(states[k - 1], acts[k - 1], states[k - 1 + 1], threshold);
      StepFull(states[k - 1], acts[k - 1], threshold);
    }
  }

  lemma StartFull(s: State)
    requires Init(s)
    ensures FullStops(s.scan)
  {
  }

  /** Where an action leaves the cursor: it goes round the buffers, one after the other; deleting one
      brings the next to its place; and a buffer that the output was too full for comes again. */
  function NextCursor(s: State, a: Action): nat {
    var i, n := Cursor(s.scan), |s.threads.bufs|;
    match a
    case Relock => if s.scan.full then i else if i + 1 == n then 0 else i + 1
    case DecideDelete =>
      if Deletes(s) then (if i + 1 == n then 0 else i)
      else if i + 1 == n then 0 else i + 1
    case Relaunch => 0
    case _ => i
  }

  /** Every action of every run moves the cursor in this way, and a peek looks at the buffer there. */
  lemma ScanOrder(s: State, a: Action, threshold: nat)
    requires Inv(s) && Enabled(s, a, threshold) && FullStops(s.scan)
    ensures Cursor(Apply(s, a, threshold).scan) == NextCursor(s, a)
    ensures a.Peek? && a.taken > 0 ==>
              var t := Apply(s, a, threshold);
              t.scan.control == Encoding(Cursor(s.scan), s.threads.bufs[Cursor(s.scan)].unread[..a.taken])
  {
    hide BuffersOk, Conserved, OutputOk, ChunkOk, DoCommit, MissedFrom, DoDecideDelete, Advance;
    if a.Relock? { CursorAdvances(s.scan, s.scan.control.i, |s.threads.bufs|); }
    if a.DecideDelete? { CursorDecides(s, s.scan.control.i); }
  }

  lemma CursorAdvances(c: Scan, i: nat, n: nat)
    requires i < n
    ensures !c.full ==> Cursor(Advance(c, i, n)) == if i + 1 == n then 0 else i + 1
    ensures c.full && c.last == i ==> Cursor(Advance(c, i, n)) == i
  {
    if i + 1 < n { ModSmall(i + 1, n); } else { ModSelf(n); }
  }

  lemma CursorDecides(s: State, i: nat)
    requires s.scan.control == CheckingDelete(i) && i < |s.threads.bufs| && s.scan.last < |s.threads.bufs| && !s.scan.full
    ensures Cursor(DoDecideDelete(s, i).scan) == NextCursor(s, DecideDelete)
  {
    hide MissedFrom;
    var n := |s.threads.bufs|;
    CursorAdvances(s.scan, i, n);
    if n > 1 { if i + 1 == n { ModSelf(n - 1); } else { ModSmall(i, n - 1); } }
  }

  lemma ModSmall(a: nat, n: nat)
    requires a < n
    ensures a % n == a
  {
  }

  lemma ModSelf(n: nat)
    requires n > 0
    ensures n % n == 0
  {
  }

  // ---- The mark of a new pass ----

  /** The scan comes back to index 0, or deletes the last buffer there is. */
  predicate Returns(s: State, a: Action) {
    match a
    case Relock => s.scan.control.Relocking? && s.scan.control.i + 1 == |s.threads.bufs|
    case DecideDelete =>
      && s.scan.control.CheckingDelete?
      && (s.scan.control.i + 1 == |s.threads.bufs| || (Deletes(s) && s.scan.control.i == 0))
    case _ => false
  }

  /** The scan has come back since the last extent with messages, or the start of the thread. */
  ghost predicate Pending(states: seq<State>, acts: seq<Action>, k: nat) {
    k <= |acts| && k <= |states| &&
    exists j | 0 <= j < k :: Returns(states[j], acts[j]) && forall l | j < l < k :: !acts[l].Encode? && !acts[l].Relaunch?
  }

  lemma StepMark(s: State, a: Action, threshold: nat)
    requires Inv(s) && Enabled(s, a, threshold)
    ensures Apply(s, a, threshold).scan.wrapAround
            <==> !a.Encode? && !a.Relaunch? && (s.scan.wrapAround || Returns(s, a))
  {
    hide BuffersOk, Conserved, OutputOk, ChunkOk, DoCommit, MissedFrom, DoDecideDelete, Advance;
    if a.Relock? { MarkAdvances(s.scan, s.scan.control.i, |s.threads.bufs|); }
    if a.DecideDelete? { MarkDecides(s, s.scan.control.i); }
  }

  lemma MarkAdvances(c: Scan, i: nat, n: nat)
    requires i < n
    ensures Advance(c, i, n).wrapAround <==> c.wrapAround || i + 1 == n
  {
    if i + 1 < n { ModSmall(i + 1, n); } else { ModSelf(n); }
  }

  lemma MarkDecides(s: State, i: nat)
    requires s.scan.control == CheckingDelete(i) && i < |s.threads.bufs|
    ensures DoDecideDelete(s, i).scan.wrapAround <==> s.scan.wrapAround || Returns(s, DecideDelete)
  {
    hide MissedFrom;
    var n := |s.threads.bufs|;
    MarkAdvances(s.scan, i, n);
    if n > 1 { if i + 1 == n { ModSelf(n - 1); } else { ModSmall(i, n - 1); } }
  }

  lemma PendingStep(states: seq<State>, acts: seq<Action>, k: nat)
    requires k < |acts| && k < |states|
    ensures k + 1 <= |states| ==>
              (Pending(states, acts, k + 1)
               <==> !acts[k].Encode? && !acts[k].Relaunch? && (Pending(states, acts, k) || Returns(states[k], acts[k])))
  {
    NoReturn(states[k], acts[k]);
    hide Returns;
    if Pending(states, acts, k + 1) {
      var j :| 0 <= j < k + 1 && Returns(states[j], acts[j]) && forall l | j < l < k + 1 :: !acts[l].Encode? && !acts[l].Relaunch?;
      if j < k {
        assert !acts[k].Encode? && !acts[k].Relaunch?;
        assert Returns(states[j], acts[j]) && forall l | j < l < k :: !acts[l].Encode? && !acts[l].Relaunch?;
        assert Pending(states, acts, k);
      }
    }
    if Pending(states, acts, k) && !acts[k].Encode? && !acts[k].Relaunch? {
      var j :| 0 <= j < k && Returns(states[j], acts[j]) && forall l | j < l < k :: !acts[l].Encode? && !acts[l].Relaunch?;
      assert Returns(states[j], acts[j]) && forall l | j < l < k + 1 :: !acts[l].Encode? && !acts[l].Relaunch?;
      assert Pending(states, acts, k + 1);
    }
    if Returns(states[k], acts[k]) {
      assert Pending(states, acts, k + 1);
    }
  }

  lemma {:induction false} MarkIsPending(states: seq<State>, acts: seq<Action>, threshold: nat, k: nat)
    requires IsRun(states, acts, threshold) && k < |states|
    ensures states[k].scan.wrapAround <==> Pending(states, acts, k)
    decreases k
  {
    hide Enabled, Apply, Inv, Returns;
    if k > 0 {
      MarkIsPending(states, acts, threshold, k - 1);
      RunInv(states, acts, threshold, k - 1);
      assert IsStep(states[k - 1], acts[k - 1], states[k - 1 + 1], threshold);
      StepMark(states[k - 1], acts[k - 1], threshold);
      PendingStep(states, acts, k - 1);
      hide Pending;
    } else {
      StartUnmarked(states[0]);
    }
  }

  lemma StartUnmarked(s: State)
    requires Init(s)
    ensures !s.scan.wrapAround
  {
  }

  /** The actions that put an extent into the log. */
  predicate Emits(a: Action) {
    a.Encode? || (a.EncodeNothing? && a.header)
  }

  /** Exactly the first extent with messages after the scan has come back carries the mark, and those
      without messages before it. */
  lemma MarkExact(states: seq<State>, acts: seq<Action>, threshold: nat, k: nat)
    requires IsRun(states, acts, threshold) && k < |acts| && Emits(acts[k])
    ensures var s, t := states[k], states[k + 1]; var i := s.scan.control.i;
            && i < |s.threads.bufs| && |t.output.encoder| == |s.output.encoder| + 1
            && t.output.encoder[..|s.output.encoder|] == s.output.encoder
            && (acts[k].Encode? ==> acts[k].n <= |s.threads.bufs[i].unread|)
            && var item := t.output.encoder[|s.output.encoder|];
               && item.Extent? && item.bufferId == s.threads.bufs[i].id
               && item.msgs == (if acts[k].Encode? then s.threads.bufs[i].unread[..acts[k].n] else [])
               && (item.wrapAround <==> Pending(states, acts, k))
  {
    MarkIsPending(states, acts, threshold, k);
    RunInv(states, acts, threshold, k);
    assert IsStep(states[k], acts[k], states[k + 1], threshold);
    hide IsRun, Pending, BuffersOk, Conserved, OutputOk, ChunkOk;
  }

  /** Nothing else puts an extent into the log. */
  lemma OtherItems(s: State, a: Action, threshold: nat)
    requires Inv(s) && Enabled(s, a, threshold) && !Emits(a)
    ensures var log, more := Log(s.output), Log(Apply(s, a, threshold).output);
            |log| <= |more| <= |log| + 1 && more[..|log|] == log
            && (|more| > |log| ==> !more[|log|].Extent?)
  {
    hide BuffersOk, Conserved, IndicesOk;
  }

  // ---- Stages ----

  /** The log as the ordered decoder sees it. */
  function MergeLog(items: seq<Item>): (r: seq<M.Entry>)
    ensures |r| == |items|
  {
    seq(|items|, i requires 0 <= i < |items| => MergeEntry(items[i]))
  }

  function MergeEntry(item: Item): M.Entry {
    match item
    case Extent(_, wrapAround, msgs) =>
      M.Extent(seq(|msgs|, i requires 0 <= i < |msgs| => M.Msg(msgs[i].timestamp, msgs[i].fmtId)), wrapAround)
    case _ => M.DictionaryOrPadding
  }

  lemma {:induction false} StageNoPrefix(items: seq<Item>, more: seq<Item>, e: nat)
    requires items <= more && e <= |items|
    ensures O.StageNo(MergeLog(more), e) == O.StageNo(MergeLog(items), e)
  {
    if e > 0 {
      StageNoPrefix(items, more, e - 1);
      assert more[e - 1] == items[e - 1];
    }
  }

  lemma {:induction false} StageNoMore(items: seq<Item>, item: Item)
    ensures var n := |items|; var more := items + [item];
            O.StageNo(MergeLog(more), n + 1)
            == O.StageNo(MergeLog(items), n) + (if item.Extent? && item.wrapAround then 1 else 0)
  {
    StageNoPrefix(items, items + [item], |items|);
  }

  /** The extents, up to step k, before which the scan had come back. */
  ghost function StageEnds(states: seq<State>, acts: seq<Action>, k: nat): nat
    requires k <= |acts| && k < |states|
  {
    if k == 0 then 0
    else StageEnds(states, acts, k - 1) + (if Emits(acts[k - 1]) && Pending(states, acts, k - 1) then 1 else 0)
  }

  /** How often the scan has come back up to step k, and how often an extent has got no message. */
  function Rounds(states: seq<State>, acts: seq<Action>, k: nat): nat
    requires k <= |acts| && k < |states|
  {
    if k == 0 then 0
    else Rounds(states, acts, k - 1) + (if Returns(states[k - 1], acts[k - 1]) then 1 else 0)
  }

  function Failures(acts: seq<Action>, k: nat): nat
    requires k <= |acts|
  {
    if k == 0 then 0
    else Failures(acts, k - 1) + (if acts[k - 1].EncodeNothing? && acts[k - 1].header then 1 else 0)
  }

  lemma LogStep(states: seq<State>, acts: seq<Action>, threshold: nat, k: nat)
    requires IsRun(states, acts, threshold) && k < |acts|
    ensures var log, more := Log(states[k].output), Log(states[k + 1].output);
            |log| <= |more| <= |log| + 1 && more[..|log|] == log
            && (|more| > |log| && more[|log|].Extent? && more[|log|].wrapAround
                <==> Emits(acts[k]) && Pending(states, acts, k))
            && (Emits(acts[k]) ==> |more| == |log| + 1)
  {
    RunInv(states, acts, threshold, k);
    assert IsStep(states[k], acts[k], states[k + 1], threshold);
    if Emits(acts[k]) {
      MarkExact(states, acts, threshold, k);
      EmitsOnly(states[k], acts[k], threshold);
    } else {
      OtherItems(states[k], acts[k], threshold);
    }
    hide IsRun, Inv, Pending, Enabled, Apply;
  }

  lemma EmitsOnly(s: State, a: Action, threshold: nat)
    requires Enabled(s, a, threshold) && Emits(a)
    ensures var t := Apply(s, a, threshold); t.output.file == s.output.file && t.output.inflight == s.output.inflight
  {
  }

  lemma StageStep(log: seq<Item>, more: seq<Item>)
    requires |log| <= |more| <= |log| + 1 && more[..|log|] == log
    ensures O.StageNo(MergeLog(more), |more|)
            == O.StageNo(MergeLog(log), |log|)
               + (if |more| > |log| && more[|log|].Extent? && more[|log|].wrapAround then 1 else 0)
  {
    hide O.StageNo, MergeLog;
    if |more| > |log| {
      assert more == log + [more[|log|]];
      StageNoMore(log, more[|log|]);
    } else {
      assert more == log;
    }
  }

  /** The number of the stage that the next extent will be in. */
  function StageCount(s: State): nat {
    O.StageNo(MergeLog(Log(s.output)), |Log(s.output)|)
  }

  lemma StageOverStep(states: seq<State>, acts: seq<Action>, threshold: nat, k: nat)
    requires IsRun(states, acts, threshold) && k < |acts| && |states| == |acts| + 1
    ensures StageCount(states[k + 1])
            == StageCount(states[k]) + (if Emits(acts[k]) && Pending(states, acts, k) then 1 else 0)
  {
    LogStep(states, acts, threshold, k);
    hide IsRun, Pending, Emits, Log, O.StageNo, MergeLog;
    StageStep(Log(states[k].output), Log(states[k + 1].output));
  }

  /** The extent that is emitted in step k is in the stage of this number: one more for every extent
      before it that was the first after the scan had come back. */
  lemma {:induction false} StageOfExtent(states: seq<State>, acts: seq<Action>, threshold: nat, k: nat)
    requires IsRun(states, acts, threshold) && k < |states|
    ensures |states| == |acts| + 1 && StageCount(states[k]) == StageEnds(states, acts, k)
    decreases k
  {
    hide *;
    RunLength(states, acts, threshold);
    StageEndsStep(states, acts, k);
    if k > 0 {
      StageOfExtent(states, acts, threshold, k - 1);
      StageOverStep(states, acts, threshold, k - 1);
    } else {
      StartStage(states[0]);
    }
  }

  lemma RunLength(states: seq<State>, acts: seq<Action>, threshold: nat)
    requires IsRun(states, acts, threshold)
    ensures |states| == |acts| + 1 && Init(states[0])
  {
    hide Enabled, Apply, Init;
  }

  lemma StageEndsStep(states: seq<State>, acts: seq<Action>, k: nat)
    requires k <= |acts| && k < |states|
    ensures StageEnds(states, acts, k)
            == if k == 0 then 0
               else StageEnds(states, acts, k - 1) + (if Emits(acts[k - 1]) && Pending(states, acts, k - 1) then 1 else 0)
  {
    hide Pending, Emits;
  }

  lemma StartStage(s: State)
    requires Init(s)
    ensures StageCount(s) == 0
  {
    assert O.StageNo(MergeLog(Log(s.output)), 0) == 0;
  }

  /** There are no more stages than times the scan has come back, but for extents without messages. */
  lemma {:induction false} StagesAreRounds(states: seq<State>, acts: seq<Action>, k: nat)
    requires k <= |acts| && k < |states|
    ensures StageEnds(states, acts, k) + (if Pending(states, acts, k) then 1 else 0)
            <= Rounds(states, acts, k) + Failures(acts, k)
  {
    hide Returns;
    if k > 0 {
      StagesAreRounds(states, acts, k - 1);
      PendingStep(states, acts, k - 1);
      hide Pending;
    }
  }

  /** Between two extents with messages that carry the mark, the scan has come back. */
  lemma MarksApart(states: seq<State>, acts: seq<Action>, k: nat, l: nat)
    requires k < l < |acts| && l < |states| && acts[k].Encode? && Pending(states, acts, l)
    ensures exists j | k < j < l :: Returns(states[j], acts[j])
  {
    hide Returns;
    var j :| 0 <= j < l && Returns(states[j], acts[j]) && forall m | j < m < l :: !acts[m].Encode? && !acts[m].Relaunch?;
    assert j != k ==> k < j;
    if j == k { NoReturn(states[k], acts[k]); }
  }

  lemma NoReturn(s: State, a: Action)
    ensures a.Encode? || a.Relaunch? ==> !Returns(s, a)
  {
  }
}
