/** When ordered decompression really prints in order. */
module MergeOrder {
  import opened OrderedMerge
  import opened MergeConservation

  /** The stage an extent belongs to: a stage ends with an extent whose wrapAround is set. */
  function StageNo(log: seq<Entry>, e: nat): nat
    requires e <= |log|
  {
    if e == 0 then 0
    else StageNo(log, e - 1) + (if log[e - 1].Extent? && log[e - 1].wrapAround then 1 else 0)
  }

  predicate SortedMsgs(msgs: seq<Msg>) {
    forall i, j | 0 <= i < j < |msgs| :: msgs[i].timestamp <= msgs[j].timestamp
  }

  ghost predicate ExtentsSorted(log: seq<Entry>) {
    forall e | 0 <= e < |log| && log[e].Extent? :: SortedMsgs(log[e].msgs)
  }

  predicate HoldsMessage(log: seq<Entry>, e: nat, n: nat) {
    e < |log| && log[e].Extent? && log[e].msgs != [] && StageNo(log, e) == n
  }

  /** Every stage that is complete has a message. */
  ghost predicate StagesFilled(log: seq<Entry>) {
    forall e | 0 <= e < |log| && log[e].Extent? && log[e].wrapAround ::
      exists a :: 0 <= a <= e && HoldsMessage(log, a, StageNo(log, e))
  }

  /** Stages that are at least `gap` apart are in order. */
  ghost predicate StagesApart(log: seq<Entry>, gap: nat) {
    forall a, b | 0 <= a < |log| && 0 <= b < |log| && log[a].Extent? && log[b].Extent?
                  && StageNo(log, a) + gap <= StageNo(log, b) :: Before(log[a].msgs, log[b].msgs)
  }

  predicate Before(xs: seq<Msg>, ys: seq<Msg>) {
    forall x <- xs, y <- ys :: x.timestamp <= y.timestamp
  }

  /** A time that extent `a` shows without having messages is not later than any message two stages on. */
  ghost predicate EarlyStale(log: seq<Entry>, a: nat, t: nat)
    requires a < |log| && log[a].Extent?
  {
    forall b | 0 <= b < |log| && log[b].Extent? && StageNo(log, a) + 2 <= StageNo(log, b) ::
      forall y <- log[b].msgs :: t <= y.timestamp
  }

  ghost predicate StalesEarly(log: seq<Entry>, stages: seq<Stage>) {
    forall i, e | 0 <= i < |stages| && e in stages[i] && stages[i][e].msgs == [] && e < |log| && log[e].Extent? ::
      EarlyStale(log, e, stages[i][e].stale)
  }

  predicate InOrder(out: seq<Printed>) {
    forall i, j | 0 <= i < j < |out| :: out[i].msg.timestamp <= out[j].msg.timestamp
  }

  /** A fragment holds an end of its extent, and nothing only if the extent is empty. */
  predicate FragOk(log: seq<Entry>, e: nat, f: Fragment) {
    && e < |log| && log[e].Extent?
    && |f.msgs| <= |log[e].msgs| && (f.msgs == [] ==> log[e].msgs == [])
    && f.msgs == log[e].msgs[|log[e].msgs| - |f.msgs|..]
  }

  predicate HasMsg(stage: Stage) {
    exists e :: e in stage && stage[e].msgs != []
  }

  ghost predicate FragsOk(log: seq<Entry>, stages: seq<Stage>) {
    forall i | 0 <= i < |stages| :: forall e <- stages[i] :: FragOk(log, e, stages[i][e])
  }

  ghost predicate StagesOk(log: seq<Entry>, m: Merge)
    requires m.pos <= |log|
  {
    forall i | 0 <= i < |m.stages| :: forall e <- m.stages[i] ::
      e < m.pos && StageNo(log, e) + m.buffered == StageNo(log, m.pos) + i
  }

  /** Nothing still to come is earlier than `t`. */
  ghost predicate Floor(log: seq<Entry>, m: Merge, t: nat) {
    FloorStages(m.stages, t) && FloorUnread(log, m.pos, t)
  }

  ghost predicate FloorStages(stages: seq<Stage>, t: nat) {
    forall i | 0 <= i < |stages| :: forall e <- stages[i] :: stages[i][e].msgs != [] ==> t <= stages[i][e].Key()
  }

  ghost predicate FloorUnread(log: seq<Entry>, pos: nat, t: nat) {
    forall e | pos <= e < |log| && log[e].Extent? :: forall y <- log[e].msgs :: t <= y.timestamp
  }

  ghost predicate OrderOk(log: seq<Entry>, m: Merge) {
    && Shape(log, m)
    && FragsOk(log, m.stages)
    && (!m.deplete ==> StagesOk(log, m))
    && (m.deplete ==> m.pos == |log|)
    && InOrder(m.out)
    && (m.out != [] ==> Floor(log, m, m.out[|m.out| - 1].msg.timestamp))
  }

  lemma {:induction false} StageNoGrows(log: seq<Entry>, a: nat, b: nat)
    requires a <= b <= |log|
    ensures StageNo(log, a) <= StageNo(log, b)
  {
    if a < b { StageNoGrows(log, a, b - 1); }
  }

  lemma FragBefore(log: seq<Entry>, a: nat, f: Fragment, b: nat, g: Fragment)
    requires StagesApart(log, 2) && FragOk(log, a, f) && FragOk(log, b, g) && g.msgs != []
    requires f.msgs == [] ==> EarlyStale(log, a, f.stale)
    requires StageNo(log, a) + 2 <= StageNo(log, b)
    ensures f.Key() <= g.Key()
  {
    assert g.msgs[0] in log[b].msgs;
    if f.msgs != [] {
      assert Before(log[a].msgs, log[b].msgs);
      assert f.msgs[0] in log[a].msgs;
    }
  }

  // ---- Reading ----

  lemma ReadEntryOrder(log: seq<Entry>, m: Merge)
    requires ExtentsSorted(log) && OrderOk(log, m) && !m.deplete
    requires m.buffered < STAGES_TO_BUFFER && m.pos < |log|
    ensures var r := ReadEntry(log, m); OrderOk(log, r) && !r.deplete
  {
    hide InOrder, StageNo;
    var r := ReadEntry(log, m);
    StageNoStep(log, m.pos);
    if log[m.pos].Extent? {
      var f := FragmentOf(log[m.pos].msgs, m.free);
      assert FragOk(log, m.pos, f);
      if f.msgs != [] { assert log[m.pos].msgs[0] in log[m.pos].msgs; }
    }
    assert StagesOk(log, r);
    assert FragsOk(log, r.stages);
  }

  lemma StageNoStep(log: seq<Entry>, e: nat)
    requires e < |log|
    ensures StageNo(log, e + 1) == StageNo(log, e) + (if log[e].Extent? && log[e].wrapAround then 1 else 0)
  {
  }

  /** What has been read of the current stage is still there. */
  ghost predicate Intact(log: seq<Entry>, m: Merge)
    requires Shape(log, m) && m.buffered < STAGES_TO_BUFFER
  {
    forall a | 0 <= a < m.pos && HoldsMessage(log, a, StageNo(log, m.pos)) ::
      a in m.stages[m.buffered] && m.stages[m.buffered][a].msgs != []
  }

  /** The next entry belongs to a new stage. */
  predicate AtBoundary(log: seq<Entry>, pos: nat) {
    pos <= |log| && (pos == 0 || (log[pos - 1].Extent? && log[pos - 1].wrapAround))
  }

  lemma BoundaryIntact(log: seq<Entry>, m: Merge)
    requires Shape(log, m) && m.buffered < STAGES_TO_BUFFER && AtBoundary(log, m.pos)
    ensures Intact(log, m)
  {
    forall a | 0 <= a < m.pos ensures StageNo(log, a) < StageNo(log, m.pos) { StageNoGrows(log, a, m.pos - 1); }
  }

  lemma ReadEntryIntact(log: seq<Entry>, m: Merge)
    requires StagesFilled(log) && Shape(log, m) && m.buffered < STAGES_TO_BUFFER && m.pos < |log| && Intact(log, m)
    ensures var r := ReadEntry(log, m);
            && (r.buffered == m.buffered ==> Intact(log, r))
            && (r.buffered > m.buffered ==> AtBoundary(log, r.pos) && HasMsg(r.stages[m.buffered]))
  {
    hide StageNo;
    var r := ReadEntry(log, m);
    StageNoStep(log, m.pos);
    if r.buffered > m.buffered {
      var a :| 0 <= a <= m.pos && HoldsMessage(log, a, StageNo(log, m.pos));
      assert a in r.stages[m.buffered] && r.stages[m.buffered][a].msgs != [];
    }
  }

  /** Reading ends at the end of the file, or with a message in every stage it has completed. */
  lemma {:induction false} ReadStagesOrder(log: seq<Entry>, m: Merge)
    requires ExtentsSorted(log) && StagesFilled(log) && Shape(log, m) && OrderOk(log, m)
    requires !m.deplete && m.buffered < STAGES_TO_BUFFER && Intact(log, m)
    ensures var r := ReadStages(log, m);
            && OrderOk(log, r)
            && (!r.deplete ==> r.buffered == STAGES_TO_BUFFER && AtBoundary(log, r.pos)
                               && (forall i | m.buffered <= i < STAGES_TO_BUFFER :: HasMsg(r.stages[i]))
                               && (forall i | 0 <= i < m.buffered :: r.stages[i] == m.stages[i]))
    decreases |log| - m.pos
  {
    hide OrderOk, Intact, HasMsg, StagesFilled, AtBoundary, ExtentsSorted;
    if m.pos == |log| {
      EndOfFileOrder(log, m);
    } else {
      ReadEntryOrder(log, m);
      ReadEntryIntact(log, m);
      var r := ReadEntry(log, m);
      if r.buffered < STAGES_TO_BUFFER {
        if r.buffered > m.buffered { BoundaryIntact(log, r); }
        ReadStagesOrder(log, r);
      }
    }
  }

  lemma EndOfFileOrder(log: seq<Entry>, m: Merge)
    requires OrderOk(log, m) && m.pos == |log| && m.buffered < STAGES_TO_BUFFER
    ensures OrderOk(log, EndOfFile(log, m)) && EndOfFile(log, m).deplete
  {
    hide InOrder, StagesOk, FragsOk;
  }

  // ---- Printing ----

  /** The chosen stage has a least front, and is the first such stage. */
  lemma {:induction false} MinStageLeast(m: Merge, front: Front, n: nat)
    requires IsFront(front) && n <= |m.stages|
    ensures var k := MinStage(m, front, n);
            && (k < 0 ==> forall i | 0 <= i < n :: m.stages[i] == map[])
            && (k >= 0 ==> forall i | 0 <= i < n && m.stages[i] != map[] ::
                             FrontKey(m, front, k) <= FrontKey(m, front, i)
                             && (i < k ==> FrontKey(m, front, k) < FrontKey(m, front, i)))
  {
    if n > 0 { MinStageLeast(m, front, n - 1); }
  }

  lemma FrontIsLeast(m: Merge, front: Front, i: nat, e: nat)
    requires IsFront(front) && i < |m.stages| && e in m.stages[i]
    ensures m.stages[i] != map[] && FrontKey(m, front, i) <= m.stages[i][e].Key()
    ensures front(|m.out|, m.stages[i]) in m.stages[i]
  {
    assert m.stages[i] != map[];
    assert IsLeast(m.stages[i], front(|m.out|, m.stages[i]));
  }

  /** Printing from the chosen stage keeps the order if the message, should there be one, is not later
      than anything that has not been read yet. */
  lemma PrintOrder(log: seq<Entry>, m: Merge, front: Front, k: nat)
    requires ExtentsSorted(log) && OrderOk(log, m) && IsFront(front)
    requires k == MinStage(m, front, m.buffered) && EmptyFrom(m.stages, m.buffered)
    requires FrontFragment(m, front, k).msgs != [] ==> FloorUnread(log, m.pos, FrontKey(m, front, k))
    ensures OrderOk(log, PrintFrom(m, front, k))
  {
    hide InOrder, FragsOk, StagesOk, FloorStages, FloorUnread, MinStage, EmptyFrom, IsFront, ExtentsSorted, StageNo;
    FrontFrag(log, m, front, k);
    PrintWeight(log, m, front, k);
    PrintStages(log, m, front, k);
    var e0 := front(|m.out|, m.stages[k]);
    var f := m.stages[k][e0];
    if f.msgs == [] {
      if m.out != [] { FloorFewer(m.stages, m.out[|m.out| - 1].msg.timestamp, k, e0); }
    } else {
      PrintFloor(log, m, front, k);
      if m.out != [] { FloorAt(m.stages, m.out[|m.out| - 1].msg.timestamp, k, e0); }
      AppendInOrder(m.out, Printed(e0, f.msgs[0]));
    }
  }

  function FrontFragment(m: Merge, front: Front, i: nat): Fragment
    requires IsFront(front) && i < |m.stages| && m.stages[i] != map[]
  {
    m.stages[i][front(|m.out|, m.stages[i])]
  }

  lemma FloorFewer(stages: seq<Stage>, t: nat, k: nat, e0: nat)
    requires FloorStages(stages, t) && k < |stages|
    ensures FloorStages(stages[k := stages[k] - {e0}], t)
  {
  }

  lemma FrontFrag(log: seq<Entry>, m: Merge, front: Front, k: nat)
    requires FragsOk(log, m.stages) && IsFront(front) && k < |m.stages| && m.stages[k] != map[]
    ensures var e0 := front(|m.out|, m.stages[k]);
            e0 in m.stages[k] && FragOk(log, e0, m.stages[k][e0])
  {
    assert IsLeast(m.stages[k], front(|m.out|, m.stages[k]));
  }

  lemma FloorAt(stages: seq<Stage>, t: nat, k: nat, e: nat)
    requires FloorStages(stages, t) && k < |stages| && e in stages[k] && stages[k][e].msgs != []
    ensures t <= stages[k][e].Key()
  {
  }

  lemma AppendInOrder(out: seq<Printed>, p: Printed)
    requires InOrder(out) && (out != [] ==> out[|out| - 1].msg.timestamp <= p.msg.timestamp)
    ensures InOrder(out + [p])
  {
  }

  lemma PrintStages(log: seq<Entry>, m: Merge, front: Front, k: nat)
    requires OrderOk(log, m) && IsFront(front) && k < |m.stages| && m.stages[k] != map[]
    ensures var r := PrintFrom(m, front, k);
            FragsOk(log, r.stages) && (!m.deplete ==> StagesOk(log, r))
  {
    hide InOrder, Floor, StageNo, IsFront;
    FrontFrag(log, m, front, k);
    var e0 := front(|m.out|, m.stages[k]);
    var f := m.stages[k][e0];
    var r := PrintFrom(m, front, k);
    if |f.msgs| > 1 { assert FragOk(log, e0, r.stages[k][e0]); }
    FragsAfter(log, m.stages, k, r.stages[k], e0);
    if !m.deplete { StagesAfter(log, m, k, r.stages[k], r.out); }
  }

  lemma FragsAfter(log: seq<Entry>, stages: seq<Stage>, k: nat, s: Stage, e0: nat)
    requires FragsOk(log, stages) && k < |stages|
    requires forall e <- s :: e in stages[k] && (e == e0 || s[e] == stages[k][e])
    requires e0 in s ==> FragOk(log, e0, s[e0])
    ensures FragsOk(log, stages[k := s])
  {
    hide FragOk;
  }

  lemma StagesAfter(log: seq<Entry>, m: Merge, k: nat, s: Stage, out: seq<Printed>)
    requires m.pos <= |log| && StagesOk(log, m) && k < |m.stages|
    requires forall e <- s :: e in m.stages[k]
    ensures StagesOk(log, m.(stages := m.stages[k := s], out := out))
  {
    hide StageNo;
  }

  /** After the print, no fragment starts earlier than the printed message. */
  lemma PrintFloor(log: seq<Entry>, m: Merge, front: Front, k: nat)
    requires ExtentsSorted(log) && FragsOk(log, m.stages) && IsFront(front) && m.buffered <= |m.stages|
    requires k == MinStage(m, front, m.buffered) && EmptyFrom(m.stages, m.buffered)
    requires FrontFragment(m, front, k).msgs != []
    ensures FloorStages(PrintFrom(m, front, k).stages, FrontKey(m, front, k))
  {
    hide MinStage, EmptyFrom, ExtentsSorted, FragsOk, IsFront, StageNo;
    var r := PrintFrom(m, front, k);
    var e0 := front(|m.out|, m.stages[k]);
    FrontIn(m, front, k);
    NextNotEarlier(log, m, front, k);
    MinStageLeast(m, front, m.buffered);
    forall i, e | 0 <= i < |r.stages| && e in r.stages[i] && r.stages[i][e].msgs != []
      ensures FrontKey(m, front, k) <= r.stages[i][e].Key()
    {
      if i != k || e != e0 {
        assert e in m.stages[i] && r.stages[i][e] == m.stages[i][e];
        FrontIsLeast(m, front, i, e);
        NotBeyond(m, i);
      }
    }
  }

  lemma FrontIn(m: Merge, front: Front, k: nat)
    requires IsFront(front) && k < |m.stages| && m.stages[k] != map[]
    ensures front(|m.out|, m.stages[k]) in m.stages[k]
  {
    assert IsLeast(m.stages[k], front(|m.out|, m.stages[k]));
  }

  /** The next message of the fragment printed from is not earlier than the one printed. */
  lemma NextNotEarlier(log: seq<Entry>, m: Merge, front: Front, k: nat)
    requires ExtentsSorted(log) && FragsOk(log, m.stages) && IsFront(front)
    requires k < |m.stages| && m.stages[k] != map[] && FrontFragment(m, front, k).msgs != []
    ensures var e0, r := front(|m.out|, m.stages[k]), PrintFrom(m, front, k);
            e0 in r.stages[k] && r.stages[k][e0].msgs != [] ==> FrontKey(m, front, k) <= r.stages[k][e0].Key()
  {
    FrontFrag(log, m, front, k);
    hide IsFront, FragsOk, StageNo;
    var e0 := front(|m.out|, m.stages[k]);
    var f := m.stages[k][e0];
    assert SortedMsgs(log[e0].msgs);
    if |f.msgs| > 1 { assert f.msgs[0].timestamp <= f.msgs[1].timestamp; }
  }

  lemma NotBeyond(m: Merge, i: nat)
    requires EmptyFrom(m.stages, m.buffered) && i < |m.stages| && m.stages[i] != map[]
    ensures i < m.buffered
  {
  }

  lemma ShiftOrder(log: seq<Entry>, m: Merge)
    requires OrderOk(log, m) && m.buffered > 0 && m.stages[0] == map[] && EmptyFrom(m.stages, m.buffered)
    ensures OrderOk(log, ShiftStages(m)) && EmptyFrom(ShiftStages(m).stages, m.buffered - 1)
  {
    hide InOrder, StageNo, FragOk;
    ShiftWeight(log, m);
    var r := ShiftStages(m);
    assert forall i | 0 <= i < 3 :: r.stages[i] == if i + 1 < m.buffered then m.stages[i + 1] else map[];
    if !m.deplete { assert StagesOk(log, r); }
  }

  // ---- The window ----

  /** What lets the decoder print before it has read everything: the last buffered stage still has a
      message, and the first is not done with or the second has one. */
  predicate Window(stages: seq<Stage>)
    requires |stages| == STAGES_TO_BUFFER
  {
    HasMsg(stages[2]) && (stages[0] != map[] || HasMsg(stages[1]))
  }

  /** With the window, the least message is not later than anything unread. */
  lemma WindowFloor(log: seq<Entry>, m: Merge, front: Front, k: nat)
    requires StagesApart(log, 2) && StalesEarly(log, m.stages) && OrderOk(log, m) && IsFront(front) && !m.deplete
    requires m.buffered == STAGES_TO_BUFFER && Window(m.stages) && k == MinStage(m, front, m.buffered)
    requires FrontFragment(m, front, k).msgs != []
    ensures FloorUnread(log, m.pos, FrontKey(m, front, k))
  {
    if k == 2 {
      ThirdStageWaits(log, m, front, k);
      var a :| a in m.stages[1] && m.stages[1][a].msgs != [];
      FrontIsLeast(m, front, 1, a);
      MinStageLeast(m, front, m.buffered);
      MessageFloor(log, m, 1, a, FrontKey(m, front, k));
    } else {
      var a := front(|m.out|, m.stages[k]);
      assert IsLeast(m.stages[k], a);
      MessageFloor(log, m, k, a, FrontKey(m, front, k));
    }
  }

  /** The messages of the first two stages are not later than anything unread. */
  lemma MessageFloor(log: seq<Entry>, m: Merge, i: nat, a: nat, t: nat)
    requires StagesApart(log, 2) && OrderOk(log, m) && !m.deplete && m.buffered == STAGES_TO_BUFFER
    requires i <= 1 && a in m.stages[i] && m.stages[i][a].msgs != [] && t <= m.stages[i][a].Key()
    ensures FloorUnread(log, m.pos, t)
  {
    hide InOrder, StageNo;
    var f := m.stages[i][a];
    assert FragOk(log, a, f);
    forall e | m.pos <= e < |log| && log[e].Extent?
      ensures forall y <- log[e].msgs :: t <= y.timestamp
    {
      StageNoGrows(log, m.pos, e);
      assert Before(log[a].msgs, log[e].msgs);
      assert f.msgs[0] in log[a].msgs;
    }
  }

  /** While the first stage has fragments, no message of the third is printed. */
  lemma ThirdStageWaits(log: seq<Entry>, m: Merge, front: Front, k: nat)
    requires StagesApart(log, 2) && StalesEarly(log, m.stages) && OrderOk(log, m) && IsFront(front) && !m.deplete
    requires m.buffered == STAGES_TO_BUFFER && k == MinStage(m, front, m.buffered) && k >= 0
    ensures k == 2 && FrontFragment(m, front, k).msgs != [] ==> m.stages[0] == map[]
  {
    hide MinStage, InOrder, StageNo;
    MinStageLeast(m, front, m.buffered);
    if k == 2 && FrontFragment(m, front, k).msgs != [] && m.stages[0] != map[] {
      var a, b := front(|m.out|, m.stages[0]), front(|m.out|, m.stages[2]);
      assert IsLeast(m.stages[0], a) && IsLeast(m.stages[2], b);
      FragBefore(log, a, m.stages[0][a], b, m.stages[2][b]);
    }
  }

  /** Stages that are not printed from keep their messages, and so does one that an empty fragment
      leaves. */
  lemma KeepsMsg(m: Merge, front: Front, k: nat, i: nat)
    requires IsFront(front) && k < |m.stages| && m.stages[k] != map[] && i < |m.stages| && HasMsg(m.stages[i])
    requires i != k || FrontFragment(m, front, k).msgs == []
    ensures HasMsg(PrintFrom(m, front, k).stages[i])
  {
    var a :| a in m.stages[i] && m.stages[i][a].msgs != [];
    assert a in PrintFrom(m, front, k).stages[i];
  }

  lemma HasMsgIsSome(stage: Stage)
    requires HasMsg(stage)
    ensures stage != map[]
  {
  }

  /** Printing leaves no new fragments without messages. */
  lemma PrintEarly(log: seq<Entry>, m: Merge, front: Front, k: nat)
    requires StalesEarly(log, m.stages) && IsFront(front) && k < |m.stages| && m.stages[k] != map[]
    ensures StalesEarly(log, PrintFrom(m, front, k).stages)
  {
    hide EarlyStale;
    var r := PrintFrom(m, front, k);
    forall i, e | 0 <= i < |r.stages| && e in r.stages[i] && r.stages[i][e].msgs == [] && e < |log| && log[e].Extent?
      ensures EarlyStale(log, e, r.stages[i][e].stale)
    {
      assert e in m.stages[i] && m.stages[i][e] == r.stages[i][e];
    }
  }

  lemma ShiftEarly(log: seq<Entry>, m: Merge)
    requires |m.stages| == STAGES_TO_BUFFER && 0 < m.buffered <= STAGES_TO_BUFFER && StalesEarly(log, m.stages)
    ensures StalesEarly(log, ShiftStages(m).stages)
  {
    hide EarlyStale;
    var r := ShiftStages(m);
    assert forall i | 0 <= i < 3 ::
      r.stages[i] == if i + 1 < m.buffered then m.stages[i + 1] else if i + 1 == m.buffered then map[] else m.stages[i];
  }

  /** A round over a full window ends with two stages of which the first is not empty or the second
      has a message. */
  lemma {:induction false} DepleteWindow(log: seq<Entry>, m: Merge, front: Front)
    requires ExtentsSorted(log) && StagesApart(log, 2) && StalesEarly(log, m.stages)
    requires Shape(log, m) && OrderOk(log, m) && IsFront(front)
    requires !m.deplete && m.buffered == STAGES_TO_BUFFER && Window(m.stages)
    ensures var r := Deplete(log, m, front);
            && OrderOk(log, r) && !r.deplete && r.buffered == 2 && EmptyFrom(r.stages, 2)
            && (r.stages[0] != map[] || HasMsg(r.stages[1])) && StalesEarly(log, r.stages)
    decreases Weight(m.stages, m.pos)
  {
    hide OrderOk, MinStage, ExtentsSorted, StagesApart, StalesEarly, HasMsg;
    var k := MinStage(m, front, m.buffered);
    MinStageLeast(m, front, m.buffered);
    HasMsgIsSome(m.stages[2]);
    ThirdStageWaits(log, m, front, k);
    var prints := FrontFragment(m, front, k).msgs != [];
    if prints { WindowFloor(log, m, front, k); }
    PrintOrder(log, m, front, k);
    PrintWeight(log, m, front, k);
    var p := PrintFrom(m, front, k);
    if k == 2 && prints { HasMsgIsSome(m.stages[1]); } else { KeepsMsg(m, front, k, 2); }
    PrintEarly(log, m, front, k);
    if p.stages[0] != map[] {
      DepleteWindow(log, p, front);
    } else {
      ShiftOrder(log, p);
      ShiftWeight(log, p);
      ShiftEarly(log, p);
    }
  }

  lemma {:induction false} DepleteAllOrder(log: seq<Entry>, m: Merge, front: Front)
    requires ExtentsSorted(log) && Shape(log, m) && OrderOk(log, m) && IsFront(front) && m.deplete
    requires EmptyFrom(m.stages, m.buffered) && m.pos == |log|
    ensures OrderOk(log, Deplete(log, m, front))
    decreases Weight(m.stages, m.pos)
  {
    hide OrderOk, MinStage, ExtentsSorted;
    var k := MinStage(m, front, m.buffered);
    if k < 0 {
      NoBuffered(log, m);
    } else {
      PrintOrder(log, m, front, k);
      PrintWeight(log, m, front, k);
      var p := PrintFrom(m, front, k);
      if p.stages[0] != map[] {
        DepleteAllOrder(log, p, front);
      } else {
        ShiftOrder(log, p);
        ShiftWeight(log, p);
        DepleteAllOrder(log, ShiftStages(p), front);
      }
    }
  }

  lemma NoBuffered(log: seq<Entry>, m: Merge)
    requires OrderOk(log, m) && m.deplete
    ensures OrderOk(log, m.(buffered := 0))
  {
    hide InOrder, FragsOk;
  }

  // ---- What empty extents show ----

  /** An extent without messages is harmless when it shows a time that is not later than some message
      printed before it was read, as a fragment does that is new or was freed in the same file, or
      not later than any message two stages on. */
  ghost predicate Harmless(log: seq<Entry>, out: seq<Printed>, a: nat, t: nat)
    requires a < |log| && log[a].Extent?
  {
    t == 0 || (exists p <- out :: t <= p.msg.timestamp) || EarlyStale(log, a, t)
  }

  /** The extents without messages that have been read since `pos` are harmless. */
  ghost predicate ReadHarmless(log: seq<Entry>, pos: nat, m: Merge) {
    forall i, a | 0 <= i < |m.stages| && a in m.stages[i] && pos <= a < |log| && log[a].Extent? && m.stages[i][a].msgs == [] ::
      Harmless(log, m.out, a, m.stages[i][a].stale)
  }

  /** All extents without messages are harmless when they are read. */
  ghost predicate EmptiesHarmless(log: seq<Entry>, m: Merge, front: Front)
    requires Shape(log, m) && m.buffered < STAGES_TO_BUFFER && IsFront(front)
    decreases if m.deplete then 0 else |log| - m.pos + 1
  {
    m.deplete ||
    var r := ReadStages(log, m);
    ReadHarmless(log, m.pos, r) && EmptiesHarmless(log, Deplete(log, r, front), front)
  }

  /** The conditions for ordered output: each extent is in order by itself, stages that are two or more
      apart are in order, every stage has a message, and empty extents are harmless. */
  ghost predicate Orderly(log: seq<Entry>, free: seq<nat>, front: Front)
    requires IsFront(front)
  {
    ExtentsSorted(log) && StagesApart(log, 2) && StagesFilled(log) && EmptiesHarmless(log, Start(free), front)
  }

  lemma HarmlessIsEarly(log: seq<Entry>, m: Merge, a: nat, t: nat)
    requires OrderOk(log, m) && m.pos <= a < |log| && log[a].Extent? && Harmless(log, m.out, a, t)
    ensures EarlyStale(log, a, t)
  {
    hide StageNo, FragsOk, StagesOk, FloorStages;
    forall b | 0 <= b < |log| && log[b].Extent? && StageNo(log, a) + 2 <= StageNo(log, b)
      ensures forall y <- log[b].msgs :: t <= y.timestamp
    {
      if b < a { StageNoGrows(log, b, a); }
    }
  }

  /** Reading leaves alone what was in the stages, and the output. */
  lemma {:induction false} ReadKeepsOld(log: seq<Entry>, m: Merge)
    requires Shape(log, m) && m.buffered < STAGES_TO_BUFFER
    ensures var r := ReadStages(log, m);
            && r.out == m.out
            && forall i, e | 0 <= i < STAGES_TO_BUFFER && e < m.pos && e in r.stages[i] ::
                 e in m.stages[i] && r.stages[i][e] == m.stages[i][e]
    decreases |log| - m.pos
  {
    hide NextFree, Allocate;
    if m.pos < |log| {
      var r := ReadEntry(log, m);
      if r.buffered < STAGES_TO_BUFFER { ReadKeepsOld(log, r); }
    }
  }

  lemma ReadEarly(log: seq<Entry>, m: Merge)
    requires OrderOk(log, m) && m.buffered < STAGES_TO_BUFFER && StalesEarly(log, m.stages)
    requires ReadHarmless(log, m.pos, ReadStages(log, m))
    ensures StalesEarly(log, ReadStages(log, m).stages)
  {
    ReadKeepsOld(log, m);
    hide OrderOk, Harmless, EarlyStale, ReadStages;
    var r := ReadStages(log, m);
    forall i, e | 0 <= i < |r.stages| && e in r.stages[i] && r.stages[i][e].msgs == [] && e < |log| && log[e].Extent?
      ensures EarlyStale(log, e, r.stages[i][e].stale)
    {
      if e >= m.pos {
        HarmlessIsEarly(log, m, e, r.stages[i][e].stale);
      } else {
        assert m.stages[i][e] == r.stages[i][e];
      }
    }
  }

  lemma {:induction false} RunOrder(log: seq<Entry>, m: Merge, front: Front)
    requires ExtentsSorted(log) && StagesFilled(log) && StagesApart(log, 2)
    requires Shape(log, m) && OrderOk(log, m) && IsFront(front) && m.buffered < STAGES_TO_BUFFER
    requires (!m.deplete ==> StalesEarly(log, m.stages)) && EmptiesHarmless(log, m, front)
    requires Conserved(log, m) && EmptyFrom(m.stages, m.buffered)
    requires !m.deplete ==> AtBoundary(log, m.pos)
                            && (m.buffered == 0 || (m.buffered == 2 && (m.stages[0] != map[] || HasMsg(m.stages[1]))))
    requires m.deplete ==> m.pos == |log|
    ensures InOrder(Run(log, m, front).out)
    decreases if m.deplete then 0 else |log| - m.pos + 1
  {
    hide ReadStages, Deplete, Conserved, ExtentsSorted, StagesFilled, StagesApart, OrderOk, StalesEarly, Harmless, Intact,
         HasMsg, AtBoundary;
    if m.deplete {
      OrderedOut(log, m);
    } else {
      var r := ReadStages(log, m);
      BoundaryIntact(log, m);
      ReadStagesOrder(log, m);
      ReadStagesKeeps(log, m);
      ReadEarly(log, m);
      DepleteKeeps(log, r, front);
      var d := Deplete(log, r, front);
      if r.deplete { DepleteAllOrder(log, r, front); } else { DepleteWindow(log, r, front); }
      RunOrder(log, d, front);
    }
  }

  lemma OrderedOut(log: seq<Entry>, m: Merge)
    requires OrderOk(log, m)
    ensures InOrder(m.out)
  {
  }

  /** Ordered output: under these conditions the messages come out in order of their timestamps,
      however the heaps break ties. */
  lemma DecompressesInOrder(log: seq<Entry>, free: seq<nat>, front: Front)
    requires IsFront(front) && Orderly(log, free, front)
    ensures InOrder(Decompress(log, free, front))
  {
    StartConserved(log, free);
    RunOrder(log, Start(free), front);
  }

  // ---- What recycled fragments show ----

  predicate NotLater(log: seq<Entry>, t: nat) {
    forall e | 0 <= e < |log| && log[e].Extent? :: forall y <- log[e].msgs :: t <= y.timestamp
  }

  /** A time that is none, that of something printed, or before everything in the file. */
  ghost predicate Tame(log: seq<Entry>, out: seq<Printed>, t: nat) {
    t == 0 || (exists p <- out :: t <= p.msg.timestamp) || NotLater(log, t)
  }

  /** All times that an extent without messages shows or may come to show are tame. */
  ghost predicate AllTame(log: seq<Entry>, m: Merge) {
    && (forall t <- m.free :: Tame(log, m.out, t))
    && (forall i, e | 0 <= i < |m.stages| && e in m.stages[i] && m.stages[i][e].msgs == [] ::
          Tame(log, m.out, m.stages[i][e].stale))
  }

  lemma TameHarmless(log: seq<Entry>, out: seq<Printed>, a: nat, t: nat)
    requires Tame(log, out, t) && a < |log| && log[a].Extent?
    ensures Harmless(log, out, a, t)
  {
    hide StageNo;
  }

  lemma ReadEntryTame(log: seq<Entry>, m: Merge)
    requires Shape(log, m) && m.buffered < STAGES_TO_BUFFER && m.pos < |log| && AllTame(log, m)
    ensures AllTame(log, ReadEntry(log, m))
  {
    hide NotLater;
    var r := ReadEntry(log, m);
    assert Tame(log, m.out, NextFree(m.free));
    hide Tame, NextFree;
    forall i, e | 0 <= i < |r.stages| && e in r.stages[i] && r.stages[i][e].msgs == []
      ensures Tame(log, r.out, r.stages[i][e].stale)
    {
      if e == m.pos { assert i == m.buffered; } else { assert e in m.stages[i] && m.stages[i][e] == r.stages[i][e]; }
    }
  }

  lemma {:induction false} ReadStagesTame(log: seq<Entry>, m: Merge)
    requires Shape(log, m) && m.buffered < STAGES_TO_BUFFER && AllTame(log, m)
    ensures AllTame(log, ReadStages(log, m))
    decreases |log| - m.pos
  {
    hide Tame;
    if m.pos < |log| {
      ReadEntryTame(log, m);
      hide AllTame, ReadEntry;
      var r := ReadEntry(log, m);
      if r.buffered < STAGES_TO_BUFFER { ReadStagesTame(log, r); }
    }
  }

  /** What is freed shows what it has printed last. */
  lemma PrintTame(log: seq<Entry>, m: Merge, front: Front, k: nat)
    requires AllTame(log, m) && IsFront(front) && k < |m.stages| && m.stages[k] != map[]
    ensures AllTame(log, PrintFrom(m, front, k))
  {
    hide NotLater;
    var r := PrintFrom(m, front, k);
    var e0 := front(|m.out|, m.stages[k]);
    assert IsLeast(m.stages[k], e0);
    var f := m.stages[k][e0];
    assert m.out <= r.out;
    forall t: nat | Tame(log, m.out, t) ensures Tame(log, r.out, t) {}
    assert Tame(log, r.out, f.Key()) by {
      if f.msgs != [] { assert r.out[|m.out|] == Printed(e0, f.msgs[0]) && r.out[|m.out|] in r.out; }
    }
    hide Tame;
    forall i, e | 0 <= i < |r.stages| && e in r.stages[i] && r.stages[i][e].msgs == []
      ensures Tame(log, r.out, r.stages[i][e].stale)
    {
      assert e in m.stages[i] && m.stages[i][e] == r.stages[i][e];
    }
  }

  lemma ShiftTame(log: seq<Entry>, m: Merge)
    requires |m.stages| == STAGES_TO_BUFFER && 0 < m.buffered <= STAGES_TO_BUFFER && AllTame(log, m)
    ensures AllTame(log, ShiftStages(m))
  {
    hide Tame;
    var r := ShiftStages(m);
    assert forall i | 0 <= i < 3 ::
      r.stages[i] == if i + 1 < m.buffered then m.stages[i + 1] else if i + 1 == m.buffered then map[] else m.stages[i];
  }

  lemma {:induction false} DepleteTame(log: seq<Entry>, m: Merge, front: Front)
    requires Shape(log, m) && IsFront(front) && AllTame(log, m)
    ensures AllTame(log, Deplete(log, m, front))
    decreases Weight(m.stages, m.pos)
  {
    hide MinStage, Tame;
    var k := MinStage(m, front, m.buffered);
    if k >= 0 {
      PrintTame(log, m, front, k);
      PrintWeight(log, m, front, k);
      var p := PrintFrom(m, front, k);
      hide AllTame;
      if p.stages[0] != map[] {
        DepleteTame(log, p, front);
      } else {
        ShiftTame(log, p);
        ShiftWeight(log, p);
        if p.deplete { DepleteTame(log, ShiftStages(p), front); }
      }
    }
  }

  /** From tame times on, all extents without messages are harmless. */
  lemma {:induction false} TameIsHarmless(log: seq<Entry>, m: Merge, front: Front)
    requires Shape(log, m) && m.buffered < STAGES_TO_BUFFER && IsFront(front) && AllTame(log, m)
    ensures EmptiesHarmless(log, m, front)
    decreases if m.deplete then 0 else |log| - m.pos + 1
  {
    hide ReadStages, Deplete, Tame, Harmless;
    if !m.deplete {
      var r := ReadStages(log, m);
      ReadStagesTame(log, m);
      ReadKeepsOld(log, m);
      DepleteTame(log, r, front);
      forall i, a | 0 <= i < |r.stages| && a in r.stages[i] && m.pos <= a < |log| && log[a].Extent? && r.stages[i][a].msgs == []
        ensures Harmless(log, r.out, a, r.stages[i][a].stale)
      {
        TameHarmless(log, r.out, a, r.stages[i][a].stale);
      }
      TameIsHarmless(log, Deplete(log, r, front), front);
    }
  }

  /** A decoder whose free fragments show no time later than the messages of the file at hand, in
      particular a new one, needs no condition on extents without messages: each extent in order,
      stages two or more apart in order, and a message in every stage are enough. */
  lemma TameOrderly(log: seq<Entry>, free: seq<nat>, front: Front)
    requires IsFront(front) && ExtentsSorted(log) && StagesApart(log, 2) && StagesFilled(log)
    requires forall t <- free :: NotLater(log, t)
    ensures Orderly(log, free, front)
  {
    hide StageNo, EmptiesHarmless;
    TameIsHarmless(log, Start(free), front);
  }

  lemma NewDecoderInOrder(log: seq<Entry>, front: Front)
    requires IsFront(front) && ExtentsSorted(log) && StagesApart(log, 2) && StagesFilled(log)
    ensures InOrder(Decompress(log, [], front))
  {
    hide ExtentsSorted, StagesApart, StagesFilled, Orderly;
    TameOrderly(log, [], front);
    DecompressesInOrder(log, [], front);
  }

  // ---- Logs without empty extents ----

  predicate NoneEmpty(log: seq<Entry>) {
    forall e | 0 <= e < |log| && log[e].Extent? :: log[e].msgs != []
  }

  /** No fragment without messages comes of them, whatever the free ones show. */
  ghost predicate AllFull(stages: seq<Stage>) {
    forall i, e | 0 <= i < |stages| && e in stages[i] :: stages[i][e].msgs != []
  }

  lemma {:induction false} NoneHarmful(log: seq<Entry>, m: Merge, front: Front)
    requires NoneEmpty(log) && Shape(log, m) && m.buffered < STAGES_TO_BUFFER && IsFront(front) && AllFull(m.stages)
    ensures EmptiesHarmless(log, m, front)
    decreases if m.deplete then 0 else |log| - m.pos + 1
  {
    hide ReadStages, Deplete, Harmless;
    if !m.deplete {
      ReadFull(log, m);
      DepleteFull(log, ReadStages(log, m), front);
      NoneHarmful(log, Deplete(log, ReadStages(log, m), front), front);
    }
  }

  lemma {:induction false} ReadFull(log: seq<Entry>, m: Merge)
    requires NoneEmpty(log) && Shape(log, m) && m.buffered < STAGES_TO_BUFFER && AllFull(m.stages)
    ensures AllFull(ReadStages(log, m).stages)
    decreases |log| - m.pos
  {
    hide NextFree, Allocate;
    if m.pos < |log| {
      var r := ReadEntry(log, m);
      assert AllFull(r.stages);
      if r.buffered < STAGES_TO_BUFFER { ReadFull(log, r); }
    }
  }

  lemma {:induction false} DepleteFull(log: seq<Entry>, m: Merge, front: Front)
    requires Shape(log, m) && IsFront(front) && AllFull(m.stages)
    ensures AllFull(Deplete(log, m, front).stages)
    decreases Weight(m.stages, m.pos)
  {
    hide MinStage;
    var k := MinStage(m, front, m.buffered);
    if k >= 0 {
      PrintWeight(log, m, front, k);
      var p := PrintFrom(m, front, k);
      assert AllFull(p.stages);
      if p.stages[0] != map[] {
        DepleteFull(log, p, front);
      } else {
        ShiftWeight(log, p);
        ShiftFull(p);
        if p.deplete { DepleteFull(log, ShiftStages(p), front); }
      }
    }
  }

  lemma ShiftFull(m: Merge)
    requires |m.stages| == STAGES_TO_BUFFER && 0 < m.buffered <= STAGES_TO_BUFFER && AllFull(m.stages)
    ensures AllFull(ShiftStages(m).stages)
  {
    var r := ShiftStages(m);
    assert forall i | 0 <= i < 3 ::
      r.stages[i] == if i + 1 < m.buffered then m.stages[i + 1] else if i + 1 == m.buffered then map[] else m.stages[i];
  }

  /** When no extent is empty, the first two conditions are enough for any decoder. */
  lemma NonEmptyOrderly(log: seq<Entry>, free: seq<nat>, front: Front)
    requires IsFront(front) && ExtentsSorted(log) && StagesApart(log, 2) && NoneEmpty(log)
    ensures Orderly(log, free, front)
  {
    hide StageNo, EmptiesHarmless;
    NoneHarmful(log, Start(free), front);
    forall e | 0 <= e < |log| && log[e].Extent? && log[e].wrapAround
      ensures exists a :: 0 <= a <= e && HoldsMessage(log, a, StageNo(log, e))
    {
      assert HoldsMessage(log, e, StageNo(log, e));
    }
  }
}
