/** The conditions of MergeOrder cannot be relaxed: the source's comments ask for stages three apart to
    be in order, and extents may be empty; that does not suffice, nor do stages without a message or
    empty extents that show a late time. */
module MergeLimits {
  import opened OrderedMerge
  import opened MergeConservation
  import opened MergeOrder

  lemma {:induction false} DepleteGrows(log: seq<Entry>, m: Merge, front: Front)
    requires Shape(log, m) && IsFront(front)
    ensures m.out <= Deplete(log, m, front).out
    decreases Weight(m.stages, m.pos)
  {
    hide MinStage, Weight, ShiftStages;
    var k := MinStage(m, front, m.buffered);
    if k >= 0 {
      PrintWeight(log, m, front, k);
      var p := PrintFrom(m, front, k);
      PrintGrows(m, front, k);
      if p.stages[0] != map[] {
        DepleteGrows(log, p, front);
      } else {
        ShiftWeight(log, p);
        SameOut(p);
        if p.deplete { DepleteGrows(log, ShiftStages(p), front); }
      }
    }
  }

  lemma PrintGrows(m: Merge, front: Front, k: nat)
    requires IsFront(front) && k < |m.stages| && m.stages[k] != map[]
    ensures m.out <= PrintFrom(m, front, k).out
  {
  }

  lemma SameOut(m: Merge)
    requires |m.stages| == STAGES_TO_BUFFER && 0 < m.buffered <= STAGES_TO_BUFFER
    ensures ShiftStages(m).out == m.out && ShiftStages(m).deplete == m.deplete
  {
  }

  lemma {:induction false} ReadKeepsOut(log: seq<Entry>, m: Merge)
    requires Shape(log, m) && m.buffered < STAGES_TO_BUFFER
    ensures ReadStages(log, m).out == m.out
    decreases |log| - m.pos
  {
    if m.pos < |log| {
      var r := ReadEntry(log, m);
      if r.buffered < STAGES_TO_BUFFER { ReadKeepsOut(log, r); }
    }
  }

  lemma {:induction false} RunGrows(log: seq<Entry>, m: Merge, front: Front)
    requires Shape(log, m) && m.buffered < STAGES_TO_BUFFER && IsFront(front)
    ensures m.out <= Run(log, m, front).out
    decreases if m.deplete then 0 else |log| - m.pos + 1
  {
    hide ReadStages, Deplete;
    if !m.deplete {
      var r := ReadStages(log, m);
      ReadKeepsOut(log, m);
      DepleteGrows(log, r, front);
      RunGrows(log, Deplete(log, r, front), front);
    }
  }

  /** Two neighbours in the wrong order spoil the whole output. */
  lemma Spoiled(log: seq<Entry>, m: Merge, front: Front, i: nat)
    requires Shape(log, m) && m.buffered < STAGES_TO_BUFFER && IsFront(front)
    requires i + 1 < |m.out| && m.out[i].msg.timestamp > m.out[i + 1].msg.timestamp
    ensures !InOrder(Run(log, m, front).out)
  {
    RunGrows(log, m, front);
    var out := Run(log, m, front).out;
    assert out[i] == m.out[i] && out[i + 1] == m.out[i + 1];
  }

  /** A stage that holds one fragment with one message, or nothing. */
  function One(e: nat, t: nat): Stage { map[e := Fragment([Msg(t, 0)], 0)] }

  lemma OneFront(front: Front, now: nat, e: nat, f: Fragment)
    requires IsFront(front)
    ensures front(now, map[e := f]) == e
  {
    var stage: Stage := map[e := f];
    assert e in stage;
    assert IsLeast(stage, front(now, stage));
  }

  // ---- Stages three apart in order are not enough ----

  function Single(t: nat): Entry { Extent([Msg(t, 0)], true) }

  // The last stage has not come to its end.
  const LATE: seq<Entry> :=
    [DictionaryOrPadding, Single(2), Single(1), Single(10), Single(11), Extent([Msg(5, 0)], false)]

  const L1 := Merge(4, [One(1, 2), One(2, 1), One(3, 10)], 3, false, [], [])
  const L2 := Merge(4, [map[], One(3, 10), map[]], 2, false, [Printed(2, Msg(1, 0)), Printed(1, Msg(2, 0))], [1, 2])
  const L3 := Merge(5, [map[], One(3, 10), One(4, 11)], 3, false, L2.out, [1])
  const L4 := Merge(5, [map[], One(4, 11), map[]], 2, false, L2.out + [Printed(3, Msg(10, 0))], [1, 10])
  const L5 := Merge(6, [map[], One(4, 11), One(5, 5)], 3, true, L4.out, [1])
  const L6 := Merge(6, [One(4, 11), map[], map[]], 2, true, L4.out + [Printed(5, Msg(5, 0))], [1, 5])

  lemma LateStart()
    ensures Shape(LATE, Start([])) && ReadStages(LATE, Start([])) == L1
  {
    var z := ReadEntry(LATE, Start([]));
    assert z == Merge(1, [map[], map[], map[]], 0, false, [], []);
    LateStart2(z);
  }

  lemma LateStart2(z: Merge)
    requires z == Merge(1, [map[], map[], map[]], 0, false, [], [])
    ensures Shape(LATE, z) && ReadStages(LATE, z) == L1
  {
    var a := ReadEntry(LATE, z);
    assert a == Merge(2, [One(1, 2), map[], map[]], 1, false, [], []);
    var b := ReadEntry(LATE, a);
    assert b == Merge(3, [One(1, 2), One(2, 1), map[]], 2, false, [], []);
    assert ReadEntry(LATE, b) == L1;
    assert ReadStages(LATE, b) == L1;
  }

  lemma LateRead()
    ensures Shape(LATE, L2) && ReadStages(LATE, L2) == L3
    ensures Shape(LATE, L4) && ReadStages(LATE, L4) == L5
  {
    assert ReadEntry(LATE, L2) == L3;
    LateReadLast();
  }

  lemma LateReadLast()
    ensures Shape(LATE, L4) && ReadStages(LATE, L4) == L5
  {
    var a := ReadEntry(LATE, L4);
    assert a == Merge(6, [map[], One(4, 11), One(5, 5)], 2, false, L4.out, [1]);
    assert 5 in a.stages[2];
    assert EndOfFile(LATE, a) == L5;
  }

  predicate Later(stage: Stage, t: nat) { forall e <- stage :: t < stage[e].Key() }

  /** A stage with one fragment is chosen when the other stages start later. */
  lemma Choose(m: Merge, front: Front, k: nat, e: nat, t: nat)
    requires IsFront(front) && |m.stages| == STAGES_TO_BUFFER && k < STAGES_TO_BUFFER
    requires m.stages[k] == One(e, t)
    requires k != 0 ==> Later(m.stages[0], t)
    requires k != 1 ==> Later(m.stages[1], t)
    requires k != 2 ==> Later(m.stages[2], t)
    ensures MinStage(m, front, STAGES_TO_BUFFER) == k
    ensures front(|m.out|, m.stages[k]) == e
  {
    OneFront(front, |m.out|, e, Fragment([Msg(t, 0)], 0));
    assert e in m.stages[k];
    forall i | 0 <= i < STAGES_TO_BUFFER && i != k && m.stages[i] != map[]
      ensures t < FrontKey(m, front, i)
    {
      assert IsLeast(m.stages[i], front(|m.out|, m.stages[i]));
    }
    hide IsFront;
    MinStageLeast(m, front, STAGES_TO_BUFFER);
  }

  /** While the first stage is not empty, printing goes on. */
  lemma PrintsOn(log: seq<Entry>, m: Merge, front: Front, k: nat)
    requires Shape(log, m) && IsFront(front) && MinStage(m, front, m.buffered) == k
    requires k < |m.stages| && m.stages[k] != map[] && PrintFrom(m, front, k).stages[0] != map[]
    ensures Shape(log, PrintFrom(m, front, k))
    ensures Deplete(log, m, front) == Deplete(log, PrintFrom(m, front, k), front)
  {
    hide MinStage, PrintFrom, Weight;
    PrintWeight(log, m, front, k);
  }

  /** Printing a fragment's only message. */
  lemma PrintOne(m: Merge, front: Front, k: nat, e: nat, t: nat)
    requires IsFront(front) && |m.stages| == STAGES_TO_BUFFER && k < STAGES_TO_BUFFER
    requires m.stages[k] == One(e, t) && front(|m.out|, m.stages[k]) == e
    ensures m.stages[k] != map[]
    ensures PrintFrom(m, front, k) == m.(stages := m.stages[k := map[]], out := m.out + [Printed(e, Msg(t, 0))],
                                           free := m.free + [t])
  {
    assert e in m.stages[k];
    assert One(e, t) - {e} == map[];
  }

  lemma LateRound1(front: Front)
    requires IsFront(front)
    ensures Shape(LATE, L1) && Deplete(LATE, L1, front) == L2
  {
    hide IsFront, MinStage, PrintFrom, Weight, Deplete;
    Choose(L1, front, 1, 2, 1);
    PrintOne(L1, front, 1, 2, 1);
    var p := PrintFrom(L1, front, 1);
    assert p == Merge(4, [One(1, 2), map[], One(3, 10)], 3, false, [Printed(2, Msg(1, 0))], [1]);
    assert 1 in p.stages[0];
    PrintsOn(LATE, L1, front, 1);
    LateSecond(front, p);
  }

  lemma LateSecond(front: Front, p: Merge)
    requires IsFront(front) && p == Merge(4, [One(1, 2), map[], One(3, 10)], 3, false, [Printed(2, Msg(1, 0))], [1])
    ensures Shape(LATE, p) && Deplete(LATE, p, front) == L2
  {
    hide IsFront, MinStage, PrintFrom, Weight;
    Choose(p, front, 0, 1, 2);
    PrintOne(p, front, 0, 1, 2);
    var q := PrintFrom(p, front, 0);
    assert q == Merge(4, [map[], map[], One(3, 10)], 3, false, L2.out, [1, 2]);
    assert ShiftStages(q) == L2;
  }

  lemma LateRound2(front: Front)
    requires IsFront(front)
    ensures Shape(LATE, L3) && Deplete(LATE, L3, front) == L4
  {
    hide IsFront, MinStage, PrintFrom, Weight;
    Choose(L3, front, 1, 3, 10);
    PrintOne(L3, front, 1, 3, 10);
    var p := PrintFrom(L3, front, 1);
    assert p == Merge(5, [map[], map[], One(4, 11)], 3, false, L4.out, [1, 10]);
    assert ShiftStages(p) == L4;
  }

  lemma LateRound3(front: Front)
    requires IsFront(front)
    ensures Shape(LATE, L5) && Shape(LATE, L6) && Deplete(LATE, L5, front) == Deplete(LATE, L6, front)
  {
    hide IsFront, MinStage, PrintFrom, Weight;
    Choose(L5, front, 2, 5, 5);
    PrintOne(L5, front, 2, 5, 5);
    var p := PrintFrom(L5, front, 2);
    assert p == Merge(6, [map[], One(4, 11), map[]], 3, true, L6.out, [1, 5]);
    PrintWeight(LATE, L5, front, 2);
    assert ShiftStages(p) == L6;
    ShiftWeight(LATE, p);
  }

  /** The window of three stages that the source's comments describe does not order this log, in
      which any two stages three or more apart are in order. */
  lemma ThreeStageWindowFails(front: Front)
    requires IsFront(front)
    ensures ExtentsSorted(LATE) && NoneEmpty(LATE) && StagesApart(LATE, 3) && !StagesApart(LATE, 2)
    ensures !InOrder(Decompress(LATE, [], front))
  {
    hide Run, ReadStages, Deplete, ExtentsSorted, StagesApart, IsFront;
    LateStages();
    LateStart(); LateRound1(front); LateRead(); LateRound2(front); LateRound3(front);
    LateRun(front);
    DepleteGrows(LATE, L6, front);
    var d := Deplete(LATE, L6, front);
    assert d.out[2] == L6.out[2] && d.out[3] == L6.out[3];
    Spoiled(LATE, d, front, 2);
  }

  lemma LateRun(front: Front)
    requires IsFront(front)
    requires Shape(LATE, Start([])) && Shape(LATE, L1) && Shape(LATE, L2) && Shape(LATE, L3)
    requires Shape(LATE, L4) && Shape(LATE, L5) && Shape(LATE, L6)
    requires ReadStages(LATE, Start([])) == L1 && Deplete(LATE, L1, front) == L2
    requires ReadStages(LATE, L2) == L3 && Deplete(LATE, L3, front) == L4
    requires ReadStages(LATE, L4) == L5 && Deplete(LATE, L5, front) == Deplete(LATE, L6, front)
    ensures Run(LATE, Start([]), front) == Run(LATE, Deplete(LATE, L6, front), front)
  {
    hide ReadStages, Deplete, IsFront, Shape;
    assert Run(LATE, L4, front) == Run(LATE, Deplete(LATE, L6, front), front);
    assert Run(LATE, L2, front) == Run(LATE, L4, front);
  }

  lemma LateStages()
    ensures ExtentsSorted(LATE) && NoneEmpty(LATE) && StagesApart(LATE, 3) && !StagesApart(LATE, 2)
  {
    hide StageNo;
    LateApart();
    LateNo();
    assert !Before(LATE[3].msgs, LATE[5].msgs) by { assert Msg(10, 0) in LATE[3].msgs && Msg(5, 0) in LATE[5].msgs; }
    hide StagesApart;
  }

  lemma {:induction false} LateApart()
    ensures StagesApart(LATE, 3)
  {
    LateNo();
    hide StageNo;
  }

  lemma {:induction false} LateNo()
    ensures StageNo(LATE, 0) == 0 && StageNo(LATE, 1) == 0 && StageNo(LATE, 2) == 1
    ensures StageNo(LATE, 3) == 2 && StageNo(LATE, 4) == 3 && StageNo(LATE, 5) == 4
  {
    StageNoStep(LATE, 0);
    StageNoStep(LATE, 1);
    StageNoStep(LATE, 2);
    StageNoStep(LATE, 3);
    StageNoStep(LATE, 4);
  }

  // ---- A stage without messages ----

  const EMPTIES: seq<Entry> := [Single(5), Single(4), Extent([], true), Single(10), Single(7)]

  // What a new fragment without messages looks like to the heap.
  const NOTHING := Fragment([], 0)

  const E1 := Merge(3, [One(0, 5), One(1, 4), map[2 := NOTHING]], 3, false, [], [])
  const E2 := Merge(3, [map[], map[], map[]], 2, false, [Printed(1, Msg(4, 0)), Printed(0, Msg(5, 0))], [0, 4, 5])
  const E3 := Merge(4, [map[], map[], One(3, 10)], 3, false, E2.out, [0, 4])
  const E4 := Merge(4, [map[], map[], map[]], 2, false, E2.out + [Printed(3, Msg(10, 0))], [0, 4, 10])
  const E5 := Merge(5, [map[], map[], One(4, 7)], 3, false, E4.out, [0, 4])
  const E6 := Merge(5, [map[], map[], map[]], 2, false, E4.out + [Printed(4, Msg(7, 0))], [0, 4, 7])

  lemma {:induction false} EmptiesRead()
    ensures Shape(EMPTIES, Start([])) && ReadStages(EMPTIES, Start([])) == E1
    ensures Shape(EMPTIES, E2) && ReadStages(EMPTIES, E2) == E3
    ensures Shape(EMPTIES, E4) && ReadStages(EMPTIES, E4) == E5
  {
    var a := ReadEntry(EMPTIES, Start([]));
    assert a == Merge(1, [One(0, 5), map[], map[]], 1, false, [], []);
    var b := ReadEntry(EMPTIES, a);
    assert b == Merge(2, [One(0, 5), One(1, 4), map[]], 2, false, [], []);
    assert ReadEntry(EMPTIES, b) == E1;
    assert ReadStages(EMPTIES, b) == E1;
    assert ReadEntry(EMPTIES, E2) == E3;
    assert ReadEntry(EMPTIES, E4) == E5;
  }

  predicate NotEarlier(stage: Stage, t: nat) { forall e <- stage :: t <= stage[e].Key() }

  /** A stage with one fragment is chosen when the stages before it start later and those behind it
      not earlier. */
  lemma {:induction false} ChooseFragment(m: Merge, front: Front, k: nat, e: nat, f: Fragment)
    requires IsFront(front) && |m.stages| == STAGES_TO_BUFFER && k < STAGES_TO_BUFFER
    requires m.stages[k] == map[e := f]
    requires if k > 0 then Later(m.stages[0], f.Key()) else NotEarlier(m.stages[0], f.Key())
    requires if k > 1 then Later(m.stages[1], f.Key()) else NotEarlier(m.stages[1], f.Key())
    requires NotEarlier(m.stages[2], f.Key())
    ensures MinStage(m, front, STAGES_TO_BUFFER) == k && front(|m.out|, m.stages[k]) == e
  {
    OneFront(front, |m.out|, e, f);
    assert e in m.stages[k];
    forall i | 0 <= i < STAGES_TO_BUFFER && i != k && m.stages[i] != map[]
      ensures f.Key() <= FrontKey(m, front, i) && (i < k ==> f.Key() < FrontKey(m, front, i))
    {
      assert IsLeast(m.stages[i], front(|m.out|, m.stages[i]));
    }
    hide IsFront;
    MinStageLeast(m, front, STAGES_TO_BUFFER);
  }

  lemma {:induction false} PrintFragment(m: Merge, front: Front, k: nat, e: nat, f: Fragment)
    requires IsFront(front) && |m.stages| == STAGES_TO_BUFFER && k < STAGES_TO_BUFFER
    requires m.stages[k] == map[e := f] && front(|m.out|, m.stages[k]) == e
    ensures m.stages[k] != map[]
    ensures PrintFrom(m, front, k)
            == m.(stages := m.stages[k := if |f.msgs| > 1 then map[e := f.(msgs := f.msgs[1..])] else map[]],
                  out := if f.msgs != [] then m.out + [Printed(e, f.msgs[0])] else m.out,
                  free := if |f.msgs| > 1 then m.free else m.free + [f.Key()])
  {
    assert e in m.stages[k];
    assert m.stages[k] - {e} == map[];
    if |f.msgs| > 1 {
      assert m.stages[k][e := f.(msgs := f.msgs[1..])] == map[e := f.(msgs := f.msgs[1..])];
    }
  }

  lemma {:induction false} EmptiesRound1(front: Front)
    requires IsFront(front)
    ensures Shape(EMPTIES, E1) && Deplete(EMPTIES, E1, front) == E2
  {
    hide IsFront, MinStage, PrintFrom, Weight, Deplete;
    ChooseFragment(E1, front, 2, 2, NOTHING);
    PrintFragment(E1, front, 2, 2, NOTHING);
    var p := PrintFrom(E1, front, 2);
    assert p == Merge(3, [One(0, 5), One(1, 4), map[]], 3, false, [], [0]);
    assert 0 in p.stages[0];
    PrintsOn(EMPTIES, E1, front, 2);
    EmptiesSecond(front, p);
  }

  lemma {:induction false} EmptiesSecond(front: Front, p: Merge)
    requires IsFront(front) && p == Merge(3, [One(0, 5), One(1, 4), map[]], 3, false, [], [0])
    ensures Shape(EMPTIES, p) && Deplete(EMPTIES, p, front) == E2
  {
    hide IsFront, MinStage, PrintFrom, Weight, Deplete;
    assert 0 in p.stages[0];
    Choose(p, front, 1, 1, 4);
    PrintOne(p, front, 1, 1, 4);
    var q := PrintFrom(p, front, 1);
    assert q == Merge(3, [One(0, 5), map[], map[]], 3, false, [Printed(1, Msg(4, 0))], [0, 4]);
    assert 0 in q.stages[0];
    PrintsOn(EMPTIES, p, front, 1);
    EmptiesThird(front, q);
  }

  lemma {:induction false} EmptiesThird(front: Front, q: Merge)
    requires IsFront(front)
    requires q == Merge(3, [One(0, 5), map[], map[]], 3, false, [Printed(1, Msg(4, 0))], [0, 4])
    ensures Shape(EMPTIES, q) && Deplete(EMPTIES, q, front) == E2
  {
    hide IsFront, MinStage, PrintFrom, Weight;
    Choose(q, front, 0, 0, 5);
    PrintOne(q, front, 0, 0, 5);
    var r := PrintFrom(q, front, 0);
    assert r == Merge(3, [map[], map[], map[]], 3, false, E2.out, [0, 4, 5]);
    assert ShiftStages(r) == E2;
  }

  lemma {:induction false} EmptiesRound2(front: Front)
    requires IsFront(front)
    ensures Shape(EMPTIES, E3) && Deplete(EMPTIES, E3, front) == E4
  {
    hide IsFront, MinStage, PrintFrom, Weight;
    Choose(E3, front, 2, 3, 10);
    PrintOne(E3, front, 2, 3, 10);
    var p := PrintFrom(E3, front, 2);
    assert p == Merge(4, [map[], map[], map[]], 3, false, E4.out, [0, 4, 10]);
    assert ShiftStages(p) == E4;
  }

  lemma {:induction false} EmptiesRound3(front: Front)
    requires IsFront(front)
    ensures Shape(EMPTIES, E5) && Deplete(EMPTIES, E5, front) == E6
  {
    hide IsFront, MinStage, PrintFrom, Weight;
    Choose(E5, front, 2, 4, 7);
    PrintOne(E5, front, 2, 4, 7);
    var p := PrintFrom(E5, front, 2);
    assert p == Merge(5, [map[], map[], map[]], 3, false, E6.out, [0, 4, 7]);
    assert ShiftStages(p) == E6;
  }

  lemma {:induction false} EmptiesRun(front: Front)
    requires IsFront(front)
    requires Shape(EMPTIES, Start([])) && Shape(EMPTIES, E1) && Shape(EMPTIES, E2) && Shape(EMPTIES, E3)
    requires Shape(EMPTIES, E4) && Shape(EMPTIES, E5)
    requires ReadStages(EMPTIES, Start([])) == E1 && Deplete(EMPTIES, E1, front) == E2
    requires ReadStages(EMPTIES, E2) == E3 && Deplete(EMPTIES, E3, front) == E4
    requires ReadStages(EMPTIES, E4) == E5 && Deplete(EMPTIES, E5, front) == E6
    ensures Shape(EMPTIES, E6) && Run(EMPTIES, Start([]), front) == Run(EMPTIES, E6, front)
  {
    hide ReadStages, Deplete, IsFront, Shape;
    assert Run(EMPTIES, E4, front) == Run(EMPTIES, E6, front);
    assert Run(EMPTIES, E2, front) == Run(EMPTIES, E4, front);
  }

  lemma {:induction false} EmptiesStages()
    ensures StagesApart(EMPTIES, 2)
  {
    forall e: nat | e <= 5 ensures StageNo(EMPTIES, e) == e { EmptiesNo(e); }
  }

  lemma {:induction false} EmptiesNo(e: nat)
    requires e <= 5
    ensures StageNo(EMPTIES, e) == e
  {
    if e > 0 { EmptiesNo(e - 1); }
  }

  /** A stage without messages leaves the window without one to wait for: a log that meets all the
      other conditions does not come out in order. */
  lemma {:induction false} EmptyStageFails(front: Front)
    requires IsFront(front)
    ensures ExtentsSorted(EMPTIES) && StagesApart(EMPTIES, 2) && EmptiesHarmless(EMPTIES, Start([]), front)
    ensures !InOrder(Decompress(EMPTIES, [], front))
  {
    hide Run, ReadStages, Deplete, StagesApart, IsFront, EmptiesHarmless;
    TameIsHarmless(EMPTIES, Start([]), front);
    EmptiesStages();
    EmptiesRead();
    EmptiesRound1(front);
    EmptiesRound2(front);
    EmptiesRound3(front);
    EmptiesRun(front);
    Spoiled(EMPTIES, E6, front, 2);
  }

  // ---- A decoder that has gone through another file before ----

  const LINGERS: seq<Entry> :=
    [Extent([Msg(5, 0)], false), Extent([], true), Single(6), Single(10), Single(7)]

  // What is free after another file, the last two messages of which had these times.
  const SECOND: seq<nat> := [1000, 2000]

  const LATER := Fragment([], 1000)
  const FIVE := Fragment([Msg(5, 0)], 0)

  const G1 := Merge(4, [map[0 := FIVE, 1 := LATER], One(2, 6), One(3, 10)], 3, false, [], [])
  const G2 := Merge(4, [map[], map[], map[]], 2, false,
                    [Printed(0, Msg(5, 0)), Printed(2, Msg(6, 0)), Printed(3, Msg(10, 0))], [5, 6, 10, 1000])
  const G3 := Merge(5, [map[], map[], One(4, 7)], 3, false, G2.out, [5, 6, 10])
  const G4 := Merge(5, [map[], map[], map[]], 2, false, G2.out + [Printed(4, Msg(7, 0))], [5, 6, 10, 7])

  lemma {:induction false} LingersRead()
    ensures Shape(LINGERS, Start(SECOND)) && ReadStages(LINGERS, Start(SECOND)) == G1
    ensures Shape(LINGERS, G2) && ReadStages(LINGERS, G2) == G3
  {
    var a := ReadEntry(LINGERS, Start(SECOND));
    assert a == Merge(1, [map[0 := FIVE], map[], map[]], 0, false, [], [1000]);
    var b := ReadEntry(LINGERS, a);
    assert b == Merge(2, [map[0 := FIVE, 1 := LATER], map[], map[]], 1, false, [], []);
    var c := ReadEntry(LINGERS, b);
    assert c == Merge(3, [map[0 := FIVE, 1 := LATER], One(2, 6), map[]], 2, false, [], []);
    assert ReadEntry(LINGERS, c) == G1;
    assert ReadStages(LINGERS, c) == G1;
    assert ReadStages(LINGERS, b) == G1;
    assert ReadEntry(LINGERS, G2) == G3;
  }

  /** Of the two fragments of the first stage, the one with the message is printed first. */
  lemma {:induction false} LingersFirst(front: Front)
    requires IsFront(front)
    ensures MinStage(G1, front, 3) == 0 && G1.stages[0] != map[]
    ensures PrintFrom(G1, front, 0)
            == Merge(4, [map[1 := LATER], One(2, 6), One(3, 10)], 3, false, [Printed(0, Msg(5, 0))], [5])
  {
    var stage := G1.stages[0];
    assert 0 in stage && 1 in stage;
    assert IsLeast(stage, front(0, stage));
    assert front(0, stage) == 0;
    OneFront(front, 0, 2, Fragment([Msg(6, 0)], 0));
    OneFront(front, 0, 3, Fragment([Msg(10, 0)], 0));
    assert 2 in G1.stages[1] && 3 in G1.stages[2];
    assert stage - {0} == map[1 := LATER];
    MinStageLeast(G1, front, 3);
    hide IsFront, MinStage;
    assert FrontKey(G1, front, 0) == 5 && FrontKey(G1, front, 1) == 6 && FrontKey(G1, front, 2) == 10;
  }

  lemma {:induction false} LingersRound1(front: Front)
    requires IsFront(front)
    ensures Shape(LINGERS, G1) && Deplete(LINGERS, G1, front) == G2
  {
    LingersFirst(front);
    hide IsFront, MinStage, PrintFrom, Weight, Deplete, ShiftStages;
    var p := PrintFrom(G1, front, 0);
    assert 1 in p.stages[0];
    PrintsOn(LINGERS, G1, front, 0);
    Choose(p, front, 1, 2, 6);
    PrintOne(p, front, 1, 2, 6);
    var q := PrintFrom(p, front, 1);
    assert q == Merge(4, [map[1 := LATER], map[], One(3, 10)], 3, false, [Printed(0, Msg(5, 0)), Printed(2, Msg(6, 0))], [5, 6]);
    assert 1 in q.stages[0];
    PrintsOn(LINGERS, p, front, 1);
    LingersThird(front, q);
  }

  lemma {:induction false} LingersThird(front: Front, q: Merge)
    requires IsFront(front)
    requires q == Merge(4, [map[1 := LATER], map[], One(3, 10)], 3, false, [Printed(0, Msg(5, 0)), Printed(2, Msg(6, 0))], [5, 6])
    ensures Shape(LINGERS, q) && Deplete(LINGERS, q, front) == G2
  {
    hide IsFront, MinStage, PrintFrom, Weight, Deplete, ShiftStages;
    assert 1 in q.stages[0];
    Choose(q, front, 2, 3, 10);
    PrintOne(q, front, 2, 3, 10);
    var r := PrintFrom(q, front, 2);
    assert r == Merge(4, [map[1 := LATER], map[], map[]], 3, false, G2.out, [5, 6, 10]);
    assert 1 in r.stages[0];
    PrintsOn(LINGERS, q, front, 2);
    LingersLast(front, r);
  }

  lemma {:induction false} LingersLast(front: Front, r: Merge)
    requires IsFront(front) && r == Merge(4, [map[1 := LATER], map[], map[]], 3, false, G2.out, [5, 6, 10])
    ensures Shape(LINGERS, r) && Deplete(LINGERS, r, front) == G2
  {
    hide IsFront, MinStage, PrintFrom, Weight;
    ChooseFragment(r, front, 0, 1, LATER);
    PrintFragment(r, front, 0, 1, LATER);
    var t := PrintFrom(r, front, 0);
    assert t == Merge(4, [map[], map[], map[]], 3, false, G2.out, [5, 6, 10, 1000]);
    assert ShiftStages(t) == G2;
  }

  lemma {:induction false} LingersRound2(front: Front)
    requires IsFront(front)
    ensures Shape(LINGERS, G3) && Deplete(LINGERS, G3, front) == G4
  {
    hide IsFront, MinStage, PrintFrom, Weight;
    Choose(G3, front, 2, 4, 7);
    PrintOne(G3, front, 2, 4, 7);
    var p := PrintFrom(G3, front, 2);
    assert p == Merge(5, [map[], map[], map[]], 3, false, G4.out, [5, 6, 10, 7]);
    assert ShiftStages(p) == G4;
  }

  lemma {:induction false} LingersRun(front: Front)
    requires IsFront(front)
    requires Shape(LINGERS, Start(SECOND)) && Shape(LINGERS, G1) && Shape(LINGERS, G2) && Shape(LINGERS, G3)
    requires ReadStages(LINGERS, Start(SECOND)) == G1 && Deplete(LINGERS, G1, front) == G2
    requires ReadStages(LINGERS, G2) == G3 && Deplete(LINGERS, G3, front) == G4
    ensures Shape(LINGERS, G4) && Run(LINGERS, Start(SECOND), front) == Run(LINGERS, G4, front)
  {
    hide ReadStages, Deplete, IsFront, Shape;
    assert Run(LINGERS, G2, front) == Run(LINGERS, G4, front);
  }

  lemma {:induction false} LingersNo()
    ensures StageNo(LINGERS, 0) == 0 && StageNo(LINGERS, 1) == 0 && StageNo(LINGERS, 2) == 1
    ensures StageNo(LINGERS, 3) == 2 && StageNo(LINGERS, 4) == 3
  {
    StageNoStep(LINGERS, 0);
    StageNoStep(LINGERS, 1);
    StageNoStep(LINGERS, 2);
    StageNoStep(LINGERS, 3);
  }

  lemma {:induction false} LingersApart()
    ensures StagesApart(LINGERS, 2)
  {
    LingersNo();
    hide StageNo;
  }

  lemma {:induction false} LingersFilled()
    ensures StagesFilled(LINGERS)
  {
    LingersNo();
    hide StageNo;
    assert HoldsMessage(LINGERS, 0, 0) && HoldsMessage(LINGERS, 2, 1);
    assert HoldsMessage(LINGERS, 3, 2) && HoldsMessage(LINGERS, 4, 3);
  }

  /** A fragment that was freed in another file, later in time, and is read into an extent without
      messages holds its stage back while the next ones run dry. */
  lemma {:induction false} LateEmptyFails(front: Front)
    requires IsFront(front)
    ensures ExtentsSorted(LINGERS) && StagesApart(LINGERS, 2) && StagesFilled(LINGERS)
    ensures !InOrder(Decompress(LINGERS, SECOND, front))
  {
    hide Run, ReadStages, Deplete, StagesApart, StagesFilled, IsFront;
    LingersApart();
    LingersFilled();
    LingersRead();
    LingersRound1(front);
    LingersRound2(front);
    LingersRun(front);
    Spoiled(LINGERS, G4, front, 2);
  }
}
