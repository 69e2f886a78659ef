/** Ordered decompression prints every message of every extent exactly once, those of one extent in
    their order, whatever the timestamps are and however the heaps break ties. */
module MergeConservation {
  import opened OrderedMerge

  /** The printed messages of one extent. */
  function OfExtent(out: seq<Printed>, e: nat): seq<Msg> {
    if out == [] then []
    else
      var before := OfExtent(out[..|out| - 1], e);
      if out[|out| - 1].extent == e then before + [out[|out| - 1].msg] else before
  }

  lemma OfExtentSnoc(out: seq<Printed>, p: Printed, e: nat)
    ensures OfExtent(out + [p], e) == OfExtent(out, e) + (if p.extent == e then [p.msg] else [])
  {
    assert (out + [p])[..|out|] == out;
  }

  /** The messages of an extent that the stages still hold. */
  function Left(stages: seq<Stage>, e: nat): seq<Msg> {
    if stages == [] then [] else if e in stages[0] then stages[0][e].msgs else Left(stages[1..], e)
  }

  predicate Disjoint(stages: seq<Stage>) {
    forall i, j | 0 <= i < j < |stages| :: stages[i].Keys !! stages[j].Keys
  }

  function Expected(log: seq<Entry>, pos: nat, e: nat): seq<Msg> {
    if e < pos && e < |log| && log[e].Extent? then log[e].msgs else []
  }

  ghost predicate Conserved(log: seq<Entry>, m: Merge) {
    && Shape(log, m) && Disjoint(m.stages)
    && forall e: nat :: OfExtent(m.out, e) + Left(m.stages, e) == Expected(log, m.pos, e)
  }

  predicate EmptyFrom(stages: seq<Stage>, n: nat) {
    forall i | n <= i < |stages| :: stages[i] == map[]
  }

  lemma {:induction false} LeftIn(stages: seq<Stage>, k: nat, e: nat)
    requires k < |stages| && e in stages[k] && Disjoint(stages)
    ensures Left(stages, e) == stages[k][e].msgs
  {
    if k > 0 {
      assert stages[0].Keys !! stages[k].Keys;
      LeftIn(stages[1..], k - 1, e);
    }
  }

  lemma {:induction false} LeftOut(stages: seq<Stage>, e: nat)
    requires forall i | 0 <= i < |stages| :: e !in stages[i]
    ensures Left(stages, e) == []
  {
    if stages != [] { LeftOut(stages[1..], e); }
  }

  /** Changing what one stage knows about one extent leaves the other extents alone. */
  lemma {:induction false} LeftUpdate(stages: seq<Stage>, k: nat, s: Stage, e: nat)
    requires k < |stages|
    requires e in s <==> e in stages[k]
    requires e in s ==> s[e] == stages[k][e]
    ensures Left(stages[k := s], e) == Left(stages, e)
  {
    if k == 0 {
      assert stages[k := s][1..] == stages[1..];
    } else {
      assert stages[k := s][1..] == stages[1..][k - 1 := s];
      LeftUpdate(stages[1..], k - 1, s, e);
    }
  }

  lemma ReadEntryKeeps(log: seq<Entry>, m: Merge)
    requires Conserved(log, m) && m.buffered < STAGES_TO_BUFFER && m.pos < |log|
    requires EmptyFrom(m.stages, m.buffered + 1)
    ensures var r := ReadEntry(log, m);
            Conserved(log, r) && EmptyFrom(r.stages, r.buffered + 1)
            && (r.buffered > m.buffered ==> EmptyFrom(r.stages, r.buffered))
  {
    var r := ReadEntry(log, m);
    forall e: nat ensures OfExtent(r.out, e) + Left(r.stages, e) == Expected(log, r.pos, e) {
      if log[m.pos].Extent? {
        if e == m.pos {
          LeftOut(m.stages, e);
          LeftIn(r.stages, m.buffered, e);
        } else {
          LeftUpdate(m.stages, m.buffered, r.stages[m.buffered], e);
        }
      } else if e == m.pos {
        LeftOut(m.stages, e);
      }
    }
  }

  lemma {:induction false} ReadStagesKeeps(log: seq<Entry>, m: Merge)
    requires Shape(log, m) && Conserved(log, m)
    requires m.buffered < STAGES_TO_BUFFER && EmptyFrom(m.stages, m.buffered + 1)
    ensures var r := ReadStages(log, m); Conserved(log, r) && EmptyFrom(r.stages, r.buffered)
    decreases |log| - m.pos
  {
    hide Conserved, EmptyFrom, ReadEntry, EndOfFile;
    if m.pos < |log| {
      ReadEntryKeeps(log, m);
      var r := ReadEntry(log, m);
      if r.buffered < STAGES_TO_BUFFER { ReadStagesKeeps(log, r); } else { StagesFull(log, m); }
    } else {
      EndOfFileKeeps(log, m);
    }
  }

  lemma StagesFull(log: seq<Entry>, m: Merge)
    requires Shape(log, m) && m.buffered < STAGES_TO_BUFFER && m.pos < |log|
    ensures var r := ReadEntry(log, m); r.buffered == STAGES_TO_BUFFER ==> EmptyFrom(r.stages, r.buffered)
  {
  }

  lemma EndOfFileKeeps(log: seq<Entry>, m: Merge)
    requires Conserved(log, m) && m.buffered < STAGES_TO_BUFFER && EmptyFrom(m.stages, m.buffered + 1)
    ensures var r := EndOfFile(log, m); Conserved(log, r) && EmptyFrom(r.stages, r.buffered)
  {
  }

  lemma PrintKeeps(log: seq<Entry>, m: Merge, front: Front, k: nat)
    requires Conserved(log, m) && IsFront(front) && k < |m.stages| && m.stages[k] != map[]
    ensures Conserved(log, PrintFrom(m, front, k))
  {
    PrintWeight(log, m, front, k);
    var r := PrintFrom(m, front, k);
    var e0 := front(|m.out|, m.stages[k]);
    assert IsLeast(m.stages[k], e0);
    forall e: nat ensures OfExtent(r.out, e) + Left(r.stages, e) == Expected(log, r.pos, e) {
      PrintedExtent(m, front, k, e);
      if e == e0 {
        LeftIn(m.stages, k, e);
        if e in r.stages[k] { LeftIn(r.stages, k, e); } else { LeftOut(r.stages, e); }
      } else {
        LeftUpdate(m.stages, k, r.stages[k], e);
      }
    }
  }

  lemma PrintedExtent(m: Merge, front: Front, k: nat, e: nat)
    requires IsFront(front) && k < |m.stages| && m.stages[k] != map[]
    ensures var e0 := front(|m.out|, m.stages[k]);
            IsLeast(m.stages[k], e0)
            && var f := m.stages[k][e0];
            OfExtent(PrintFrom(m, front, k).out, e)
            == OfExtent(m.out, e) + (if e == e0 && f.msgs != [] then [f.msgs[0]] else [])
  {
    var e0 := front(|m.out|, m.stages[k]);
    assert IsLeast(m.stages[k], e0);
    var f := m.stages[k][e0];
    if f.msgs != [] { OfExtentSnoc(m.out, Printed(e0, f.msgs[0]), e); }
  }

  lemma ShiftKeeps(log: seq<Entry>, m: Merge)
    requires Conserved(log, m) && m.buffered > 0 && m.stages[0] == map[] && EmptyFrom(m.stages, m.buffered)
    ensures var r := ShiftStages(m); Conserved(log, r) && EmptyFrom(r.stages, r.buffered)
  {
    ShiftWeight(log, m);
    var r := ShiftStages(m);
    assert m.stages == [m.stages[0], m.stages[1], m.stages[2]];
    assert r.stages == [r.stages[0], r.stages[1], r.stages[2]];
    forall e: nat ensures Left(r.stages, e) == Left(m.stages, e) {
      LeftThree(m.stages[0], m.stages[1], m.stages[2], e);
      LeftThree(r.stages[0], r.stages[1], r.stages[2], e);
    }
  }

  lemma LeftThree(a: Stage, b: Stage, c: Stage, e: nat)
    ensures Left([a, b, c], e)
            == if e in a then a[e].msgs else if e in b then b[e].msgs else if e in c then c[e].msgs else []
  {
    assert [a, b, c][1..] == [b, c] && [b, c][1..] == [c] && [c][1..] == [];
    assert Left([c], e) == if e in c then c[e].msgs else [];
    assert Left([b, c], e) == if e in b then b[e].msgs else Left([c], e);
  }

  lemma {:induction false} MinStageNone(m: Merge, front: Front, n: nat)
    requires IsFront(front) && n <= |m.stages| && MinStage(m, front, n) < 0
    ensures forall i | 0 <= i < n :: m.stages[i] == map[]
  {
    if n > 0 {
      if MinStage(m, front, n - 1) < 0 { MinStageNone(m, front, n - 1); }
    }
  }

  /** While everything must go, nothing stays behind. */
  lemma {:induction false} DepleteKeeps(log: seq<Entry>, m: Merge, front: Front)
    requires Conserved(log, m) && IsFront(front) && EmptyFrom(m.stages, m.buffered)
    ensures var r := Deplete(log, m, front);
            Conserved(log, r) && EmptyFrom(r.stages, r.buffered)
            && (m.deplete ==> EmptyFrom(r.stages, 0))
    decreases Weight(m.stages, m.pos)
  {
    var k := MinStage(m, front, m.buffered);
    if k < 0 {
      MinStageNone(m, front, m.buffered);
    } else {
      PrintKeeps(log, m, front, k);
      PrintWeight(log, m, front, k);
      var p := PrintFrom(m, front, k);
      assert EmptyFrom(p.stages, p.buffered);
      hide Conserved, EmptyFrom, PrintFrom, ShiftStages, MinStage;
      if p.stages[0] != map[] {
        DepleteKeeps(log, p, front);
      } else {
        ShiftKeeps(log, p);
        ShiftWeight(log, p);
        if p.deplete { DepleteKeeps(log, ShiftStages(p), front); }
      }
    }
  }

  lemma {:induction false} RunKeeps(log: seq<Entry>, m: Merge, front: Front)
    requires Shape(log, m) && Conserved(log, m) && m.buffered < STAGES_TO_BUFFER && IsFront(front)
    requires EmptyFrom(m.stages, m.buffered)
    requires m.deplete ==> m.pos == |log| && EmptyFrom(m.stages, 0)
    ensures var r := Run(log, m, front);
            Conserved(log, r) && r.pos == |log| && EmptyFrom(r.stages, 0)
    decreases if m.deplete then 0 else |log| - m.pos + 1
  {
    hide Conserved, ReadStages, Deplete;
    if !m.deplete {
      var r := ReadStages(log, m);
      ReadStagesKeeps(log, m);
      DepleteKeeps(log, r, front);
      RunKeeps(log, Deplete(log, r, front), front);
    }
  }

  /** Every extent's messages come out completely and in their order; nothing else does. */
  lemma EachMessageOnce(log: seq<Entry>, free: seq<nat>, front: Front, e: nat)
    requires IsFront(front)
    ensures OfExtent(Decompress(log, free, front), e) == if e < |log| && log[e].Extent? then log[e].msgs else []
  {
    StartConserved(log, free);
    RunKeeps(log, Start(free), front);
    LeftOut(Run(log, Start(free), front).stages, e);
  }

  lemma StartConserved(log: seq<Entry>, free: seq<nat>)
    ensures Conserved(log, Start(free)) && EmptyFrom(Start(free).stages, 0)
  {
    forall e: nat ensures Left(Start(free).stages, e) == [] { LeftOut(Start(free).stages, e); }
  }
}
