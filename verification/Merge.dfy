/** Ordered decompression (Decoder::decompressTo) of a log with one checkpoint: a sliding window of
    three stages of buffer extents, each stage a heap keyed by the extents' next timestamps. */
module OrderedMerge {
  datatype Msg = Msg(timestamp: nat, body: int)

  /** The log after its checkpoint. */
  datatype Entry = Extent(msgs: seq<Msg>, wrapAround: bool) | DictionaryOrPadding

  /** A BufferFragment: the messages not yet printed, and for an extent without messages the
      nextLogTimestamp that the object has from its last use. */
  datatype Fragment = Fragment(msgs: seq<Msg>, stale: nat) {
    function Key(): nat { if msgs == [] then stale else msgs[0].timestamp }
  }

  /** The fragments of one stage by the position of their extent in the log. */
  type Stage = map<nat, Fragment>

  datatype Printed = Printed(extent: nat, msg: Msg)

  /** The front of a heap: some fragment with a least key.  Which one may depend on anything; the
      first argument stands for the moment. */
  type Front = (nat, Stage) -> nat

  ghost predicate IsFront(front: Front) {
    forall now: nat, stage: Stage | stage != map[] :: IsLeast(stage, front(now, stage))
  }

  predicate IsLeast(stage: Stage, e: nat) {
    e in stage && forall f <- stage :: stage[e].Key() <= stage[f].Key()
  }

  const STAGES_TO_BUFFER: nat := 3

  /** `free` are the fragments that are not in use, by the nextLogTimestamp that each still has. */
  datatype Merge = Merge(pos: nat, stages: seq<Stage>, buffered: nat, deplete: bool, out: seq<Printed>, free: seq<nat>)

  predicate Shape(log: seq<Entry>, m: Merge) {
    && m.pos <= |log| && |m.stages| == STAGES_TO_BUFFER && m.buffered <= STAGES_TO_BUFFER
    && forall i | 0 <= i < |m.stages| :: forall e <- m.stages[i] :: e < m.pos
  }

  // ---- The free list ----

  /** The time that the next fragment allocated has: that of the one freed last, or of a new one. */
  function NextFree(free: seq<nat>): nat {
    if free == [] then 0 else free[|free| - 1]
  }

  function Allocate(free: seq<nat>): seq<nat> {
    if free == [] then [] else free[..|free| - 1]
  }

  // ---- Step 1: read stages ----

  function ReadEntry(log: seq<Entry>, m: Merge): (r: Merge)
    requires Shape(log, m) && m.buffered < STAGES_TO_BUFFER && m.pos < |log|
    ensures Shape(log, r) && r.pos == m.pos + 1 && m.buffered <= r.buffered
  {
    match log[m.pos]
    case DictionaryOrPadding => m.(pos := m.pos + 1)
    case Extent(msgs, wrapAround) =>
      var b := m.buffered;
      var stage: Stage := m.stages[b][m.pos := FragmentOf(msgs, m.free)];
      m.(pos := m.pos + 1,
         free := Allocate(m.free),
         stages := m.stages[b := stage],
         buffered := if wrapAround then b + 1 else b)
  }

  function FragmentOf(msgs: seq<Msg>, free: seq<nat>): Fragment {
    Fragment(msgs, if msgs == [] then NextFree(free) else 0)
  }

  /** At the end of the file everything must be depleted, and the last stage may be incomplete. */
  function EndOfFile(log: seq<Entry>, m: Merge): (r: Merge)
    requires Shape(log, m) && m.buffered < STAGES_TO_BUFFER
    ensures Shape(log, r)
  {
    m.(deplete := true, buffered := if m.stages[m.buffered] != map[] then m.buffered + 1 else m.buffered)
  }

  function ReadStages(log: seq<Entry>, m: Merge): (r: Merge)
    requires Shape(log, m) && m.buffered < STAGES_TO_BUFFER
    ensures Shape(log, r) && r.pos >= m.pos && (r.deplete ==> m.deplete || r.pos == |log|)
    ensures r.pos == m.pos ==> r.deplete
    decreases |log| - m.pos
  {
    if m.pos == |log| then EndOfFile(log, m)
    else
      var r := ReadEntry(log, m);
      if r.buffered == STAGES_TO_BUFFER then r else ReadStages(log, r)
  }

  // ---- Step 3: print until the first stage is empty ----

  function FrontKey(m: Merge, front: Front, i: nat): nat
    requires IsFront(front) && i < |m.stages| && m.stages[i] != map[]
  {
    m.stages[i][front(|m.out|, m.stages[i])].Key()
  }

  /** The first of the stages below `n` whose front has a least key. */
  function MinStage(m: Merge, front: Front, n: nat): (r: int)
    requires IsFront(front) && n <= |m.stages|
    ensures -1 <= r < n && (r >= 0 ==> m.stages[r] != map[])
  {
    if n == 0 then -1
    else
      var best := MinStage(m, front, n - 1);
      if m.stages[n - 1] == map[] then best
      else if best < 0 || FrontKey(m, front, n - 1) < FrontKey(m, front, best) then n - 1
      else best
  }

  /** decompressNextLogStatement on the front fragment, then pop_heap and, if it has more messages,
      push_heap; otherwise it is freed. */
  function PrintFrom(m: Merge, front: Front, k: nat): Merge
    requires IsFront(front) && k < |m.stages| && m.stages[k] != map[]
  {
    var stage := m.stages[k];
    var e := front(|m.out|, stage);
    var f := stage[e];
    var rest: Stage := if |f.msgs| > 1 then stage[e := f.(msgs := f.msgs[1..])] else stage - {e};
    m.(stages := m.stages[k := rest],
       out := if f.msgs != [] then m.out + [Printed(e, f.msgs[0])] else m.out,
       free := if |f.msgs| > 1 then m.free else m.free + [f.Key()])
  }

  /** The first stage is empty: the others move up. */
  function ShiftStages(m: Merge): Merge
    requires |m.stages| == STAGES_TO_BUFFER && 0 < m.buffered <= STAGES_TO_BUFFER
  {
    var b := m.buffered;
    m.(stages := m.stages[1..b] + [map[]] + m.stages[b..], buffered := b - 1)
  }

  /** What is left to do: messages and fragments still in the stages. */
  ghost function Weight(stages: seq<Stage>, n: nat): nat {
    if n == 0 then 0 else Weight(stages, n - 1) + WeightOf(stages, n - 1)
  }

  ghost function WeightOf(stages: seq<Stage>, e: nat): nat {
    if stages == [] then 0
    else (if e in stages[0] then 1 + |stages[0][e].msgs| else 0) + WeightOf(stages[1..], e)
  }

  lemma {:induction false} WeightOfUpdate(stages: seq<Stage>, k: nat, s: Stage, e: nat)
    requires k < |stages|
    ensures WeightOf(stages[k := s], e) == WeightOf(stages, e)
            - (if e in stages[k] then 1 + |stages[k][e].msgs| else 0) + (if e in s then 1 + |s[e].msgs| else 0)
  {
    if k == 0 {
      assert stages[k := s][1..] == stages[1..];
    } else {
      assert stages[k := s][1..] == stages[1..][k - 1 := s];
      WeightOfUpdate(stages[1..], k - 1, s, e);
    }
  }

  lemma {:induction false} WeightDrops(a: seq<Stage>, b: seq<Stage>, e: nat, n: nat)
    requires e < n && WeightOf(b, e) < WeightOf(a, e)
    requires forall f: nat | f != e :: WeightOf(b, f) == WeightOf(a, f)
    ensures Weight(b, n) < Weight(a, n)
  {
    if n - 1 == e { WeightSame(a, b, n - 1); } else { WeightDrops(a, b, e, n - 1); }
  }

  lemma {:induction false} WeightSame(a: seq<Stage>, b: seq<Stage>, n: nat)
    requires forall f: nat | f < n :: WeightOf(b, f) == WeightOf(a, f)
    ensures Weight(b, n) == Weight(a, n)
  {
    if n > 0 { WeightSame(a, b, n - 1); }
  }

  lemma PrintWeight(log: seq<Entry>, m: Merge, front: Front, k: nat)
    requires Shape(log, m) && IsFront(front) && k < |m.stages| && m.stages[k] != map[]
    ensures var r := PrintFrom(m, front, k); Shape(log, r) && Weight(r.stages, r.pos) < Weight(m.stages, m.pos)
  {
    var r := PrintFrom(m, front, k);
    var e := front(|m.out|, m.stages[k]);
    assert IsLeast(m.stages[k], e);
    forall f: nat ensures WeightOf(r.stages, f) == WeightOf(m.stages, f) || (f == e && WeightOf(r.stages, f) < WeightOf(m.stages, f)) {
      WeightOfUpdate(m.stages, k, r.stages[k], f);
    }
    WeightOfUpdate(m.stages, k, r.stages[k], e);
    WeightDrops(m.stages, r.stages, e, m.pos);
  }

  lemma ShiftWeight(log: seq<Entry>, m: Merge)
    requires Shape(log, m) && m.buffered > 0 && m.stages[0] == map[]
    ensures var r := ShiftStages(m); Shape(log, r) && Weight(r.stages, r.pos) == Weight(m.stages, m.pos)
  {
    var r := ShiftStages(m);
    var a, b, c := m.stages[0], m.stages[1], m.stages[2];
    assert m.stages == [a, b, c];
    forall f: nat ensures WeightOf(r.stages, f) == WeightOf(m.stages, f) {
      ThreeStages(a, b, c, f);
      ThreeStages(r.stages[0], r.stages[1], r.stages[2], f);
      assert r.stages == [r.stages[0], r.stages[1], r.stages[2]];
    }
    WeightSame(m.stages, r.stages, m.pos);
  }

  lemma ThreeStages(a: Stage, b: Stage, c: Stage, e: nat)
    ensures WeightOf([a, b, c], e) == (if e in a then 1 + |a[e].msgs| else 0)
              + (if e in b then 1 + |b[e].msgs| else 0) + (if e in c then 1 + |c[e].msgs| else 0)
  {
    assert [a, b, c][1..] == [b, c] && [b, c][1..] == [c] && [c][1..] == [];
    assert WeightOf([c], e) == if e in c then 1 + |c[e].msgs| else 0;
    assert WeightOf([b, c], e) == (if e in b then 1 + |b[e].msgs| else 0) + WeightOf([c], e);
  }

  function Deplete(log: seq<Entry>, m: Merge, front: Front): (r: Merge)
    requires Shape(log, m) && IsFront(front)
    ensures Shape(log, r) && r.pos == m.pos && r.deplete == m.deplete && r.buffered < STAGES_TO_BUFFER
    decreases Weight(m.stages, m.pos)
  {
    var k := MinStage(m, front, m.buffered);
    if k < 0 then m.(buffered := 0)
    else
      PrintWeight(log, m, front, k);
      var p := PrintFrom(m, front, k);
      if p.stages[0] != map[] then Deplete(log, p, front)
      else
        ShiftWeight(log, p);
        var s := ShiftStages(p);
        if s.deplete then Deplete(log, s, front) else s
  }

  /** The outer loop: it ends after the pass that has seen the end of the file. */
  function Run(log: seq<Entry>, m: Merge, front: Front): (r: Merge)
    requires Shape(log, m) && m.buffered < STAGES_TO_BUFFER && IsFront(front)
    ensures Shape(log, r)
    decreases if m.deplete then 0 else |log| - m.pos + 1
  {
    if m.deplete then m else Run(log, Deplete(log, ReadStages(log, m), front), front)
  }

  /** A decoder begins with the fragments that it has freed in the files before; a new one has none. */
  function Start(free: seq<nat>): Merge {
    Merge(0, [map[], map[], map[]], 0, false, [], free)
  }

  function Decompress(log: seq<Entry>, free: seq<nat>, front: Front): seq<Printed>
    requires IsFront(front)
  {
    Run(log, Start(free), front).out
  }
}
