/** decompressTo as the source writes it: two nested loops over an array of stages. */
module OrderedDecompression {
  import opened OrderedMerge
  import opened MergeConservation
  import opened MergeOrder

  /** The minimum amongst the first `stagesBuffered` stages; -1 for none. */
  method FindMinStage(stages: array<Stage>, stagesBuffered: nat, front: Front, clock: nat, ghost m: Merge)
    returns (minStage: int)
    requires IsFront(front) && stages[..] == m.stages && stagesBuffered == m.buffered <= stages.Length && clock == |m.out|
    ensures minStage == MinStage(m, front, m.buffered)
  {
    hide IsFront;
    minStage := -1;
    var i := 0;
    while i < stagesBuffered
      invariant i <= stagesBuffered && minStage == MinStage(m, front, i)
    {
      if stages[i] != map[] {
        assert m.stages[i] == stages[i];
        FrontInside(front, clock, stages[i]);
        var next := stages[i][front(clock, stages[i])].Key();
        if minStage < 0 {
          minStage := i;
        } else {
          FrontInside(front, clock, stages[minStage]);
          assert m.stages[minStage] == stages[minStage];
          if next < stages[minStage][front(clock, stages[minStage])].Key() {
            minStage := i;
          }
        }
      }
      i := i + 1;
    }
  }

  lemma FrontInside(front: Front, now: nat, stage: Stage)
    requires IsFront(front) && stage != map[]
    ensures front(now, stage) in stage
  {
    assert IsLeast(stage, front(now, stage));
  }

  /** Step 1: read entries until all stages are buffered or the file ends. */
  method ReadIn(log: seq<Entry>, stages: array<Stage>, start: nat, buffered: nat, ghost out: seq<Printed>,
                freed: seq<nat>)
    returns (pos: nat, stagesBuffered: nat, mustDepleteAllStages: bool, free: seq<nat>)
    requires Shape(log, Merge(start, stages[..], buffered, false, out, freed)) && buffered < STAGES_TO_BUFFER
    modifies stages
    ensures pos <= |log|
    ensures Merge(pos, stages[..], stagesBuffered, mustDepleteAllStages, out, free)
            == ReadStages(log, Merge(start, old(stages[..]), buffered, false, out, freed))
  {
    ghost var goal := ReadStages(log, Merge(start, stages[..], buffered, false, out, freed));
    pos, stagesBuffered, mustDepleteAllStages, free := start, buffered, false, freed;
    while !mustDepleteAllStages
      invariant Shape(log, Merge(pos, stages[..], stagesBuffered, mustDepleteAllStages, out, free))
      invariant mustDepleteAllStages ==> Merge(pos, stages[..], stagesBuffered, true, out, free) == goal
      invariant !mustDepleteAllStages ==>
                  (stagesBuffered < STAGES_TO_BUFFER
                   && ReadStages(log, Merge(pos, stages[..], stagesBuffered, false, out, free)) == goal)
      decreases |log| - pos, !mustDepleteAllStages
    {
      ghost var m := Merge(pos, stages[..], stagesBuffered, false, out, free);
      var newStage := false;
      if pos == |log| {
        // end of file
        mustDepleteAllStages := true;
      } else {
        match log[pos] {
          case Extent(msgs, wrapAround) =>
            var bf := FragmentOf(msgs, free);
            free := Allocate(free);
            stages[stagesBuffered] := stages[stagesBuffered][pos := bf];
            newStage := wrapAround;
          case DictionaryOrPadding =>
        }
        pos := pos + 1;
      }
      var needFlush := mustDepleteAllStages;
      if newStage || (needFlush && stages[stagesBuffered] != map[]) {
        stagesBuffered := stagesBuffered + 1;
      }
      assert Merge(pos, stages[..], stagesBuffered, mustDepleteAllStages, out, free)
             == if m.pos == |log| then EndOfFile(log, m) else ReadEntry(log, m);
      if stagesBuffered == STAGES_TO_BUFFER {
        break;
      }
    }
  }

  /** Step 3: print the least messages until the first stage is empty, or everything. */
  method PrintOut(log: seq<Entry>, stages: array<Stage>, pos: nat, buffered: nat,
                  mustDepleteAllStages: bool, printed: seq<Printed>, freed: seq<nat>, front: Front)
    returns (stagesBuffered: nat, out: seq<Printed>, free: seq<nat>)
    requires IsFront(front) && Shape(log, Merge(pos, stages[..], buffered, mustDepleteAllStages, printed, freed))
    modifies stages
    ensures Merge(pos, stages[..], stagesBuffered, mustDepleteAllStages, out, free)
            == Deplete(log, Merge(pos, old(stages[..]), buffered, mustDepleteAllStages, printed, freed), front)
  {
    hide IsFront, MinStage, Weight;
    ghost var goal := Deplete(log, Merge(pos, stages[..], buffered, mustDepleteAllStages, printed, freed), front);
    stagesBuffered, out, free := buffered, printed, freed;
    while true
      invariant Shape(log, Merge(pos, stages[..], stagesBuffered, mustDepleteAllStages, out, free))
      invariant Deplete(log, Merge(pos, stages[..], stagesBuffered, mustDepleteAllStages, out, free), front) == goal
      decreases Weight(stages[..], pos)
    {
      ghost var m := Merge(pos, stages[..], stagesBuffered, mustDepleteAllStages, out, free);
      var minStage := FindMinStage(stages, stagesBuffered, front, |out|, m);
      if minStage < 0 {
        stagesBuffered := 0;
        break;
      }
      PrintWeight(log, m, front, minStage);
      assert m.stages[minStage] == stages[minStage];
      out, free := PrintFront(stages, minStage, front, out, free, m);
      ghost var p := Merge(pos, stages[..], stagesBuffered, mustDepleteAllStages, out, free);
      if stages[0] == map[] {
        assert p.stages[0] == stages[0];
        ShiftWeight(log, p);
        MoveUp(stages, stagesBuffered, p);
        stagesBuffered := stagesBuffered - 1;
        if !mustDepleteAllStages {
          break;
        }
      } else {
        assert p.stages[0] == stages[0];
      }
    }
  }

  /** Step 3b: print the front's next message; pop the heap and push the fragment again, or free it. */
  method PrintFront(stages: array<Stage>, k: nat, front: Front, printed: seq<Printed>, freed: seq<nat>, ghost m: Merge)
    returns (out: seq<Printed>, free: seq<nat>)
    requires IsFront(front) && stages[..] == m.stages && printed == m.out && freed == m.free
    requires k < stages.Length && stages[k] != map[]
    modifies stages
    ensures m.(stages := stages[..], out := out, free := free) == PrintFrom(m, front, k)
  {
    FrontInside(front, |printed|, stages[k]);
    hide IsFront;
    var e := front(|printed|, stages[k]);
    var bf := stages[k][e];
    out, free := printed, freed;
    if bf.msgs != [] {
      out := out + [Printed(e, bf.msgs[0])];
    }
    if |bf.msgs| > 1 {
      stages[k] := stages[k][e := bf.(msgs := bf.msgs[1..])];
    } else {
      stages[k] := stages[k] - {e};
      free := free + [bf.Key()];
    }
  }

  /** Step 3c: every stage takes the place of the one before it. */
  method MoveUp(stages: array<Stage>, stagesBuffered: nat, ghost m: Merge)
    requires stages[..] == m.stages && |m.stages| == STAGES_TO_BUFFER
    requires 0 < stagesBuffered == m.buffered <= STAGES_TO_BUFFER
    modifies stages
    ensures stages[..] == ShiftStages(m).stages
  {
    var i := 0;
    while i < stagesBuffered - 1
      invariant i <= stagesBuffered - 1
      invariant forall j | 0 <= j < i :: stages[j] == m.stages[j + 1]
      invariant forall j | i <= j < STAGES_TO_BUFFER :: stages[j] == m.stages[j]
    {
      stages[i] := stages[i + 1];
      i := i + 1;
    }
    stages[stagesBuffered - 1] := map[];
    assert forall j | 0 <= j < STAGES_TO_BUFFER :: stages[..][j] == ShiftStages(m).stages[j];
  }

  lemma Decompresses(log: seq<Entry>, free: seq<nat>, front: Front)
    requires IsFront(front)
    ensures forall e: nat ::
              OfExtent(Decompress(log, free, front), e) == if e < |log| && log[e].Extent? then log[e].msgs else []
    ensures Orderly(log, free, front) ==> InOrder(Decompress(log, free, front))
  {
    forall e: nat
      ensures OfExtent(Decompress(log, free, front), e) == if e < |log| && log[e].Extent? then log[e].msgs else []
    {
      EachMessageOnce(log, free, front, e);
    }
    if Orderly(log, free, front) { DecompressesInOrder(log, free, front); }
  }

  /** The printed messages are those of Decompress; the array accesses show that `stages` is never
      indexed out of range, and the loops terminate on every log. */
  method DecompressTo(log: seq<Entry>, freed: seq<nat>, front: Front) returns (out: seq<Printed>, free: seq<nat>)
    requires IsFront(front)
    ensures out == Decompress(log, freed, front) && free == Run(log, Start(freed), front).free
    ensures forall e: nat :: OfExtent(out, e) == if e < |log| && log[e].Extent? then log[e].msgs else []
    ensures Orderly(log, freed, front) ==> InOrder(out)
  {
    hide IsFront, Shape, MinStage, PrintFrom, ShiftStages, ReadEntry, EndOfFile;
    var stages := new Stage[STAGES_TO_BUFFER](_ => map[]);
    var stagesBuffered: nat := 0;
    var mustDepleteAllStages := false;
    var pos: nat := 0;
    out, free := [], freed;
    assert stages[..] == Start(freed).stages;
    StartConserved(log, freed);
    while !mustDepleteAllStages
      invariant stages.Length == STAGES_TO_BUFFER && stagesBuffered < STAGES_TO_BUFFER && pos <= |log|
      invariant Shape(log, Merge(pos, stages[..], stagesBuffered, mustDepleteAllStages, out, free))
      invariant Run(log, Merge(pos, stages[..], stagesBuffered, mustDepleteAllStages, out, free), front)
                == Run(log, Start(freed), front)
      decreases if mustDepleteAllStages then 0 else |log| - pos + 1
    {
      pos, stagesBuffered, mustDepleteAllStages, free := ReadIn(log, stages, pos, stagesBuffered, out, free);
      stagesBuffered, out, free := PrintOut(log, stages, pos, stagesBuffered, mustDepleteAllStages, out, free, front);
    }
    Decompresses(log, freed, front);
  }
}
