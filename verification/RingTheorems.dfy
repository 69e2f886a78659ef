/** What the staging ring promises over whole runs. */
module StagingRingTheorems {
  import opened Bytes
  import opened StagingRing

  /** A run: any interleaving of the two sides, from a new buffer. */
  ghost predicate IsRun(run: seq<Ring>) {
    && |run| > 0
    && Init(run[0])
    && forall i | 0 <= i < |run| - 1 :: Next(run[i], run[i + 1])
  }

  lemma {:induction false} RunInv(run: seq<Ring>, i: nat)
    requires IsRun(run) && i < |run|
    ensures Inv(run[i])
    decreases i
  {
    hide Inv, Next, Init;
    if i == 0 {
      InitInv(run[0]);
    } else {
      RunInv(run, i - 1);
      NextInv(run[i - 1], run[i - 1 + 1]);
    }
  }

  lemma NextInv(s: Ring, t: Ring)
    requires Inv(s) && Next(s, t)
    ensures Inv(t)
  {
    var a :| Enabled(s, a) && t == Apply(s, a);
    hide Inv, Enabled, Apply;
    StepInv(s, a);
  }

  lemma {:induction false} StreamsGrow(run: seq<Ring>, i: nat, j: nat)
    requires IsRun(run) && i <= j < |run|
    ensures run[i].committed <= run[j].committed && run[i].consumed <= run[j].consumed
    decreases j
  {
    hide Next, Init;
    if i < j {
      StreamsGrow(run, i, j - 1);
      StreamsGrowNext(run[j - 1], run[j - 1 + 1]);
    }
  }

  lemma StreamsGrowNext(s: Ring, t: Ring)
    requires Next(s, t)
    ensures s.committed <= t.committed && s.consumed <= t.consumed
  {
  }

  /** FIFO delivery: in every run the consumed stream is at every moment a prefix of the committed
      stream of that moment and of every later one, and what is missing is exactly what the
      storage holds unread; equal cursors mean an empty buffer. */
  lemma Fifo(run: seq<Ring>, i: nat, j: nat)
    requires IsRun(run) && i <= j < |run|
    ensures Inv(run[i]) && run[i].consumed + Unread(run[i]) == run[i].committed
    ensures run[i].consumed <= run[j].committed && run[i].consumed <= run[j].consumed
    ensures run[i].producerPos == run[i].consumerPos ==> run[i].consumed == run[i].committed
  {
    RunInv(run, i);
    StreamsGrow(run, i, j);
    assert run[i].consumed <= run[i].committed;
  }

  /** A range that peek returned is the next stretch of the committed stream, it ends where one of
      the producer's finished reservations ended, and no step of the producer disturbs it. */
  lemma PeekRangeIsNextUnread(s: Ring, a: Action)
    requires Inv(s) && s.consumer.Holding? && Enabled(s, a)
    requires a.BeginReserve? || a.LeaveLoop? || a.SampleConsumerPos? || a.UseConsumerPos?
             || a.RollProducer? || a.GiveUp? || a.Fill? || a.Finish?
    ensures var lo, hi := |s.consumed|, |s.consumed| + s.consumer.avail;
            && s.consumerPos + s.consumer.avail <= |s.storage|
            && hi <= |s.committed| && hi in s.cuts
            && s.storage[s.consumerPos..s.consumerPos + s.consumer.avail] == s.committed[lo..hi]
            && var t := Apply(s, a);
            && t.consumerPos == s.consumerPos && t.consumer == s.consumer
            && t.storage[s.consumerPos..s.consumerPos + s.consumer.avail] == s.committed[lo..hi]
  {
    hide ProducerInv;
    HeldRange(s);
    StepInv(s, a);
    HeldRange(Apply(s, a));
  }

  lemma HeldRange(s: Ring)
    requires Inv(s) && s.consumer.Holding?
    ensures s.consumerPos + s.consumer.avail <= |s.storage|
    ensures |s.consumed| + s.consumer.avail <= |s.committed|
    ensures s.storage[s.consumerPos..s.consumerPos + s.consumer.avail]
            == s.committed[|s.consumed|..|s.consumed| + s.consumer.avail]
    ensures s.storage[s.consumerPos..s.consumerPos + s.consumer.avail] <= Unread(s)
  {
    hide CutsInv, ProducerInv;
    var n := s.consumer.avail;
    LiveShrinks(s.storage, s.producerPos, s.consumerPos, s.endOfRecordedSpace, n);
    PrefixOfRest(s.consumed, s.storage[s.consumerPos..s.consumerPos + n],
                 Live(s.storage, s.producerPos, s.consumerPos + n, s.endOfRecordedSpace), s.committed);
  }

  lemma PrefixOfRest(a: seq<byte>, b: seq<byte>, c: seq<byte>, all: seq<byte>)
    requires all == a + (b + c)
    ensures |a| + |b| <= |all| && all[|a|..|a| + |b|] == b
  {
  }

  /** The stream length that a peek in progress is about to reach unless it stops early at
      endOfRecordedSpace. */
  function PeekTarget(s: Ring): int
  {
    match s.consumer
    case Peeking(cached) => StreamEnd(s, cached)
    case RollingOver(cached) => |s.consumed| + cached
    case _ => |s.consumed|
  }

  predicate MidPeek(s: Ring) { s.consumer.Peeking? || s.consumer.RollingOver? }

  lemma PeekTargetStep(s: Ring, a: Action)
    requires Inv(s) && Enabled(s, a) && MidPeek(s)
    ensures var t := Apply(s, a);
            && (MidPeek(t) ==> PeekTarget(t) == PeekTarget(s))
            && (!MidPeek(t) ==> t.consumer.Holding?
                                && (t.consumer.avail > 0 || |t.consumed| == PeekTarget(s)))
  {
  }

  /** When peek reports no bytes, everything that was committed when it looked at producerPos had
      already been consumed, whatever the producer did during the peek. */
  lemma {:induction false} EmptyPeekMeansDrained(run: seq<Ring>, i: nat, j: nat)
    requires IsRun(run) && i + 1 < j < |run|
    requires Enabled(run[i], SampleProducerPos) && run[i + 1] == Apply(run[i], SampleProducerPos)
    requires forall k | i < k < j :: MidPeek(run[k])
    requires run[j].consumer == Holding(0)
    ensures run[j].consumed == run[i].committed
  {
    hide Inv, Apply, Enabled, Next, Init, PeekTarget, Unread;
    RunInv(run, i);
    StreamLength(run[i]);
    TargetKept(run, i, j - 1);
    RunInv(run, j - 1);
    PeekTargetNext(run[j - 1], run[j - 1 + 1]);
    Fifo(run, j, j);
    StreamsGrow(run, i, j);
  }

  lemma {:induction false} TargetKept(run: seq<Ring>, i: nat, j: nat)
    requires IsRun(run) && i < j < |run|
    requires Enabled(run[i], SampleProducerPos) && run[i + 1] == Apply(run[i], SampleProducerPos)
    requires forall k | i < k <= j :: MidPeek(run[k])
    ensures PeekTarget(run[j]) == |run[i].committed|
    decreases j
  {
    hide Inv, Apply, Enabled, Next, Init, PeekTarget;
    if j == i + 1 {
      RunInv(run, i);
      SampleTarget(run[i]);
    } else {
      TargetKept(run, i, j - 1);
      assert MidPeek(run[j - 1]) && MidPeek(run[j]);
      RunInv(run, j - 1);
      PeekTargetNext(run[j - 1], run[j - 1 + 1]);
    }
  }

  lemma PeekTargetNext(s: Ring, t: Ring)
    requires Inv(s) && Next(s, t) && MidPeek(s)
    ensures MidPeek(t) ==> PeekTarget(t) == PeekTarget(s)
    ensures !MidPeek(t) ==> t.consumer.Holding? && (t.consumer.avail > 0 || |t.consumed| == PeekTarget(s))
  {
    var a :| Enabled(s, a) && t == Apply(s, a);
    PeekTargetStep(s, a);
  }

  lemma SampleTarget(s: Ring)
    requires Inv(s) && Enabled(s, SampleProducerPos)
    ensures PeekTarget(Apply(s, SampleProducerPos)) == |s.committed|
  {
    StreamLength(s);
  }

  /** Reservation safety: in every reachable state minFreeSpace is a lower bound on the contiguous
      free space at producerPos.  A granted reservation lies inside the storage and holds no
      unread byte, and both assertions of finishReservation hold for any part of it. */
  lemma ReservationSafety(run: seq<Ring>, i: nat)
    requires IsRun(run) && i < |run|
    ensures var s := run[i];
            && 1 <= s.minFreeSpace <= FreeRun(s)
            && (s.producer.Reserved? ==>
                  && s.producer.nbytes < s.minFreeSpace
                  && s.producerPos + s.producer.nbytes < |s.storage|
                  && (Wrapped(s) ==> s.producerPos + s.producer.nbytes < s.consumerPos)
                  && (forall n: nat | n <= s.producer.nbytes :: Enabled(s, Finish(n)))
                  && (forall k: nat, b: byte | k < s.producer.nbytes :: Enabled(s, Fill(k, b))))
  {
    RunInv(run, i);
  }

  // ---- The producer never blocks for good ----

  predicate Reserving(s: Ring) { s.producer.Checking? || s.producer.Sampled? || s.producer.Marked? }

  /** The producer finishes the iteration of the reservation loop that it is in. */
  function Iterate(s: Ring): Ring
    requires Inv(s) && Reserving(s)
  {
    match s.producer
    case Checking(n) =>
      if s.minFreeSpace > n then Apply(s, LeaveLoop)
      else (StepInv(s, SampleConsumerPos); UseSample(Apply(s, SampleConsumerPos)))
    case Sampled(_, _) => UseSample(s)
    case Marked(_, _) => Apply(s, RollProducer)
  }

  function UseSample(s: Ring): Ring
    requires Inv(s) && s.producer.Sampled?
  {
    var t := Apply(s, UseConsumerPos);
    if t.producer.Marked? then Apply(t, RollProducer) else t
  }

  function ConsumeAll(s: Ring): (t: Ring)
    requires Inv(s) && s.consumer.Holding?
    ensures Inv(t)
    ensures t == s.(consumerPos := s.consumerPos + s.consumer.avail, consumer := Resting, consumed := t.consumed)
  {
    var n := s.consumer.avail;
    StepInv(s, Consume(n));
    var t := Apply(s, Consume(n));
    StepInv(t, Rest);
    Apply(t, Rest)
  }

  /** The consumer completes a peek, consumes all it returned, and rests. */
  function PeekAndConsume(s: Ring): (t: Ring)
    requires Inv(s)
    ensures Inv(t) && t.consumer.Resting? && t.producer == s.producer
    ensures t == s.(consumerPos := t.consumerPos, consumer := Resting, consumed := t.consumed)
    decreases match s.consumer case Resting => 3 case Peeking(_) => 2 case RollingOver(_) => 1 case Holding(_) => 0
  {
    match s.consumer
    case Resting => StepInv(s, SampleProducerPos); PeekAndConsume(Apply(s, SampleProducerPos))
    case Peeking(_) => StepInv(s, UseProducerPos); PeekAndConsume(Apply(s, UseProducerPos))
    case RollingOver(_) => StepInv(s, RollConsumer); PeekAndConsume(Apply(s, RollConsumer))
    case Holding(_) => ConsumeAll(s)
  }

  /** Three peeks empty the ring: one that may be under way, the tail, and the head after the
      roll over. */
  function Drain(s: Ring): Ring
    requires Inv(s)
  {
    PeekAndConsume(PeekAndConsume(PeekAndConsume(s)))
  }

  lemma PeekFromHold(s: Ring)
    requires Inv(s) && s.consumer.Holding?
    ensures PeekAndConsume(s).consumerPos == s.consumerPos + s.consumer.avail
  {
    hide Inv, Apply, Enabled, ConsumeAll;
  }

  lemma PeekFromSample(s: Ring)
    requires Inv(s) && s.consumer.Peeking?
    ensures var t := PeekAndConsume(s);
            if s.consumer.cached < s.consumerPos < s.endOfRecordedSpace
            then t.consumerPos == s.endOfRecordedSpace
            else t.consumerPos == s.consumer.cached
  {
    StepInv(s, UseProducerPos);
    var s1 := Apply(s, UseProducerPos);
    if s1.consumer.Holding? {
      PeekFromHold(s1);
    } else {
      StepInv(s1, RollConsumer);
      PeekFromHold(Apply(s1, RollConsumer));
    }
  }

  /** A peek from rest empties an unwrapped ring, and of a wrapped one the tail or, once the tail
      is gone, everything. */
  lemma PeekFromRest(s: Ring)
    requires Inv(s) && s.consumer.Resting?
    ensures var t := PeekAndConsume(s);
            if Wrapped(s) && s.consumerPos < s.endOfRecordedSpace
            then t.consumerPos == s.endOfRecordedSpace
            else t.consumerPos == t.producerPos
  {
    StepInv(s, SampleProducerPos);
    PeekFromSample(Apply(s, SampleProducerPos));
  }

  /** Draining leaves nothing unread and the cursors equal. */
  lemma DrainEmpties(s: Ring)
    requires Inv(s)
    ensures var t := Drain(s);
            && Inv(t) && t.consumer.Resting? && t.consumerPos == t.producerPos
            && t == s.(consumerPos := t.consumerPos, consumer := Resting, consumed := s.committed)
  {
    hide Apply, Enabled, PeekAndConsume;
    var s1 := PeekAndConsume(s);
    var s2 := PeekAndConsume(s1);
    PeekFromRest(s1);
    PeekFromRest(s2);
  }

  /** From a drained ring an iteration either grants the request or rolls the producer over. */
  lemma IterateDrained(s: Ring, n: nat)
    requires Inv(s) && s.producer == Checking(n) && n < |s.storage|
    requires s.producerPos == s.consumerPos && s.minFreeSpace <= n
    ensures var t := Iterate(s);
            t.producer == Reserved(n)
            || (t.producer == Checking(n) && t.producerPos == 0 && 0 < s.producerPos)
  {
    StepInv(s, SampleConsumerPos);
    var s1 := Apply(s, SampleConsumerPos);
  }

  lemma UseSampleInv(s: Ring)
    requires Inv(s) && s.producer.Sampled?
    ensures var t := UseSample(s);
            Inv(t) && (t.producer == Reserved(s.producer.nbytes) || t.producer == Checking(s.producer.nbytes))
  {
    StepInv(s, UseConsumerPos);
    var s1 := Apply(s, UseConsumerPos);
    if s1.producer.Marked? { StepInv(s1, RollProducer); }
  }

  lemma IterateInv(s: Ring)
    requires Inv(s) && Reserving(s)
    ensures var t := Iterate(s);
            Inv(t) && (t.producer == Reserved(s.producer.nbytes) || t.producer == Checking(s.producer.nbytes))
  {
    match s.producer
    case Checking(n) =>
      if s.minFreeSpace > n { StepInv(s, LeaveLoop); }
      else { StepInv(s, SampleConsumerPos); UseSampleInv(Apply(s, SampleConsumerPos)); }
    case Sampled(_, _) => UseSampleInv(s);
    case Marked(_, _) => StepInv(s, RollProducer);
  }

  /** An iteration touches nothing but the producer's side. */
  lemma IterateFrame(s: Ring)
    requires Inv(s) && Reserving(s)
    ensures var t := Iterate(s);
            t == s.(producerPos := t.producerPos, minFreeSpace := t.minFreeSpace,
                    endOfRecordedSpace := t.endOfRecordedSpace, producer := t.producer)
  {
  }

  /** One round of a consumer that keeps up: it drains the ring, then the producer finishes an
      iteration, unless the reservation has already been granted. */
  function Round(s: Ring): (t: Ring)
    requires Inv(s)
    ensures Inv(t)
  {
    if Reserving(s) then
      DrainEmpties(s);
      IterateInv(Drain(s));
      Iterate(Drain(s))
    else s
  }

  lemma IterateEnough(s: Ring)
    requires Inv(s) && s.producer.Checking? && s.minFreeSpace > s.producer.nbytes
    ensures Iterate(s).producer == Reserved(s.producer.nbytes)
  {
  }

  lemma RoundProgress(s: Ring, n: nat)
    requires Inv(s) && Reserving(s) && s.producer.nbytes == n < |s.storage|
    ensures var t := Round(s);
            && |t.storage| == |s.storage|
            && (t.producer == Reserved(n)
                || (t.producer == Checking(n)
                    && (s.producer.Checking? ==> t.producerPos == 0 && 0 < s.producerPos)))
  {
    hide Apply, Enabled, PeekAndConsume, Drain, Iterate;
    DrainEmpties(s);
    var d := Drain(s);
    IterateInv(d);
    IterateFrame(d);
    if d.producer.Checking? {
      if d.minFreeSpace <= n { IterateDrained(d, n); } else { IterateEnough(d); }
    }
  }

  lemma RoundKeepsStorage(s: Ring)
    requires Inv(s)
    ensures |Round(s).storage| == |s.storage|
  {
    hide Apply, Enabled, PeekAndConsume, Drain, Iterate;
    if Reserving(s) {
      DrainEmpties(s);
      IterateInv(Drain(s));
      IterateFrame(Drain(s));
    }
  }

  lemma ReservedFits(s: Ring)
    requires Inv(s) && s.producer.Reserved?
    ensures s.producer.nbytes < |s.storage|
  {
    hide ConsumerInv, CutsInv, Unread, Live;
  }

  /** No permanent blocking: a request is granted within three rounds from every state that satisfies
      the invariant, if and only if it is for less than the whole buffer. */
  lemma NoPermanentBlocking(s: Ring)
    requires Inv(s) && Reserving(s)
    ensures Round(Round(Round(s))).producer == Reserved(s.producer.nbytes) <==> s.producer.nbytes < |s.storage|
  {
    if s.producer.nbytes < |s.storage| {
      RoundProgress(s, s.producer.nbytes);
      var s1 := Round(s);
      if Reserving(s1) {
        RoundProgress(s1, s.producer.nbytes);
        var s2 := Round(s1);
        if Reserving(s2) { RoundProgress(s2, s.producer.nbytes); }
      }
    } else {
      hide Inv, Reserving;
      var s3 := Round(Round(Round(s)));
      RoundKeepsStorage(s);
      RoundKeepsStorage(Round(s));
      RoundKeepsStorage(Round(Round(s)));
      if s3.producer.Reserved? { ReservedFits(s3); }
    }
  }
}
