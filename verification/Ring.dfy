/** The lock-free staging ring of one logging thread, as the interleaving of its two sides.

    The producer (the logging thread) and the consumer (the compression thread) share
    `producerPos`, `consumerPos` and `endOfRecordedSpace`.  Every action below performs at most
    one read or one write of a shared cursor; everything between two such accesses is local.
    Positions are offsets into `storage`. */
module StagingRing {
  import opened Bytes

  /** Where the producer stands in reserveProducerSpace / reserveSpaceInternal. */
  datatype Producer =
    | Idle
    | Checking(nbytes: nat)                 // at the head of the reservation loop
    | Sampled(nbytes: nat, cached: nat)     // holds a copy of consumerPos
    | Marked(nbytes: nat, cached: nat)      // endOfRecordedSpace written, producerPos not yet
    | Reserved(nbytes: nat)                 // may fill [producerPos, producerPos + nbytes)

  /** Where the consumer stands in peek / consume. */
  datatype Consumer =
    | Resting
    | Peeking(cached: nat)                  // holds a copy of producerPos
    | RollingOver(cached: nat)              // found no bytes left before endOfRecordedSpace
    | Holding(avail: nat)                   // may read and consume [consumerPos, consumerPos + avail)

  /** `committed` and `consumed` are the streams the producer has finished and the consumer has
      taken so far; `cuts` are the lengths of `committed` right after each finishReservation. */
  datatype Ring = Ring(
    storage: seq<byte>,
    producerPos: nat,
    consumerPos: nat,
    endOfRecordedSpace: nat,
    minFreeSpace: nat,
    producer: Producer,
    consumer: Consumer,
    committed: seq<byte>,
    consumed: seq<byte>,
    cuts: set<nat>)

  datatype Action =
    | BeginReserve(nbytes: nat)   // entry, with the in-line fast path
    | LeaveLoop                   // the loop test finds enough space
    | SampleConsumerPos           // shared read of consumerPos
    | UseConsumerPos              // recompute minFreeSpace, perhaps write endOfRecordedSpace
    | RollProducer                // shared write of producerPos
    | GiveUp                      // the non-blocking variant returns without space
    | Fill(offset: nat, value: byte)
    | Finish(nbytes: nat)         // shared write of producerPos
    | SampleProducerPos           // shared read of producerPos
    | UseProducerPos              // perhaps shared read of endOfRecordedSpace
    | RollConsumer                // shared write of consumerPos
    | Consume(nbytes: nat)        // shared write of consumerPos
    | Rest                        // the caller of peek is done with the range

  predicate Wrapped(s: Ring) { s.producerPos < s.consumerPos }

  /** Actions whose control point has been reached and whose arguments respect what the callers
      promise: the producer stays inside its reservation, the consumer inside what peek returned. */
  predicate Enabled(s: Ring, a: Action) {
    match a
    case BeginReserve(_) => s.producer.Idle?
    case LeaveLoop => s.producer.Checking? && s.minFreeSpace > s.producer.nbytes
    case SampleConsumerPos => s.producer.Checking? && s.minFreeSpace <= s.producer.nbytes
    case UseConsumerPos => s.producer.Sampled? && s.producerPos <= |s.storage|
    case RollProducer => s.producer.Marked?
    case GiveUp => s.producer.Checking? && s.minFreeSpace <= s.producer.nbytes
    case Fill(offset, _) => s.producer.Reserved? && offset < s.producer.nbytes
                            && s.producerPos + offset < |s.storage|
    case Finish(n) => s.producer.Reserved? && n <= s.producer.nbytes
                      && s.producerPos + n <= |s.storage| && n <= s.minFreeSpace
    case SampleProducerPos => s.consumer.Resting?
    case UseProducerPos => s.consumer.Peeking?
                           && (s.consumer.cached < s.consumerPos ==> s.consumerPos <= s.endOfRecordedSpace)
    case RollConsumer => s.consumer.RollingOver?
    case Consume(n) => s.consumer.Holding? && n <= s.consumer.avail
                       && s.consumerPos + n <= |s.storage|
    case Rest => s.consumer.Holding?
  }

  function Apply(s: Ring, a: Action): (r: Ring)
    requires Enabled(s, a)
  {
    match a
    case BeginReserve(n) =>
      s.(producer := if n < s.minFreeSpace then Reserved(n) else Checking(n))
    case LeaveLoop =>
      s.(producer := Reserved(s.producer.nbytes))
    case SampleConsumerPos =>
      s.(producer := Sampled(s.producer.nbytes, s.consumerPos))
    case UseConsumerPos => AfterSample(s)
    case RollProducer =>
      s.(producerPos := 0, minFreeSpace := s.producer.cached, producer := Checking(s.producer.nbytes))
    case GiveUp => s.(producer := Idle)
    case Fill(offset, value) => s.(storage := s.storage[s.producerPos + offset := value])
    case Finish(n) =>
      var all := s.committed + s.storage[s.producerPos..s.producerPos + n];
      s.(producerPos := s.producerPos + n, minFreeSpace := s.minFreeSpace - n, producer := Idle,
         committed := all, cuts := s.cuts + {|all|})
    case SampleProducerPos => s.(consumer := Peeking(s.producerPos))
    case UseProducerPos =>
      var cached := s.consumer.cached;
      if cached >= s.consumerPos then s.(consumer := Holding(cached - s.consumerPos))
      else if s.endOfRecordedSpace > s.consumerPos then
        s.(consumer := Holding(s.endOfRecordedSpace - s.consumerPos))
      else s.(consumer := RollingOver(cached))
    case RollConsumer => s.(consumerPos := 0, consumer := Holding(s.consumer.cached))
    case Consume(n) =>
      s.(consumerPos := s.consumerPos + n, consumer := Holding(s.consumer.avail - n),
         consumed := s.consumed + s.storage[s.consumerPos..s.consumerPos + n])
    case Rest => s.(consumer := Resting)
  }

  /** What reserveSpaceInternal does with its private copy of consumerPos. */
  function AfterSample(s: Ring): Ring
    requires s.producer.Sampled? && s.producerPos <= |s.storage|
  {
    var n, cached := s.producer.nbytes, s.producer.cached;
    if cached <= s.producerPos then
      var free := |s.storage| - s.producerPos;
      if free > n then s.(minFreeSpace := free, producer := Reserved(n))
      else
        s.(minFreeSpace := free, endOfRecordedSpace := s.producerPos,
           producer := if cached != 0 then Marked(n, cached) else Checking(n))
    else s.(minFreeSpace := cached - s.producerPos, producer := Checking(n))
  }

  ghost predicate Init(s: Ring) {
    && |s.storage| > 0
    && s.producerPos == 0 && s.consumerPos == 0
    && s.endOfRecordedSpace == |s.storage| && s.minFreeSpace == |s.storage|
    && s.producer == Idle && s.consumer == Resting
    && s.committed == [] && s.consumed == [] && s.cuts == {0}
  }

  ghost predicate Next(s: Ring, t: Ring) {
    exists a :: Enabled(s, a) && t == Apply(s, a)
  }

  /** The committed bytes that the consumer has not taken yet, in stream order. */
  function Unread(s: Ring): (r: seq<byte>)
    requires Bounds(s)
  {
    Live(s.storage, s.producerPos, s.consumerPos, s.endOfRecordedSpace)
  }

  /** The bytes between the consumer's and the producer's position, going round at `end`. */
  function Live(storage: seq<byte>, producerPos: nat, consumerPos: nat, end: nat): seq<byte>
    requires producerPos <= |storage| && consumerPos <= |storage| && end <= |storage|
    requires producerPos < consumerPos ==> consumerPos <= end
  {
    if producerPos < consumerPos then storage[consumerPos..end] + storage[..producerPos]
    else storage[consumerPos..producerPos]
  }

  /** Bytes from producerPos on that hold no unread data. */
  function FreeRun(s: Ring): int {
    if Wrapped(s) then s.consumerPos - s.producerPos else |s.storage| - s.producerPos
  }

  predicate Bounds(s: Ring) {
    && s.producerPos < |s.storage|
    && s.consumerPos <= |s.storage|
    && s.endOfRecordedSpace <= |s.storage|
    && (Wrapped(s) ==> s.consumerPos <= s.endOfRecordedSpace)
  }

  /** How much of the stream lies before `cached`, a past value of producerPos. */
  function StreamEnd(s: Ring, cached: nat): int {
    if cached >= s.consumerPos then |s.consumed| + cached - s.consumerPos
    else |s.consumed| + s.endOfRecordedSpace - s.consumerPos + cached
  }

  predicate ProducerInv(s: Ring)
  {
    && 1 <= s.minFreeSpace <= FreeRun(s)
    && match s.producer
       case Idle => true
       case Checking(_) => true
       case Sampled(n, cached) =>
         && s.minFreeSpace <= n
         && cached <= |s.storage|
         && (cached <= s.producerPos ==> !Wrapped(s) && cached <= s.consumerPos)
         && (cached > s.producerPos && Wrapped(s) ==> cached <= s.consumerPos)
       case Marked(n, cached) =>
         && |s.storage| - s.producerPos <= n
         && !Wrapped(s) && s.endOfRecordedSpace == s.producerPos
         && 0 < cached <= s.consumerPos
       case Reserved(n) => n < s.minFreeSpace
  }

  predicate ConsumerInv(s: Ring) {
    match s.consumer
    case Resting => true
    case Peeking(cached) =>
      && (cached < s.consumerPos ==> Wrapped(s) && cached <= s.producerPos)
      && (cached >= s.consumerPos && Wrapped(s) ==> cached <= s.endOfRecordedSpace)
      && (cached >= s.consumerPos && !Wrapped(s) ==> cached <= s.producerPos)
      && StreamEnd(s, cached) in s.cuts
    case RollingOver(cached) =>
      && Wrapped(s) && s.consumerPos == s.endOfRecordedSpace && cached <= s.producerPos
      && |s.consumed| + cached in s.cuts
    case Holding(avail) =>
      && (Wrapped(s) ==> s.consumerPos + avail <= s.endOfRecordedSpace)
      && (!Wrapped(s) ==> s.consumerPos + avail <= s.producerPos)
      && |s.consumed| + avail in s.cuts
  }

  predicate CutsInv(s: Ring) {
    && |s.committed| in s.cuts
    && (forall c <- s.cuts :: c <= |s.committed|)
    && (Wrapped(s) ==> |s.consumed| + s.endOfRecordedSpace - s.consumerPos in s.cuts)
  }

  /** The invariant of the ring: cursors in range, the private bounds of both sides still valid
      however stale they are, and the two streams agree. */
  predicate Inv(s: Ring) {
    && Bounds(s)
    && ProducerInv(s)
    && ConsumerInv(s)
    && s.consumed + Unread(s) == s.committed
    && CutsInv(s)
  }

  lemma InitInv(s: Ring)
    requires Init(s)
    ensures Inv(s)
  {
  }

  lemma StreamLength(s: Ring)
    requires Inv(s)
    ensures s.consumed + Unread(s) == s.committed && |s.committed| == |s.consumed| + |Unread(s)|
  {
  }

  lemma ProducerStep(s: Ring, a: Action)
    requires Inv(s) && Enabled(s, a)
    requires a.BeginReserve? || a.LeaveLoop? || a.SampleConsumerPos? || a.UseConsumerPos? || a.GiveUp?
    ensures Inv(Apply(s, a))
  {
    var t := Apply(s, a);
    assert Unread(t) == Unread(s) by {
      if a.UseConsumerPos? && Wrapped(s) { assert t.endOfRecordedSpace == s.endOfRecordedSpace; }
    }
  }

  lemma RollProducerStep(s: Ring)
    requires Inv(s) && Enabled(s, RollProducer)
    ensures Inv(Apply(s, RollProducer))
  {
    var t := Apply(s, RollProducer);
    assert Unread(t) == Unread(s);
    StreamLength(s);
  }

  lemma FillStep(s: Ring, offset: nat, value: byte)
    requires Inv(s) && Enabled(s, Fill(offset, value))
    ensures Inv(Apply(s, Fill(offset, value)))
  {
    assert Unread(Apply(s, Fill(offset, value))) == Unread(s);
  }

  lemma LiveGrows(storage: seq<byte>, p: nat, c: nat, end: nat, n: nat)
    requires p + n <= |storage| && c <= |storage| && end <= |storage|
    requires p < c ==> p + n < c <= end
    ensures Live(storage, p + n, c, end) == Live(storage, p, c, end) + storage[p..p + n]
  {
  }

  lemma LiveShrinks(storage: seq<byte>, p: nat, c: nat, end: nat, n: nat)
    requires p <= |storage| && c + n <= |storage| && end <= |storage|
    requires if p < c then c + n <= end else c + n <= p
    ensures Live(storage, p, c, end) == storage[c..c + n] + Live(storage, p, c + n, end)
  {
  }

  lemma FinishStreams(s: Ring, n: nat)
    requires Inv(s) && Enabled(s, Finish(n)) && n < FreeRun(s)
    ensures var t := Apply(s, Finish(n)); Bounds(t) && t.consumed + Unread(t) == t.committed
  {
    LiveGrows(s.storage, s.producerPos, s.consumerPos, s.endOfRecordedSpace, n);
    StreamLength(s);
    hide Live, ProducerInv, ConsumerInv, CutsInv;
    var t := Apply(s, Finish(n));
    var added := s.storage[s.producerPos..s.producerPos + n];
    assert t.consumed + Unread(t) == (s.consumed + Unread(s)) + added;
  }

  lemma FinishStep(s: Ring, n: nat)
    requires Inv(s) && Enabled(s, Finish(n))
    ensures Inv(Apply(s, Finish(n)))
  {
    FinishStreams(s, n);
    StreamLength(s);
    hide Live;
    var t := Apply(s, Finish(n));
    assert ConsumerInv(t) by { hide CutsInv, ProducerInv; }
    assert CutsInv(t) by { hide ConsumerInv, ProducerInv; }
  }

  lemma PeekStep(s: Ring, a: Action)
    requires Inv(s) && Enabled(s, a)
    requires a.SampleProducerPos? || a.UseProducerPos? || a.RollConsumer? || a.Rest?
    ensures Inv(Apply(s, a))
  {
    var t := Apply(s, a);
    StreamLength(s);
    assert Unread(t) == Unread(s);
  }

  lemma ConsumeStreams(s: Ring, n: nat)
    requires Inv(s) && Enabled(s, Consume(n))
    ensures var t := Apply(s, Consume(n)); Bounds(t) && t.consumed + Unread(t) == t.committed
  {
    LiveShrinks(s.storage, s.producerPos, s.consumerPos, s.endOfRecordedSpace, n);
    StreamLength(s);
    hide Live, ProducerInv, CutsInv;
    var t := Apply(s, Consume(n));
    var taken := s.storage[s.consumerPos..s.consumerPos + n];
    assert (s.consumed + taken) + Unread(t) == s.consumed + (taken + Unread(t));
  }

  lemma ConsumeStep(s: Ring, n: nat)
    requires Inv(s) && Enabled(s, Consume(n))
    ensures Inv(Apply(s, Consume(n)))
  {
    ConsumeStreams(s, n);
    hide Live;
  }

  /** Every atomic step of either side keeps the invariant, whatever the other side did since the
      step before. */
  lemma StepInv(s: Ring, a: Action)
    requires Inv(s) && Enabled(s, a)
    ensures Inv(Apply(s, a))
  {
    match a
    case RollProducer => RollProducerStep(s);
    case Fill(offset, value) => FillStep(s, offset, value);
    case Finish(n) => FinishStep(s, n);
    case SampleProducerPos => PeekStep(s, a);
    case UseProducerPos => PeekStep(s, a);
    case RollConsumer => PeekStep(s, a);
    case Consume(n) => ConsumeStep(s, n);
    case Rest => PeekStep(s, a);
    case _ => ProducerStep(s, a);
  }
}
