/** StagingBuffer as the object that one thread at a time calls: every method is a sequence of
    atomic steps of StagingRing with nothing in between. */
module StagingBuffers {
  import opened Bytes
  import opened Wrappers
  import opened StagingRing
  import opened StagingRingTheorems

  /** reserveProducerSpace in its non-blocking form, as steps of the ring: one iteration of the
      loop and a last loop test, unless the fast path applies. */
  function NonBlockingReserve(s: Ring, nbytes: nat): (t: Ring)
    requires Inv(s) && s.producer.Idle?
    ensures Inv(t)
  {
    StepInv(s, BeginReserve(nbytes));
    var s1 := Apply(s, BeginReserve(nbytes));
    if s1.producer.Reserved? then s1 else AfterIteration(s1)
  }

  function AfterIteration(s: Ring): (t: Ring)
    requires Inv(s) && s.producer.Checking?
    ensures Inv(t)
  {
    IterateInv(s);
    var t := Iterate(s);
    if t.producer.Reserved? then t
    else if t.minFreeSpace > s.producer.nbytes then (StepInv(t, LeaveLoop); Apply(t, LeaveLoop))
    else (StepInv(t, GiveUp); Apply(t, GiveUp))
  }

  /** Whether contiguous space for more than `nbytes` can be had at once: behind the producer, or
      at the start of the storage once the consumer has left it. */
  predicate HasRoom(s: Ring, nbytes: nat) {
    if Wrapped(s) then s.consumerPos - s.producerPos > nbytes
    else |s.storage| - s.producerPos > nbytes || s.consumerPos > nbytes
  }

  lemma AfterIterationGrants(s: Ring)
    requires Inv(s) && s.producer.Checking? && s.minFreeSpace <= s.producer.nbytes
    ensures var n := s.producer.nbytes;
            AfterIteration(s).producer == (if HasRoom(s, n) then Reserved(n) else Idle)
  {
    StepInv(s, SampleConsumerPos);
    hide ConsumerInv, CutsInv, Unread, Live;
  }

  lemma NonBlockingFrame(s: Ring, nbytes: nat)
    requires Inv(s) && s.producer.Idle?
    ensures var t := NonBlockingReserve(s, nbytes);
            t == s.(producerPos := t.producerPos, minFreeSpace := t.minFreeSpace,
                    endOfRecordedSpace := t.endOfRecordedSpace, producer := t.producer)
  {
    hide Inv, Iterate;
    StepInv(s, BeginReserve(nbytes));
    var s1 := Apply(s, BeginReserve(nbytes));
    if s1.producer.Checking? { IterateFrame(s1); }
  }

  /** A request that does not wait is granted exactly when there is room, and it changes neither
      the data nor the consumer's side. */
  lemma NonBlockingReserveGrants(s: Ring, nbytes: nat)
    requires Inv(s) && s.producer.Idle?
    ensures var t := NonBlockingReserve(s, nbytes);
            && t.producer == (if HasRoom(s, nbytes) then Reserved(nbytes) else Idle)
            && t == s.(producerPos := t.producerPos, minFreeSpace := t.minFreeSpace,
                       endOfRecordedSpace := t.endOfRecordedSpace, producer := t.producer)
            && (t.producer.Reserved? ==> t.producerPos + nbytes < |t.storage|)
            && Bounds(s) && Bounds(t) && Unread(t) == Unread(s)
  {
    NonBlockingFrame(s, nbytes);
    hide AfterIteration;
    StepInv(s, BeginReserve(nbytes));
    var s1 := Apply(s, BeginReserve(nbytes));
    if s1.producer.Checking? { AfterIterationGrants(s1); }
    var t := NonBlockingReserve(s, nbytes);
    SameStreams(s, t);
  }

  lemma SameStreams(s: Ring, t: Ring)
    requires Inv(s) && Inv(t) && s.consumed == t.consumed && s.committed == t.committed
    ensures Unread(s) == Unread(t)
  {
    hide ProducerInv, ConsumerInv, CutsInv, Live;
    assert s.committed[|s.consumed|..] == Unread(s);
    assert t.committed[|t.consumed|..] == Unread(t);
  }

  /** What reserveSpaceInternal computes in its one iteration. */
  lemma IterationOutcome(s: Ring)
    requires Inv(s) && s.producer.Checking? && s.minFreeSpace <= s.producer.nbytes
    ensures s.producerPos <= |s.storage|
    ensures Iterate(s) ==
      if s.consumerPos > s.producerPos then s.(minFreeSpace := s.consumerPos - s.producerPos)
      else
        var free := |s.storage| - s.producerPos;
        if free > s.producer.nbytes then s.(minFreeSpace := free, producer := Reserved(s.producer.nbytes))
        else if s.consumerPos != 0 then
          s.(minFreeSpace := s.consumerPos, endOfRecordedSpace := s.producerPos, producerPos := 0)
        else s.(minFreeSpace := free, endOfRecordedSpace := s.producerPos)
  {
    hide ConsumerInv, CutsInv, Live, Unread;
  }

  lemma FinishEffect(s: Ring, n: nat)
    requires Inv(s) && s.producer.Reserved? && n <= s.producer.nbytes
    ensures Enabled(s, Finish(n)) && n < s.minFreeSpace && s.producerPos + n < |s.storage|
    ensures var t := Apply(s, Finish(n));
            && Inv(t) && Bounds(s) && Bounds(t)
            && Unread(t) == Unread(s) + s.storage[s.producerPos..s.producerPos + n]
  {
    hide ConsumerInv, CutsInv, Live;
    StepInv(s, Finish(n));
    LiveGrows(s.storage, s.producerPos, s.consumerPos, s.endOfRecordedSpace, n);
  }

  lemma ConsumeEffect(s: Ring, n: nat)
    requires Inv(s) && s.consumer.Holding? && n <= s.consumer.avail
    ensures s.consumerPos + n <= |s.storage| && Enabled(s, Consume(n))
    ensures var t := Apply(s, Consume(n));
            && Inv(t) && Bounds(s) && Bounds(t)
            && Unread(s) == s.storage[s.consumerPos..s.consumerPos + n] + Unread(t)
  {
    HeldRange(s);
    StepInv(s, Consume(n));
    LiveShrinks(s.storage, s.producerPos, s.consumerPos, s.endOfRecordedSpace, n);
  }

  lemma FillEffect(s: Ring, offset: nat, value: byte)
    requires Inv(s) && s.producer.Reserved? && offset < s.producer.nbytes
    ensures Enabled(s, Fill(offset, value)) && s.producerPos + offset < |s.storage|
    ensures var t := Apply(s, Fill(offset, value)); Inv(t) && Bounds(s) && Bounds(t) && Unread(t) == Unread(s)
  {
    StepInv(s, Fill(offset, value));
    SameStreams(s, Apply(s, Fill(offset, value)));
  }

  /** The steps of an undisturbed peek, taken together. */
  function PeekSteps(s: Ring): (t: Ring)
    requires Inv(s) && s.consumer.Resting?
    ensures Inv(t) && t.consumer.Holding?
  {
    StepInv(s, SampleProducerPos);
    var s1 := Apply(s, SampleProducerPos);
    StepInv(s1, UseProducerPos);
    var s2 := Apply(s1, UseProducerPos);
    if s2.consumer.Holding? then s2 else (StepInv(s2, RollConsumer); Apply(s2, RollConsumer))
  }

  lemma PeekOutcome(s: Ring)
    requires Inv(s) && s.consumer.Resting?
    ensures s.producerPos < s.consumerPos ==> s.consumerPos <= s.endOfRecordedSpace
    ensures PeekSteps(s) ==
      if s.producerPos >= s.consumerPos then s.(consumer := Holding(s.producerPos - s.consumerPos))
      else if s.endOfRecordedSpace > s.consumerPos then
        s.(consumer := Holding(s.endOfRecordedSpace - s.consumerPos))
      else s.(consumer := Holding(s.producerPos), consumerPos := 0)
  {
    hide ProducerInv, ConsumerInv, CutsInv, Live, Unread;
  }

  /** The range peek returns is a prefix of the unread data, and empty only if there is none. */
  lemma PeekEffect(s: Ring)
    requires Inv(s) && s.consumer.Resting?
    ensures var t := PeekSteps(s);
            && Bounds(s) && Bounds(t) && t.consumerPos + t.consumer.avail <= |s.storage|
            && s.storage[t.consumerPos..t.consumerPos + t.consumer.avail] <= Unread(s) == Unread(t)
            && (t.consumer.avail == 0 ==> Unread(s) == [])
  {
    hide ProducerInv, ConsumerInv, CutsInv;
    var t := PeekSteps(s);
    PeekOutcome(s);
    HeldRange(t);
    SameStreams(s, t);
  }

  class StagingBuffer {
    const storage: array<byte>
    const id: nat
    var producerPos: nat
    var endOfRecordedSpace: nat
    var minFreeSpace: nat
    var consumerPos: nat
    var shouldDeallocate: bool
    ghost var producer: Producer
    ghost var consumer: Consumer
    ghost var committed: seq<byte>
    ghost var consumed: seq<byte>
    ghost var cuts: set<nat>

    ghost function View(): Ring
      reads this, storage
    {
      Ring(storage[..], producerPos, consumerPos, endOfRecordedSpace, minFreeSpace,
           producer, consumer, committed, consumed, cuts)
    }

    ghost predicate Valid()
      reads this, storage
    {
      Inv(View())
    }

    constructor (bufferId: nat, size: nat)
      requires size > 0
      ensures Init(View()) && Valid() && fresh(storage)
      ensures id == bufferId && storage.Length == size && !shouldDeallocate
    {
      storage := new byte[size](_ => 0);
      id := bufferId;
      producerPos, consumerPos, endOfRecordedSpace, minFreeSpace := 0, 0, size, size;
      shouldDeallocate := false;
      producer, consumer, committed, consumed, cuts := Idle, Resting, [], [], {0};
    }

    /** reserveProducerSpace; None stands for the null pointer of the non-blocking variant. */
    method ReserveProducerSpace(nbytes: nat) returns (pos: Option<nat>)
      requires Valid() && producer.Idle?
      modifies this
      ensures Valid() && View() == NonBlockingReserve(old(View()), nbytes)
      ensures pos == if HasRoom(old(View()), nbytes) then Some(producerPos) else None
      ensures pos.Some? ==> producer == Reserved(nbytes) && pos.value + nbytes < storage.Length
      ensures Unread(View()) == Unread(old(View())) && shouldDeallocate == old(shouldDeallocate)
    {
      hide Inv, Bounds, Unread, HasRoom, AfterIteration, Enabled;
      NonBlockingReserveGrants(View(), nbytes);
      StepInv(View(), BeginReserve(nbytes));
      if nbytes < minFreeSpace {
        producer := Reserved(nbytes);
        return Some(producerPos);
      }
      producer := Checking(nbytes);
      pos := ReserveSpaceInternal(nbytes);
    }

    /** The slow path.  In the non-blocking variant the loop body runs at most once. */
    method ReserveSpaceInternal(nbytes: nat) returns (pos: Option<nat>)
      requires Valid() && producer == Checking(nbytes) && minFreeSpace <= nbytes
      modifies this
      ensures View() == AfterIteration(old(View()))
      ensures pos == if producer.Reserved? then Some(producerPos) else None
      ensures shouldDeallocate == old(shouldDeallocate)
    {
      hide Inv, Bounds, Unread, Iterate, Enabled;
      ghost var s := View();
      IterationOutcome(s);
      IterateInv(s);
      var endOfBuffer := storage.Length;
      while minFreeSpace <= nbytes
        invariant View() == s || (View() == Iterate(s) && minFreeSpace > nbytes)
        invariant shouldDeallocate == old(shouldDeallocate)
        decreases if minFreeSpace <= nbytes then 1 else 0
      {
        var cachedConsumerPos := consumerPos;
        if cachedConsumerPos <= producerPos {
          minFreeSpace := endOfBuffer - producerPos;
          if minFreeSpace > nbytes {
            break;
          }
          endOfRecordedSpace := producerPos;
          if cachedConsumerPos != 0 {
            producerPos := 0;
            minFreeSpace := cachedConsumerPos - producerPos;
          }
        } else {
          minFreeSpace := cachedConsumerPos - producerPos;
        }
        if minFreeSpace <= nbytes {
          producer := Idle;
          return None;
        }
      }
      producer := Reserved(nbytes);
      pos := Some(producerPos);
    }

    /** The logging code writes one byte of its reservation. */
    method Put(offset: nat, value: byte)
      requires Valid() && producer.Reserved? && offset < producer.nbytes
      modifies storage
      ensures Valid() && View() == Apply(old(View()), Fill(offset, value))
      ensures Unread(View()) == Unread(old(View()))
    {
      hide Inv, Bounds, Unread, Enabled;
      FillEffect(View(), offset, value);
      storage[producerPos + offset] := value;
    }

    /** finishReservation: the bytes in front of producerPos become visible to the consumer.  The
        two assertions are the source's own. */
    method FinishReservation(nbytes: nat)
      requires Valid() && producer.Reserved? && nbytes <= producer.nbytes
      modifies this
      ensures Valid() && View() == Apply(old(View()), Finish(nbytes))
      ensures committed == old(committed) + old(storage[producerPos..producerPos + nbytes])
      ensures Unread(View()) == Unread(old(View())) + old(storage[producerPos..producerPos + nbytes])
      ensures shouldDeallocate == old(shouldDeallocate)
    {
      hide Inv, Bounds, Unread, Enabled;
      FinishEffect(View(), nbytes);
      assert nbytes < minFreeSpace;
      assert producerPos + nbytes < storage.Length;
      committed := committed + storage[..][producerPos..producerPos + nbytes];
      cuts := cuts + {|committed|};
      minFreeSpace := minFreeSpace - nbytes;
      producerPos := producerPos + nbytes;
      producer := Idle;
    }

    /** peek: the returned range is a prefix of the unread data, and empty only if there is none. */
    method Peek() returns (pos: nat, bytesAvailable: nat)
      requires Valid() && consumer.Resting?
      modifies this
      ensures Valid() && View() == PeekSteps(old(View()))
      ensures consumer == Holding(bytesAvailable) && pos == consumerPos
      ensures pos + bytesAvailable <= storage.Length
      ensures storage[pos..pos + bytesAvailable] <= Unread(View()) == Unread(old(View()))
      ensures bytesAvailable == 0 ==> Unread(View()) == []
      ensures shouldDeallocate == old(shouldDeallocate)
    {
      hide Inv, Bounds, Unread, PeekSteps, Enabled, Apply;
      ghost var s := View();
      PeekOutcome(s);
      PeekEffect(s);
      var cachedProducerPos := producerPos;
      if cachedProducerPos < consumerPos {
        bytesAvailable := endOfRecordedSpace - consumerPos;
        if bytesAvailable > 0 {
          consumer := Holding(bytesAvailable);
          assert View() == PeekSteps(s);
          return consumerPos, bytesAvailable;
        }
        consumerPos := 0;
      }
      bytesAvailable := cachedProducerPos - consumerPos;
      consumer := Holding(bytesAvailable);
      assert View() == PeekSteps(s);
      pos := consumerPos;
    }

    /** consume: gives the first nbytes of the peeked range back to the producer. */
    method Consume(nbytes: nat)
      requires Valid() && consumer.Holding? && nbytes <= consumer.avail
      modifies this
      ensures Valid() && View() == Apply(old(View()), StagingRing.Consume(nbytes))
      ensures consumed == old(consumed) + old(storage[consumerPos..consumerPos + nbytes])
      ensures Unread(old(View())) == old(storage[consumerPos..consumerPos + nbytes]) + Unread(View())
      ensures shouldDeallocate == old(shouldDeallocate)
    {
      hide Inv, Bounds, Unread, Enabled;
      ConsumeEffect(View(), nbytes);
      consumed := consumed + storage[..][consumerPos..consumerPos + nbytes];
      consumer := Holding(consumer.avail - nbytes);
      consumerPos := consumerPos + nbytes;
    }

    /** checkCanDelete: for a dead thread it says exactly whether all its bytes have been consumed,
        apart from a consumer that has yet to roll over. */
    method CheckCanDelete() returns (can: bool)
      requires Valid()
      ensures can ==> shouldDeallocate && Unread(View()) == [] && consumed == committed
      ensures shouldDeallocate && Unread(View()) == [] && !can ==> Wrapped(View()) && consumerPos == endOfRecordedSpace
    {
      StreamLength(View());
      can := shouldDeallocate && consumerPos == producerPos;
    }
  }
}
