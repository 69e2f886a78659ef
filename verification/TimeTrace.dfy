/** Event histories, one ring per thread, and the merge that prints them. */
module TimeTrace {
  import opened Arithmetic
  import opened Wrappers

  datatype Event = Event(timestamp: nat, format: string, args: seq<nat>)

  // The largest 64-bit timestamp.
  const NEVER: nat := 0xffff_ffff_ffff_ffff

  /** The slot of the event with number `k`. */
  function Slot(k: nat, size: nat): (s: nat)
    requires size >= 1
    ensures s < size
  {
    k % size
  }

  lemma {:induction false} SlotsDiffer(a: nat, b: nat, size: nat)
    requires a < b < a + size
    ensures Slot(a, size) != Slot(b, size)
  {
    RemaindersDiffer(a, b, size);
  }

  lemma {:induction false} SlotOfSmall(k: nat, size: nat)
    requires k < size
    ensures Slot(k, size) == k
  {
  }

  lemma {:induction false} SlotAgain(k: nat, size: nat)
    requires size >= 1
    ensures Slot(k + size, size) == Slot(k, size)
  {
    ModOfShifted(k, size, 1);
  }

  /** The slot behind a slot. */
  function Next(index: nat, size: nat): (s: nat)
    requires size >= 1
    ensures s < size
  {
    (index + 1) % size
  }

  lemma {:induction false} NextSlot(n: nat, size: nat)
    requires size >= 1
    ensures Next(Slot(n, size), size) == Slot(n + 1, size)
  {
    var q := n / size;
    ModOfShifted(n % size + 1, size, q);
    assert n % size + 1 + q * size == n + 1;
  }

  /** One thread's ring; a slot whose event has no format is unused. */
  class Buffer {
    const size: nat
    var nextIndex: nat
    var activeReaders: nat
    const events: array<Option<Event>>
    // Every event recorded since the last reset.
    ghost var history: seq<Event>

    ghost predicate Valid()
      reads `nextIndex, `history, events
    {
      && size >= 2 && events.Length == size && nextIndex == Slot(|history|, size)
      && (forall k :: 0 <= k < |history| && |history| - size <= k ==> events[Slot(k, size)] == Some(history[k]))
      && (forall k :: |history| <= k < size ==> events[k] == None)
    }

    constructor (size: nat)
      requires size >= 2
      ensures Valid() && history == [] && activeReaders == 0 && this.size == size && fresh(events)
    {
      this.size, nextIndex, activeReaders, history := size, 0, 0, [];
      events := new Option<Event>[size](_ => None);
    }

    /** What a print of the buffer covers: all events, or the last ones when there are too many. */
    ghost function Window(): (w: seq<Event>)
      requires size >= 1
      reads `history
      ensures |w| == (if |history| <= size - 1 then |history| else size - 1) && w == history[|history| - |w|..]
    {
      if |history| < size then history else history[|history| - (size - 1)..]
    }

    lemma {:induction false} SlotUsed(k: nat)
      requires Valid() && k < size && k < |history|
      ensures events[k] != None
    {
      var n := |history|;
      var at := n - 1 - (n - 1 - k) % size;
      var q := (n - 1 - k) / size;
      assert at == k + q * size;
      ModIsUnique(at, size, q, k);
      assert events[Slot(at, size)] == Some(history[at]);
    }

    /** Records an event in the next slot, overwriting the oldest when all are in use, unless a reader
        is active. */
    method Record(e: Event)
      requires Valid()
      modifies `nextIndex, `history, events
      ensures Valid()
      ensures history == if activeReaders > 0 then old(history) else old(history) + [e]
    {
      if activeReaders > 0 { return; }
      ghost var n := |history|;
      NextSlot(n, size);
      forall k: nat | n - size < k < n ensures Slot(k, size) != Slot(n, size) { SlotsDiffer(k, n, size); }
      forall k: nat | k < size ensures Slot(k, size) == k { SlotOfSmall(k, size); }
      hide Slot, Next;
      events[nextIndex] := Some(e);
      nextIndex := Next(nextIndex, size);
      history := history + [e];
    }

    /** Discards the events. The loop stops at the first unused slot, behind which there are none in
        use. */
    method Reset()
      requires Valid()
      modifies `nextIndex, `history, events
      ensures Valid() && history == []
    {
      var i := 0;
      ghost var n := |history|;
      forall k | 0 <= k < size && k < n ensures events[k] != None { SlotUsed(k); }
      while i < size && events[i] != None
        invariant 0 <= i <= size && size == events.Length
        invariant forall k :: 0 <= k < i ==> events[k] == None
        invariant forall k :: i <= k < size ==> events[k] == old(events[k])
      {
        events[i] := None;
        i := i + 1;
      }
      assert i < size ==> n <= i;
      nextIndex, history := 0, [];
    }

    // ---- Reading ----

    /** fetch_and(1) and fetch_and(-1) on the count of readers. */
    method EnterReader()
      modifies `activeReaders
      ensures activeReaders == old(activeReaders) % 2
    {
      activeReaders := activeReaders % 2;
    }

    method LeaveReader()
      modifies `activeReaders
      ensures activeReaders == old(activeReaders)
    {
    }

    /** Slot `index` is that of event `off` of the window, or the one behind its last event. */
    ghost predicate At(index: nat, off: nat)
      requires size >= 1
      reads `history
    {
      off <= |Window()| && index == Slot(|history| - |Window()| + off, size)
    }

    lemma {:induction false} InWindow(off: nat)
      requires Valid() && off < |Window()|
      ensures events[Slot(|history| - |Window()| + off, size)] == Some(Window()[off])
      ensures Slot(|history| - |Window()| + off, size) != nextIndex
    {
      hide Slot, Next;
      var w := Window();
      var k := |history| - |w| + off;
      assert w[off] == history[k];
      SlotsDiffer(k, |history|, size);
    }

    lemma {:induction false} Cursor(index: nat, off: nat)
      requires Valid() && At(index, off)
      ensures index < size == events.Length
      ensures off < |Window()| <==> index != nextIndex
      ensures off < |Window()| ==> events[index] == Some(Window()[off]) && At(Next(index, size), off + 1)
    {
      hide *;
      EndIs();
      AtIs(index, off);
      if off < |Window()| {
        InWindow(off);
        NextSlot(|history| - |Window()| + off, size);
        AtIs(Next(index, size), off + 1);
      }
    }

    lemma {:induction false} EndIs()
      requires Valid()
      ensures size >= 2 && events.Length == size && nextIndex == Slot(|history|, size)
    {
    }

    lemma {:induction false} AtIs(index: nat, off: nat)
      requires size >= 1
      ensures At(index, off) <==> off <= |Window()| && index == Slot(|history| - |Window()| + off, size)
    {
      hide Slot, Window;
    }

    /** The slot of the oldest event to print: behind the next slot, if that one is in use, or the
        first. */
    method FirstIndex() returns (index: nat)
      requires Valid()
      ensures At(index, 0)
    {
      hide Slot, Next;
      ghost var n := |history|;
      NextSlot(n, size);
      SlotOfSmall(0, size);
      index := Next(nextIndex, size);
      if n >= size - 1 {
        SlotAgain(n + 1 - size, size);
        assert events[index] == Some(history[n + 1 - size]);
      } else {
        SlotOfSmall(n + 1, size);
      }
      if events[index] == None { index := 0; }
    }
  }

  // ---- Merging ----

  datatype Printed = Printed(buffer: nat, event: Event)

  predicate Sorted(es: seq<Event>) {
    forall i, j :: 0 <= i < j < |es| ==> es[i].timestamp <= es[j].timestamp
  }

  predicate SortedPrint(ps: seq<Printed>) {
    forall i, j :: 0 <= i < j < |ps| ==> ps[i].event.timestamp <= ps[j].event.timestamp
  }

  /** The events that a print includes: not before the starting time, and before the largest time. */
  function Kept(es: seq<Event>, start: nat): seq<Event> {
    if es == [] then []
    else (if start <= es[0].timestamp < NEVER then [es[0]] else []) + Kept(es[1..], start)
  }

  /** All events that are not before the starting time. */
  function NotBefore(es: seq<Event>, start: nat): (r: seq<Event>)
    ensures |r| <= |es|
  {
    if es == [] then []
    else (if start <= es[0].timestamp then [es[0]] else []) + NotBefore(es[1..], start)
  }

  /** Of sorted events exactly those are printed that are not before the starting time and before the
      largest time of 64 bits. */
  ghost predicate PrintsBetween(w: seq<Event>, start: nat, es: seq<Event>) {
    exists j, m :: 0 <= j <= m <= |w| && IsBetween(w, start, j, m) && es == w[j..m]
  }

  predicate IsBetween(w: seq<Event>, start: nat, j: nat, m: nat)
    requires j <= m <= |w|
  {
    && (forall k :: 0 <= k < j ==> w[k].timestamp < start)
    && (forall k :: j <= k < m ==> start <= w[k].timestamp < 0xffff_ffff_ffff_ffff)
    && (forall k :: m <= k < |w| ==> w[k].timestamp >= 0xffff_ffff_ffff_ffff)
  }

  /** Timestamps are 64-bit numbers. */
  predicate Times64(ws: seq<seq<Event>>) {
    forall i, k :: 0 <= i < |ws| && 0 <= k < |ws[i]| ==> ws[i][k].timestamp <= 0xffff_ffff_ffff_ffff
  }

  /** No event has the largest time. */
  predicate OrdinaryTimes(ws: seq<seq<Event>>) {
    forall i, k :: 0 <= i < |ws| && 0 <= k < |ws[i]| ==> ws[i][k].timestamp < 0xffff_ffff_ffff_ffff
  }

  /** `Kept` is the stretch of the window between the two times. */
  lemma {:induction false} KeptBetween(w: seq<Event>, start: nat)
    requires Sorted(w) && start <= 0xffff_ffff_ffff_ffff
    ensures PrintsBetween(w, start, Kept(w, start))
  {
    if w == [] {
      assert IsBetween(w, start, 0, 0) && w[0..0] == [];
    } else {
      SortedTail(w);
      KeptBetween(w[1..], start);
      hide Sorted;
      if w[0].timestamp < start {
        KeptBehindFirst(w, start);
      } else if w[0].timestamp < 0xffff_ffff_ffff_ffff {
        KeptFromFirst(w, start);
      } else {
        KeptNone(w, start);
        NothingBetween(w, start);
      }
    }
  }

  lemma {:induction false} SortedTail(w: seq<Event>)
    requires Sorted(w) && w != []
    ensures Sorted(w[1..]) && forall i :: 0 <= i < |w[1..]| ==> w[0].timestamp <= w[1..][i].timestamp
  {
    assert forall i :: 0 <= i < |w[1..]| ==> w[1..][i] == w[i + 1];
  }

  lemma {:induction false} NothingBetween(w: seq<Event>, start: nat)
    requires Sorted(w) && w != [] && w[0].timestamp >= 0xffff_ffff_ffff_ffff && Kept(w, start) == []
    ensures PrintsBetween(w, start, Kept(w, start))
  {
    assert IsBetween(w, start, 0, 0) && w[0..0] == [];
  }

  lemma {:induction false} KeptBehindFirst(w: seq<Event>, start: nat)
    requires w != [] && w[0].timestamp < start && PrintsBetween(w[1..], start, Kept(w[1..], start))
    ensures PrintsBetween(w, start, Kept(w, start))
  {
    var rest := w[1..];
    var j, m :| 0 <= j <= m <= |rest| && IsBetween(rest, start, j, m) && Kept(rest, start) == rest[j..m];
    Shifted(w, start, j, m);
    TailSlice(w, j, m);
  }

  lemma {:induction false} TailSlice(w: seq<Event>, j: nat, m: nat)
    requires w != [] && j <= m < |w|
    ensures w[1..][j..m] == w[j + 1..m + 1]
  {
  }

  lemma {:induction false} KeptFromFirst(w: seq<Event>, start: nat)
    requires w != [] && start <= w[0].timestamp < 0xffff_ffff_ffff_ffff
    requires PrintsBetween(w[1..], start, Kept(w[1..], start))
    requires forall i :: 0 <= i < |w[1..]| ==> w[0].timestamp <= w[1..][i].timestamp
    ensures PrintsBetween(w, start, Kept(w, start))
  {
    var rest := w[1..];
    var j, m :| 0 <= j <= m <= |rest| && IsBetween(rest, start, j, m) && Kept(rest, start) == rest[j..m];
    assert j == 0;
    FromFirst(w, start, m);
    TailSlice(w, 0, m);
    assert w[0..m + 1] == [w[0]] + w[1..m + 1];
  }

  lemma {:induction false} Shifted(w: seq<Event>, start: nat, j: nat, m: nat)
    requires w != [] && w[0].timestamp < start && j <= m < |w| && IsBetween(w[1..], start, j, m)
    ensures IsBetween(w, start, j + 1, m + 1)
  {
    assert forall i :: 0 < i < |w| ==> w[i] == w[1..][i - 1];
  }

  lemma {:induction false} FromFirst(w: seq<Event>, start: nat, m: nat)
    requires w != [] && start <= w[0].timestamp < 0xffff_ffff_ffff_ffff && m < |w| && IsBetween(w[1..], start, 0, m)
    ensures IsBetween(w, start, 0, m + 1)
  {
    assert forall i :: 0 < i < |w| ==> w[i] == w[1..][i - 1];
  }

  lemma {:induction false} StartInRange(ws: seq<seq<Event>>, start: nat)
    requires IsStart(ws, start) && Times64(ws)
    ensures start <= 0xffff_ffff_ffff_ffff
  {
  }

  /** What a print of the windows is, in terms of times. */
  lemma {:induction false} PrintIs(ws: seq<seq<Event>>, start: nat)
    requires IsStart(ws, start) && forall i :: 0 <= i < |ws| ==> Sorted(ws[i])
    ensures Times64(ws) ==> forall i :: 0 <= i < |ws| ==> PrintsBetween(ws[i], start, Kept(ws[i], start))
    ensures OrdinaryTimes(ws) ==> forall i :: 0 <= i < |ws| ==> Kept(ws[i], start) == NotBefore(ws[i], start)
  {
    hide Sorted, PrintsBetween, Kept, NotBefore, IsStart;
    if Times64(ws) {
      StartInRange(ws, start);
      forall i | 0 <= i < |ws| ensures PrintsBetween(ws[i], start, Kept(ws[i], start)) { KeptBetween(ws[i], start); }
    }
    if OrdinaryTimes(ws) {
      forall i | 0 <= i < |ws| ensures Kept(ws[i], start) == NotBefore(ws[i], start) { KeptAllIff(ws[i], start); }
    }
  }

  predicate AllPrintable(es: seq<Event>, start: nat) {
    forall i :: 0 <= i < |es| && start <= es[i].timestamp ==> es[i].timestamp < NEVER
  }

  /** The print leaves nothing out from the starting time on exactly when no event there has the
      largest time. */
  lemma {:induction false} KeptAllIff(es: seq<Event>, start: nat)
    ensures |Kept(es, start)| <= |NotBefore(es, start)|
    ensures Kept(es, start) == NotBefore(es, start) <==> AllPrintable(es, start)
  {
    if es != [] {
      KeptAllIff(es[1..], start);
      PrintableTail(es, start);
      hide AllPrintable;
      var k, n := Kept(es[1..], start), NotBefore(es[1..], start);
      if start <= es[0].timestamp < NEVER {
        assert Kept(es, start) == [es[0]] + k && NotBefore(es, start) == [es[0]] + n;
        assert ([es[0]] + k)[1..] == k && ([es[0]] + n)[1..] == n;
      } else {
        assert Kept(es, start) == [] + k == k;
        if es[0].timestamp < start { assert NotBefore(es, start) == [] + n == n; }
      }
    }
  }

  lemma {:induction false} PrintableTail(es: seq<Event>, start: nat)
    requires es != []
    ensures AllPrintable(es, start) <==>
              (start <= es[0].timestamp ==> es[0].timestamp < NEVER) && AllPrintable(es[1..], start)
  {
    assert forall i :: 0 < i < |es| ==> es[i] == es[1..][i - 1];
    if AllPrintable(es, start) {
      assert forall i :: 0 <= i < |es[1..]| ==> es[1..][i] == es[i + 1];
    }
  }

  /** The printed events of one buffer, in the order of printing. */
  function PrintedFrom(ps: seq<Printed>, buffer: nat): seq<Event> {
    if ps == [] then []
    else
      PrintedFrom(ps[..|ps| - 1], buffer) +
      (if ps[|ps| - 1].buffer == buffer then [ps[|ps| - 1].event] else [])
  }

  /** The latest of the times at which the windows begin; an empty one does not count. */
  ghost predicate IsStart(ws: seq<seq<Event>>, start: nat) {
    && (forall i :: 0 <= i < |ws| && ws[i] != [] ==> ws[i][0].timestamp <= start)
    && (start == 0 || exists i :: 0 <= i < |ws| && ws[i] != [] && ws[i][0].timestamp == start)
  }

  lemma {:induction false} KeptSkip(es: seq<Event>, start: nat)
    requires es != [] && es[0].timestamp < start
    ensures Kept(es, start) == Kept(es[1..], start)
  {
  }

  /** Nothing is kept of sorted events that begin at the largest time. */
  lemma {:induction false} KeptNone(es: seq<Event>, start: nat)
    requires Sorted(es) && (es != [] ==> es[0].timestamp >= NEVER)
    ensures Kept(es, start) == []
  {
    if es != [] {
      assert forall i :: 0 <= i < |es[1..]| ==> es[1..][i] == es[i + 1];
      KeptNone(es[1..], start);
    }
  }

  lemma {:induction false} PrintedMore(ps: seq<Printed>, p: Printed, buffer: nat)
    ensures PrintedFrom(ps + [p], buffer)
            == PrintedFrom(ps, buffer) + (if p.buffer == buffer then [p.event] else [])
  {
    assert (ps + [p])[..|ps|] == ps;
  }

  /** The buffers are in order and `ws` are their windows. */
  ghost predicate HaveWindows(buffers: seq<Buffer>, ws: seq<seq<Event>>)
    reads buffers`nextIndex, buffers`history, set i | 0 <= i < |buffers| :: buffers[i].events
  {
    |ws| == |buffers| && forall i :: 0 <= i < |buffers| ==> buffers[i].Valid() && buffers[i].Window() == ws[i]
  }

  /** Each buffer's cursor is at event `offs[i]` of its window. */
  ghost predicate Positioned(buffers: seq<Buffer>, ws: seq<seq<Event>>, current: seq<nat>, offs: seq<nat>)
    reads buffers`nextIndex, buffers`history, set i | 0 <= i < |buffers| :: buffers[i].events
  {
    && HaveWindows(buffers, ws) && |current| == |offs| == |buffers|
    && forall i :: 0 <= i < |buffers| ==> buffers[i].size >= 2 && buffers[i].At(current[i], offs[i])
  }

  lemma {:induction false} CursorOf(buffers: seq<Buffer>, ws: seq<seq<Event>>, current: seq<nat>, offs: seq<nat>, i: nat)
    requires Positioned(buffers, ws, current, offs) && i < |buffers|
    ensures buffers[i].size >= 2 && offs[i] <= |ws[i]| && current[i] < buffers[i].size == buffers[i].events.Length
    ensures offs[i] < |ws[i]| <==> current[i] != buffers[i].nextIndex
    ensures offs[i] < |ws[i]| ==> buffers[i].events[current[i]] == Some(ws[i][offs[i]])
    ensures offs[i] < |ws[i]| ==>
              Positioned(buffers, ws, current[i := Next(current[i], buffers[i].size)], offs[i := offs[i] + 1])
  {
    hide *;
    PositionedAt(buffers, ws, current, offs, i);
    buffers[i].EndIs();
    buffers[i].AtIs(current[i], offs[i]);
    buffers[i].Cursor(current[i], offs[i]);
    if offs[i] < |ws[i]| {
      MovedOn(buffers, ws, current, offs, i, Next(current[i], buffers[i].size), offs[i] + 1);
    }
  }

  lemma {:induction false} PositionedAt(buffers: seq<Buffer>, ws: seq<seq<Event>>, current: seq<nat>, offs: seq<nat>, i: nat)
    requires Positioned(buffers, ws, current, offs) && i < |buffers|
    ensures |ws| == |current| == |offs| == |buffers| && buffers[i].Valid() && buffers[i].Window() == ws[i]
    ensures buffers[i].size >= 2 && buffers[i].At(current[i], offs[i])
  {
    hide Slot;
  }

  lemma {:induction false} MovedOn(buffers: seq<Buffer>, ws: seq<seq<Event>>, current: seq<nat>, offs: seq<nat>, i: nat,
                                   index: nat, off: nat)
    requires Positioned(buffers, ws, current, offs) && i < |buffers|
    requires buffers[i].size >= 2 && buffers[i].At(index, off)
    ensures Positioned(buffers, ws, current[i := index], offs[i := off])
  {
    hide Slot, HaveWindows;
  }

  /** Where each buffer's oldest event is. */
  method FirstIndices(buffers: seq<Buffer>, ghost ws: seq<seq<Event>>) returns (current: seq<nat>, ghost offs: seq<nat>)
    requires HaveWindows(buffers, ws)
    ensures Positioned(buffers, ws, current, offs) && forall i :: 0 <= i < |offs| ==> offs[i] == 0
  {
    hide *;
    current, offs := [], [];
    for i := 0 to |buffers|
      invariant |current| == |offs| == i && forall k :: 0 <= k < i ==> offs[k] == 0
      invariant forall k :: 0 <= k < i ==> buffers[k].size >= 2 && buffers[k].At(current[k], offs[k])
    {
      WindowOf(buffers, ws, i);
      var index := buffers[i].FirstIndex();
      current, offs := current + [index], offs + [0];
    }
    AllPositioned(buffers, ws, current, offs);
  }

  lemma {:induction false} WindowOf(buffers: seq<Buffer>, ws: seq<seq<Event>>, i: nat)
    requires HaveWindows(buffers, ws) && i < |buffers|
    ensures |ws| == |buffers| && buffers[i].Valid() && buffers[i].Window() == ws[i] && buffers[i].size >= 2
  {
    buffers[i].EndIs();
  }

  lemma {:induction false} AllPositioned(buffers: seq<Buffer>, ws: seq<seq<Event>>, current: seq<nat>, offs: seq<nat>)
    requires HaveWindows(buffers, ws) && |current| == |offs| == |buffers|
    requires forall k :: 0 <= k < |buffers| ==> buffers[k].size >= 2 && buffers[k].At(current[k], offs[k])
    ensures Positioned(buffers, ws, current, offs)
  {
    hide HaveWindows;
  }

  lemma {:induction false} PositionedParts(buffers: seq<Buffer>, ws: seq<seq<Event>>, current: seq<nat>, offs: seq<nat>)
    requires Positioned(buffers, ws, current, offs)
    ensures HaveWindows(buffers, ws) && |ws| == |current| == |offs| == |buffers|
  {
    hide Slot;
  }

  /** The latest of the oldest times. */
  method StartTime(buffers: seq<Buffer>, current: seq<nat>, ghost ws: seq<seq<Event>>, ghost offs: seq<nat>)
    returns (startTime: nat)
    requires Positioned(buffers, ws, current, offs) && forall i :: 0 <= i < |offs| ==> offs[i] == 0
    ensures IsStart(ws, startTime)
  {
    hide *;
    startTime := 0;
    PositionedParts(buffers, ws, current, offs);
    for i := 0 to |buffers|
      invariant forall k :: 0 <= k < i && ws[k] != [] ==> ws[k][0].timestamp <= startTime
      invariant startTime == 0 || exists k :: 0 <= k < i && ws[k] != [] && ws[k][0].timestamp == startTime
    {
      CursorOf(buffers, ws, current, offs, i);
      EmptyIsUnused(buffers, ws, current, offs, i);
      var event := buffers[i].events[current[i]];
      if event != None && event.value.timestamp > startTime {
        startTime := event.value.timestamp;
        assert ws[i] != [] && ws[i][0].timestamp == startTime;
      }
    }
    StartIs(ws, startTime);
  }

  lemma {:induction false} StartIs(ws: seq<seq<Event>>, start: nat)
    requires forall i :: 0 <= i < |ws| && ws[i] != [] ==> ws[i][0].timestamp <= start
    requires start == 0 || exists i :: 0 <= i < |ws| && ws[i] != [] && ws[i][0].timestamp == start
    ensures IsStart(ws, start)
  {
  }

  lemma {:induction false} EmptyIsUnused(buffers: seq<Buffer>, ws: seq<seq<Event>>, current: seq<nat>, offs: seq<nat>, i: nat)
    requires Positioned(buffers, ws, current, offs) && i < |buffers| && offs[i] == 0
    ensures current[i] < buffers[i].events.Length && (ws[i] == [] ==> buffers[i].events[current[i]] == None)
  {
    UnusedWhenEmpty(buffers[i], ws[i], current[i]);
  }

  /** A buffer with nothing to print has nothing in the slot either. */
  lemma {:induction false} UnusedWhenEmpty(b: Buffer, w: seq<Event>, index: nat)
    requires b.Valid() && b.Window() == w && b.At(index, 0)
    ensures index < b.events.Length && (w == [] ==> b.events[index] == None)
  {
    b.Cursor(index, 0);
    if w == [] { SlotOfSmall(0, b.size); }
  }

  // ---- The print ----

  /** What is kept of every window is still ahead of its cursor, and none of it is too early. */
  ghost predicate Skipped(ws: seq<seq<Event>>, offs: seq<nat>, start: nat, n: nat) {
    && n <= |ws| == |offs|
    && forall i :: 0 <= i < n ==>
         && offs[i] <= |ws[i]| && Kept(ws[i][offs[i]..], start) == Kept(ws[i], start)
         && (offs[i] < |ws[i]| ==> ws[i][offs[i]].timestamp >= start)
  }

  /** Passes over the events of one buffer that are before the starting time. */
  method SkipEarly(buffers: seq<Buffer>, i: nat, start: nat, from: seq<nat>, ghost ws: seq<seq<Event>>, ghost fromOffs: seq<nat>)
    returns (current: seq<nat>, ghost offs: seq<nat>)
    requires Positioned(buffers, ws, from, fromOffs) && i < |buffers| && fromOffs[i] == 0
    ensures Positioned(buffers, ws, current, offs) && |ws| == |offs|
    ensures offs == fromOffs[i := offs[i]]
    ensures offs[i] <= |ws[i]| && Kept(ws[i][offs[i]..], start) == Kept(ws[i], start)
    ensures offs[i] < |ws[i]| ==> ws[i][offs[i]].timestamp >= start
  {
    hide *;
    current, offs := from, fromOffs;
    PositionedParts(buffers, ws, current, offs);
    CursorOf(buffers, ws, current, offs, i);
    assert ws[i][0..] == ws[i];
    while buffers[i].events[current[i]] != None
          && buffers[i].events[current[i]].value.timestamp < start
          && current[i] != buffers[i].nextIndex
      invariant Positioned(buffers, ws, current, offs) && |ws| == |current| == |offs| == |buffers|
      invariant offs == fromOffs[i := offs[i]] && offs[i] <= |ws[i]|
      invariant current[i] < buffers[i].events.Length
      invariant offs[i] < |ws[i]| <==> current[i] != buffers[i].nextIndex
      invariant offs[i] < |ws[i]| ==> buffers[i].events[current[i]] == Some(ws[i][offs[i]])
      invariant Kept(ws[i][offs[i]..], start) == Kept(ws[i], start)
      decreases |ws[i]| - offs[i]
    {
      CursorOf(buffers, ws, current, offs, i);
      KeptSkip(ws[i][offs[i]..], start);
      assert ws[i][offs[i]..][1..] == ws[i][offs[i] + 1..];
      current, offs := current[i := Next(current[i], buffers[i].size)], offs[i := offs[i] + 1];
      CursorOf(buffers, ws, current, offs, i);
    }
  }

  /** The first of the buffers whose next event is the earliest, if one has an event before the largest
      time. */
  method Earliest(buffers: seq<Buffer>, current: seq<nat>, ghost ws: seq<seq<Event>>, ghost offs: seq<nat>)
    returns (found: Option<nat>)
    requires Positioned(buffers, ws, current, offs)
    ensures |ws| == |offs| == |buffers|
    ensures found == None ==> forall i :: 0 <= i < |ws| && offs[i] < |ws[i]| ==> ws[i][offs[i]].timestamp >= NEVER
    ensures found.Some? ==>
      var b := found.value;
      && b < |ws| && offs[b] < |ws[b]| && ws[b][offs[b]].timestamp < NEVER
      && (forall i :: 0 <= i < |ws| && offs[i] < |ws[i]| ==> ws[b][offs[b]].timestamp <= ws[i][offs[i]].timestamp)
      && (forall i :: 0 <= i < b && offs[i] < |ws[i]| ==> ws[b][offs[b]].timestamp < ws[i][offs[i]].timestamp)
  {
    hide *;
    PositionedParts(buffers, ws, current, offs);
    found := None;
    var earliestTime := NEVER;
    for i := 0 to |buffers|
      invariant found == None ==> earliestTime == NEVER
      invariant found.Some? ==>
        && found.value < i && offs[found.value] < |ws[found.value]|
        && ws[found.value][offs[found.value]].timestamp == earliestTime < NEVER
        && forall k :: 0 <= k < found.value && offs[k] < |ws[k]| ==> earliestTime < ws[k][offs[k]].timestamp
      invariant forall k :: 0 <= k < i && offs[k] < |ws[k]| ==> earliestTime <= ws[k][offs[k]].timestamp
    {
      CursorOf(buffers, ws, current, offs, i);
      var event := buffers[i].events[current[i]];
      if current[i] != buffers[i].nextIndex && event != None && event.value.timestamp < earliestTime {
        found, earliestTime := Some(i), event.value.timestamp;
      }
    }
  }

  /** Halfway through a print, buffer `i`: it has printed what is kept of its window up to the cursor,
      in order, and nothing ahead is earlier than what has been printed. */
  ghost predicate PrintingOne(w: seq<Event>, off: nat, i: nat, start: nat, printed: seq<Printed>) {
    && off <= |w| && Sorted(w)
    && PrintedFrom(printed, i) + Kept(w[off..], start) == Kept(w, start)
    && (forall k :: off <= k < |w| ==> start <= w[k].timestamp)
    && (printed != [] ==> forall k :: off <= k < |w| ==> printed[|printed| - 1].event.timestamp <= w[k].timestamp)
  }

  predicate FromBuffers(printed: seq<Printed>, n: nat) {
    forall k :: 0 <= k < |printed| ==> printed[k].buffer < n
  }

  ghost predicate Printing(ws: seq<seq<Event>>, offs: seq<nat>, start: nat, printed: seq<Printed>) {
    && |ws| == |offs| && SortedPrint(printed) && FromBuffers(printed, |ws|)
    && forall i :: 0 <= i < |ws| ==> PrintingOne(ws[i], offs[i], i, start, printed)
  }

  lemma {:induction false} PrintingStarts(ws: seq<seq<Event>>, offs: seq<nat>, start: nat)
    requires Skipped(ws, offs, start, |ws|) && forall i :: 0 <= i < |ws| ==> Sorted(ws[i])
    ensures Printing(ws, offs, start, [])
  {
    hide Kept;
  }

  lemma {:induction false} OneGoesOn(w: seq<Event>, off: nat, i: nat, start: nat, printed: seq<Printed>, p: Printed)
    requires PrintingOne(w, off, i, start, printed)
    requires if i == p.buffer then off < |w| && p.event == w[off] && w[off].timestamp < NEVER
             else off < |w| ==> p.event.timestamp <= w[off].timestamp
    ensures PrintingOne(w, if i == p.buffer then off + 1 else off, i, start, printed + [p])
  {
    PrintedMore(printed, p, i);
    if i == p.buffer { KeptFirst(w, off, start); }
    hide Kept, PrintedFrom;
    var more := printed + [p];
    assert more[|more| - 1] == p;
    forall k | off <= k < |w| ensures p.event.timestamp <= w[k].timestamp {
      assert off < k ==> w[off].timestamp <= w[k].timestamp;
    }
  }

  lemma {:induction false} SortedMore(printed: seq<Printed>, p: Printed)
    requires SortedPrint(printed) && (printed != [] ==> printed[|printed| - 1].event.timestamp <= p.event.timestamp)
    ensures SortedPrint(printed + [p])
  {
  }

  lemma {:induction false} PrintingGoesOn(ws: seq<seq<Event>>, offs: seq<nat>, start: nat, printed: seq<Printed>, b: nat)
    requires Printing(ws, offs, start, printed)
    requires b < |ws| && offs[b] < |ws[b]| && ws[b][offs[b]].timestamp < NEVER
    requires forall i :: 0 <= i < |ws| && offs[i] < |ws[i]| ==> ws[b][offs[b]].timestamp <= ws[i][offs[i]].timestamp
    ensures Printing(ws, offs[b := offs[b] + 1], start, printed + [Printed(b, ws[b][offs[b]])])
  {
    var p, next := Printed(b, ws[b][offs[b]]), offs[b := offs[b] + 1];
    assert PrintingOne(ws[b], offs[b], b, start, printed);
    SortedMore(printed, p);
    forall i | 0 <= i < |ws| ensures PrintingOne(ws[i], next[i], i, start, printed + [p]) {
      OneGoesOn(ws[i], offs[i], i, start, printed, p);
    }
    hide PrintingOne, SortedPrint;
  }

  lemma {:induction false} KeptFirst(w: seq<Event>, off: nat, start: nat)
    requires off < |w| && start <= w[off].timestamp < NEVER
    ensures Kept(w[off..], start) == [w[off]] + Kept(w[off + 1..], start)
  {
    assert w[off..][1..] == w[off + 1..];
  }

  lemma {:induction false} PrintingEnds(ws: seq<seq<Event>>, offs: seq<nat>, start: nat, printed: seq<Printed>)
    requires Printing(ws, offs, start, printed)
    requires forall i :: 0 <= i < |ws| && offs[i] < |ws[i]| ==> ws[i][offs[i]].timestamp >= NEVER
    ensures SortedPrint(printed) && FromBuffers(printed, |ws|)
    ensures forall i :: 0 <= i < |ws| ==> PrintedFrom(printed, i) == Kept(ws[i], start)
  {
    hide PrintedFrom, SortedPrint, FromBuffers;
    forall i | 0 <= i < |ws| ensures offs[i] <= |ws[i]| && Kept(ws[i][offs[i]..], start) == [] {
      assert PrintingOne(ws[i], offs[i], i, start, printed);
      KeptNone(ws[i][offs[i]..], start);
    }
  }

  /** Everything between the two passes over the counts of readers. */
  method PrintEvents(buffers: seq<Buffer>, ghost ws: seq<seq<Event>>)
    returns (printed: seq<Printed>, startTime: nat)
    requires HaveWindows(buffers, ws) && forall i :: 0 <= i < |ws| ==> Sorted(ws[i])
    ensures IsStart(ws, startTime) && SortedPrint(printed) && FromBuffers(printed, |ws|)
    ensures forall i :: 0 <= i < |ws| ==> PrintedFrom(printed, i) == Kept(ws[i], startTime)
  {
    hide *;
    ghost var offs: seq<nat>;
    var current: seq<nat>;
    current, offs := FirstIndices(buffers, ws);
    startTime := StartTime(buffers, current, ws, offs);
    PositionedParts(buffers, ws, current, offs);
    SkippedNone(ws, offs, startTime);
    for i := 0 to |buffers|
      invariant Positioned(buffers, ws, current, offs) && Skipped(ws, offs, startTime, i)
      invariant |offs| == |ws| && forall k :: i <= k < |ws| ==> offs[k] == 0
    {
      ghost var before := offs;
      current, offs := SkipEarly(buffers, i, startTime, current, ws, offs);
      SkippedMore(ws, before, offs, startTime, i);
    }
    printed := [];
    PrintingStarts(ws, offs, startTime);
    var found := Earliest(buffers, current, ws, offs);
    while found != None
      invariant Positioned(buffers, ws, current, offs) && Printing(ws, offs, startTime, printed)
      invariant |ws| == |offs| == |buffers|
      invariant found == None ==> forall i :: 0 <= i < |ws| && offs[i] < |ws[i]| ==> ws[i][offs[i]].timestamp >= NEVER
      invariant found.Some? ==>
        var b := found.value;
        && b < |ws| && offs[b] < |ws[b]| && ws[b][offs[b]].timestamp < NEVER
        && forall i :: 0 <= i < |ws| && offs[i] < |ws[i]| ==> ws[b][offs[b]].timestamp <= ws[i][offs[i]].timestamp
      decreases Left(ws, offs), if found == None then 0 else 1
    {
      var b := found.value;
      PositionedParts(buffers, ws, current, offs);
      CursorOf(buffers, ws, current, offs, b);
      PrintingGoesOn(ws, offs, startTime, printed, b);
      LeftLess(ws, offs, b);
      var event := buffers[b].events[current[b]].value;
      current, offs := current[b := Next(current[b], buffers[b].size)], offs[b := offs[b] + 1];
      printed := printed + [Printed(b, event)];
      found := Earliest(buffers, current, ws, offs);
    }
    PrintingEnds(ws, offs, startTime, printed);
  }

  lemma {:induction false} SkippedNone(ws: seq<seq<Event>>, offs: seq<nat>, start: nat)
    requires |ws| == |offs|
    ensures Skipped(ws, offs, start, 0)
  {
  }

  lemma {:induction false} SkippedMore(ws: seq<seq<Event>>, before: seq<nat>, offs: seq<nat>, start: nat, n: nat)
    requires Skipped(ws, before, start, n) && n < |ws| == |offs| && offs == before[n := offs[n]]
    requires offs[n] <= |ws[n]| && Kept(ws[n][offs[n]..], start) == Kept(ws[n], start)
    requires offs[n] < |ws[n]| ==> ws[n][offs[n]].timestamp >= start
    ensures Skipped(ws, offs, start, n + 1)
  {
    hide Kept;
  }

  /** The number of events ahead of the cursors. */
  ghost function Left(ws: seq<seq<Event>>, offs: seq<nat>): nat {
    if |ws| != |offs| || ws == [] then 0
    else (if offs[0] <= |ws[0]| then |ws[0]| - offs[0] else 0) + Left(ws[1..], offs[1..])
  }

  lemma {:induction false} LeftLess(ws: seq<seq<Event>>, offs: seq<nat>, b: nat)
    requires |ws| == |offs| && b < |ws| && offs[b] < |ws[b]|
    ensures Left(ws, offs[b := offs[b] + 1]) < Left(ws, offs)
  {
    var next := offs[b := offs[b] + 1];
    if b == 0 {
      assert next[1..] == offs[1..];
    } else {
      LeftLess(ws[1..], offs[1..], b - 1);
      assert next[1..] == offs[1..][b - 1 := offs[1..][b - 1] + 1];
    }
  }

  /** printInternal: the events of all windows from the starting time on and before the largest time,
      earliest first, those of one buffer in the order in which they were recorded. Counting a reader in leaves the count at zero,
      so no recording is held off. */
  method PrintInternal(buffers: seq<Buffer>, ghost ws: seq<seq<Event>>)
    returns (printed: seq<Printed>, startTime: nat)
    requires HaveWindows(buffers, ws) && forall i :: 0 <= i < |ws| ==> Sorted(ws[i])
    modifies buffers`activeReaders
    ensures IsStart(ws, startTime) && SortedPrint(printed) && FromBuffers(printed, |ws|)
    ensures forall i :: 0 <= i < |ws| ==> PrintedFrom(printed, i) == Kept(ws[i], startTime)
    ensures Times64(ws) ==> forall i :: 0 <= i < |ws| ==> PrintsBetween(ws[i], startTime, PrintedFrom(printed, i))
    ensures OrdinaryTimes(ws) ==> forall i :: 0 <= i < |ws| ==> PrintedFrom(printed, i) == NotBefore(ws[i], startTime)
    ensures HaveWindows(buffers, ws)
    ensures forall i :: 0 <= i < |buffers| && old(buffers[i].activeReaders) == 0 ==> buffers[i].activeReaders == 0
  {
    hide *;
    for i := 0 to |buffers|
      invariant forall k :: 0 <= k < |buffers| && old(buffers[k].activeReaders) == 0 ==> buffers[k].activeReaders == 0
      invariant HaveWindows(buffers, ws)
    {
      buffers[i].EnterReader();
    }
    printed, startTime := PrintEvents(buffers, ws);
    PrintIs(ws, startTime);
    for i := 0 to |buffers|
      invariant forall k :: 0 <= k < |buffers| && old(buffers[k].activeReaders) == 0 ==> buffers[k].activeReaders == 0
      invariant HaveWindows(buffers, ws)
    {
      buffers[i].LeaveReader();
    }
  }
}
