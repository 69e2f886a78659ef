/** A run in which each message is logged later than the one before, nothing fails and no thread ends,
    and whose file the ordered decoder nevertheless does not print in order. */
module PipelineLateRun {
  import opened Pipeline
  import opened PipelineInvariants
  import opened PipelineCounterexample
  import opened PipelineMarks
  import M = OrderedMerge
  import L = MergeLimits
  import O = MergeOrder

  function At(time: nat): Msg { Msg(0, time, 16, []) }

  /** What three threads have unread and have logged. */
  datatype Three = Three(a: seq<Msg>, b: seq<Msg>, c: seq<Msg>)

  const NOTHING := Three([], [], [])

  function Of(t: Three, i: nat): seq<Msg> { if i == 0 then t.a else if i == 1 then t.b else t.c }

  function With(t: Three, i: nat, msgs: seq<Msg>): Three {
    if i == 0 then t.(a := msgs) else if i == 1 then t.(b := msgs) else t.(c := msgs)
  }

  function Buffers(unread: Three): seq<Buffer> {
    [Buffer(1, unread.a, false), Buffer(2, unread.b, false), Buffer(3, unread.c, false)]
  }

  function Logged(all: Three): map<nat, seq<Msg>> { map[1 := all.a, 2 := all.b, 3 := all.c] }

  function With3(unread: Three, all: Three, o: Output, c: Control, wrap: bool, found: set<nat>): State {
    State(Threads(Buffers(unread), Logged(all), [SITE]), o, Catalog(1, [SITE]),
          Scan(c, 0, false, wrap, found, {}), Sync(SyncCompleted, map[], {}), false)
  }

  function Behind(i: nat): Control { if i == 2 then Scanned else Scanning(i + 1) }

  // ---- The parts of a pass ----

  /** An empty buffer. */
  lemma Visit(unread: Three, all: Three, o: Output, i: nat, wrap: bool, found: set<nat>)
    requires i < 3 && Of(unread, i) == []
    ensures Leads(With3(unread, all, o, Scanning(i), wrap, found), [Peek(0), DecideDelete],
                  With3(unread, all, o, Behind(i), wrap || i == 2, found + {i + 1}))
  {
    var s := With3(unread, all, o, Scanning(i), wrap, found);
    var p := Apply(s, Peek(0), THRESHOLD);
    assert p == With3(unread, all, o, CheckingDelete(i), wrap, found + {i + 1});
    assert (i + 1) % 3 == if i == 2 then 0 else i + 1;
    var t := Apply(p, DecideDelete, THRESHOLD);
    assert t == With3(unread, all, o, Behind(i), wrap || i == 2, found + {i + 1});
    assert Leads(p, [DecideDelete], t);
  }

  /** A buffer with one message. */
  lemma Take(unread: Three, all: Three, o: Output, i: nat, m: Msg, wrap: bool, found: set<nat>)
    requires i < 3 && Of(unread, i) == [m] && m.fmtId == 0 && m.size < THRESHOLD
    ensures Leads(With3(unread, all, o, Scanning(i), wrap, found), [Peek(1), Encode(1), Relock],
                  With3(With(unread, i, []), all, Emit(o, Extent(i + 1, wrap, [m])), Behind(i), i == 2, found))
  {
    var s := With3(unread, all, o, Scanning(i), wrap, found);
    var p := Apply(s, Peek(1), THRESHOLD);
    assert s.threads.bufs[i].unread[..1] == [m];
    assert p == With3(unread, all, o, Encoding(i, [m]), wrap, found);
    TakeOne(unread, all, o, i, m, wrap, found);
    var more := Emit(o, Extent(i + 1, wrap, [m]));
    var q := With3(With(unread, i, []), all, more, Relocking(i), false, found);
    assert (i + 1) % 3 == if i == 2 then 0 else i + 1;
    var t := Apply(q, Relock, THRESHOLD);
    assert t == With3(With(unread, i, []), all, more, Behind(i), i == 2, found);
    assert Leads(q, [Relock], t);
    assert Leads(p, [Encode(1), Relock], t);
  }

  lemma TakeOne(unread: Three, all: Three, o: Output, i: nat, m: Msg, wrap: bool, found: set<nat>)
    requires i < 3 && Of(unread, i) == [m] && m.fmtId == 0 && m.size < THRESHOLD
    ensures var p := With3(unread, all, o, Encoding(i, [m]), wrap, found);
            && Enabled(p, Encode(1), THRESHOLD)
            && Apply(p, Encode(1), THRESHOLD)
               == With3(With(unread, i, []), all, Emit(o, Extent(i + 1, wrap, [m])), Relocking(i), false, found)
  {
    var p := With3(unread, all, o, Encoding(i, [m]), wrap, found);
    assert [m][..1] == [m] && [m][..0] == [] && [m][1..] == [];
    assert Size([m]) == m.size + Size([]);
    var t := Apply(p, Encode(1), THRESHOLD);
    assert t.threads.bufs == Buffers(With(unread, i, []));
  }

  /** A thread logs. */
  lemma Write(unread: Three, all: Three, o: Output, c: Control, wrap: bool, found: set<nat>, i: nat, m: Msg)
    requires i < 3 && m.fmtId == 0
    ensures Leads(With3(unread, all, o, c, wrap, found), [Commit(i, m)],
                  With3(With(unread, i, Of(unread, i) + [m]), With(all, i, Of(all, i) + [m]), o, c, wrap, found))
  {
    var s := With3(unread, all, o, c, wrap, found);
    var t := Apply(s, Commit(i, m), THRESHOLD);
    assert t.threads.bufs == Buffers(With(unread, i, Of(unread, i) + [m]));
    assert t.threads.committed == Logged(With(all, i, Of(all, i) + [m]));
  }

  /** Between two passes, while a write is under way. */
  lemma Again(unread: Three, all: Three, o: Output, wrap: bool, found: set<nat>)
    requires o.outstanding
    ensures Leads(With3(unread, all, o, Scanned, wrap, found), [CheckEncoder, AioPending, BeginPass(0, true)],
                  With3(unread, all, o, Scanning(0), wrap, {}))
  {
    var s := With3(unread, all, o, Scanned, wrap, found);
    var p := Apply(s, CheckEncoder, THRESHOLD);
    assert p == With3(unread, all, o, CheckingAio, wrap, found);
    var q := Apply(p, AioPending, THRESHOLD);
    assert q == With3(unread, all, o, LoopTop, wrap, found);
    var t := Apply(q, BeginPass(0, true), THRESHOLD);
    assert [SITE] + [SITE][1..1] == [SITE];
    assert t == With3(unread, all, o, Scanning(0), wrap, {});
    assert Leads(q, [BeginPass(0, true)], t);
    assert Leads(p, [AioPending, BeginPass(0, true)], t);
  }

  // ---- The run ----

  const OPENED := Output([], [], false, HEADER)
  const WRITING := Output([], HEADER, true, [])
  const X2 := Extent(3, true, [At(2)])
  const X1 := Extent(1, true, [At(1)])
  const X10 := Extent(3, true, [At(10)])
  const X11 := Extent(1, true, [At(11)])
  const X5 := Extent(2, false, [At(5)])
  const O2 := Emit(WRITING, X2)
  const O1 := Emit(O2, X1)
  const O10 := Emit(O1, X10)
  const O11 := Emit(O10, X11)
  const O5 := Emit(O11, X5)
  const ALL := Three([At(1), At(11)], [At(5)], [At(2), At(10)])

  lemma Begin()
    ensures Leads(START, [Register(SITE), AddBuffer(1), AddBuffer(2), AddBuffer(3), BeginPass(1, true)],
                  With3(NOTHING, NOTHING, OPENED, Scanning(0), false, {}))
  {
    var c := BeginState();
    BeginFirst(c);
    BeginSecond(c);
    hide Leads, With3;
    assert [Register(SITE), AddBuffer(1), AddBuffer(2)] + [AddBuffer(3), BeginPass(1, true)]
           == [Register(SITE), AddBuffer(1), AddBuffer(2), AddBuffer(3), BeginPass(1, true)];
    LeadsAppend(START, [Register(SITE), AddBuffer(1), AddBuffer(2)], c, [AddBuffer(3), BeginPass(1, true)],
                With3(NOTHING, NOTHING, OPENED, Scanning(0), false, {}));
  }

  function BeginState(): State {
    START.(threads := Threads([Buffer(1, [], false), Buffer(2, [], false)], map[1 := [], 2 := []], [SITE]))
  }

  lemma BeginFirst(c: State)
    requires c == BeginState()
    ensures Leads(START, [Register(SITE), AddBuffer(1), AddBuffer(2)], c)
  {
    var a := Apply(START, Register(SITE), THRESHOLD);
    var b := Apply(a, AddBuffer(1), THRESHOLD);
    assert a.threads.sites == [SITE];
    assert Apply(b, AddBuffer(2), THRESHOLD).threads.bufs == c.threads.bufs;
    assert Apply(b, AddBuffer(2), THRESHOLD).threads.committed == c.threads.committed;
    assert Apply(b, AddBuffer(2), THRESHOLD) == c;
    assert Leads(b, [AddBuffer(2)], c);
    assert Leads(a, [AddBuffer(1), AddBuffer(2)], c);
  }

  lemma BeginSecond(c: State)
    requires c == BeginState()
    ensures Leads(c, [AddBuffer(3), BeginPass(1, true)], With3(NOTHING, NOTHING, OPENED, Scanning(0), false, {}))
  {
    var d := Apply(c, AddBuffer(3), THRESHOLD);
    assert d.threads.committed == Logged(NOTHING);
    assert d.threads.bufs == Buffers(NOTHING);
    assert [SITE][0..1] == [SITE] && [] + [SITE] == [SITE];
    var e := Apply(d, BeginPass(1, true), THRESHOLD);
    assert e == With3(NOTHING, NOTHING, OPENED, Scanning(0), false, {});
    assert Leads(d, [BeginPass(1, true)], e);
  }

  /** The header goes to the file system, and the next pass begins. */
  lemma Flush(found: set<nat>)
    ensures Leads(With3(NOTHING, NOTHING, OPENED, Scanned, true, found), [CheckEncoder, AioDone, StartAio, BeginPass(0, true)],
                  With3(NOTHING, NOTHING, WRITING, Scanning(0), true, {}))
  {
    var s := With3(NOTHING, NOTHING, OPENED, Scanned, true, found);
    var p := Apply(s, CheckEncoder, THRESHOLD);
    assert p == With3(NOTHING, NOTHING, OPENED, CheckingAio, true, found);
    var q := Apply(p, AioDone, THRESHOLD);
    var r := Apply(q, StartAio, THRESHOLD);
    assert r == With3(NOTHING, NOTHING, WRITING, LoopTop, true, found);
    var t := Apply(r, BeginPass(0, true), THRESHOLD);
    assert [SITE] + [SITE][1..1] == [SITE];
    assert t == With3(NOTHING, NOTHING, WRITING, Scanning(0), true, {});
    assert Leads(r, [BeginPass(0, true)], t);
    assert Leads(q, [StartAio, BeginPass(0, true)], t);
    assert Leads(p, [AioDone, StartAio, BeginPass(0, true)], t);
  }

  const ITEMS: seq<Item> := [Dictionary([SITE]), X2, X1, X10, X11, X5]
  const DONE := Output([Checkpoint] + ITEMS, [], false, [])

  /** Both writes complete, with one more pass between them. */
  lemma Finish(found: set<nat>)
    ensures Leads(With3(NOTHING, ALL, O5, Scanned, true, found), [CheckEncoder, AioDone, Notify, StartAio, BeginPass(0, true)],
                  With3(NOTHING, ALL, Output(HEADER, O5.encoder, true, []), Scanning(0), true, {}))
  {
    FinishFirst(found);
    FinishSecond(found);
    hide Leads, With3;
    assert [CheckEncoder, AioDone, Notify] + [StartAio, BeginPass(0, true)]
           == [CheckEncoder, AioDone, Notify, StartAio, BeginPass(0, true)];
    LeadsAppend(With3(NOTHING, ALL, O5, Scanned, true, found), [CheckEncoder, AioDone, Notify],
                With3(NOTHING, ALL, Output(HEADER, [], false, O5.encoder), StartingAio, true, found), [StartAio, BeginPass(0, true)],
                With3(NOTHING, ALL, Output(HEADER, O5.encoder, true, []), Scanning(0), true, {}));
  }

  lemma FinishFirst(found: set<nat>)
    ensures Leads(With3(NOTHING, ALL, O5, Scanned, true, found), [CheckEncoder, AioDone, Notify],
                  With3(NOTHING, ALL, Output(HEADER, [], false, O5.encoder), StartingAio, true, found))
  {
    var s := With3(NOTHING, ALL, O5, Scanned, true, found);
    var p := Apply(s, CheckEncoder, THRESHOLD);
    assert p == With3(NOTHING, ALL, O5, CheckingAio, true, found);
    var q := Apply(p, AioDone, THRESHOLD);
    assert [] + HEADER == HEADER;
    var r := Apply(q, Notify, THRESHOLD);
    assert r == With3(NOTHING, ALL, Output(HEADER, [], false, O5.encoder), StartingAio, true, found);
    assert Leads(q, [Notify], r);
    assert Leads(p, [AioDone, Notify], r);
  }

  lemma FinishSecond(found: set<nat>)
    ensures Leads(With3(NOTHING, ALL, Output(HEADER, [], false, O5.encoder), StartingAio, true, found), [StartAio, BeginPass(0, true)],
                  With3(NOTHING, ALL, Output(HEADER, O5.encoder, true, []), Scanning(0), true, {}))
  {
    var r := With3(NOTHING, ALL, Output(HEADER, [], false, O5.encoder), StartingAio, true, found);
    var u := Apply(r, StartAio, THRESHOLD);
    assert u == With3(NOTHING, ALL, Output(HEADER, O5.encoder, true, []), LoopTop, true, found);
    var t := Apply(u, BeginPass(0, true), THRESHOLD);
    assert [SITE] + [SITE][1..1] == [SITE];
    assert t == With3(NOTHING, ALL, Output(HEADER, O5.encoder, true, []), Scanning(0), true, {});
    assert Leads(u, [BeginPass(0, true)], t);
  }

  lemma Last(found: set<nat>)
    ensures Leads(With3(NOTHING, ALL, Output(HEADER, O5.encoder, true, []), Scanned, true, found), [CheckEncoder, AioDone],
                  With3(NOTHING, ALL, DONE, Notifying, true, found))
  {
    var s := With3(NOTHING, ALL, Output(HEADER, O5.encoder, true, []), Scanned, true, found);
    var p := Apply(s, CheckEncoder, THRESHOLD);
    assert p == With3(NOTHING, ALL, Output(HEADER, O5.encoder, true, []), CheckingAio, true, found);
    var t := Apply(p, AioDone, THRESHOLD);
    assert O5.encoder == [X2, X1, X10, X11, X5];
    assert HEADER + O5.encoder == [Checkpoint] + ITEMS;
    assert Leads(p, [AioDone], t);
  }

  // ---- Putting it together ----

  /** The times of the messages in the order in which they are logged. */
  function Times(acts: seq<Action>): seq<nat> {
    if acts == [] then [] else (if acts[0].Commit? then [acts[0].msg.timestamp] else []) + Times(acts[1..])
  }

  lemma {:induction false} TimesAppend(xs: seq<Action>, ys: seq<Action>)
    ensures Times(xs + ys) == Times(xs) + Times(ys)
  {
    if xs == [] {
      assert xs + ys == ys;
    } else {
      assert (xs + ys)[0] == xs[0] && (xs + ys)[1..] == xs[1..] + ys;
      TimesAppend(xs[1..], ys);
    }
  }

  lemma {:induction false} NoTimes(acts: seq<Action>)
    requires forall i :: 0 <= i < |acts| ==> !acts[i].Commit?
    ensures Times(acts) == []
  {
    if acts != [] { NoTimes(acts[1..]); }
  }

  /** No thread ends, and no message fails to fit. */
  predicate Plain(acts: seq<Action>) {
    forall i :: 0 <= i < |acts| ==> !acts[i].Die? && !acts[i].EncodeNothing? && !acts[i].Relaunch?
  }

  ghost predicate Part(s: State, acts: seq<Action>, t: State, times: seq<nat>) {
    Leads(s, acts, t) && Times(acts) == times && Plain(acts)
  }

  lemma Join(s: State, xs: seq<Action>, t: State, ys: seq<Action>, u: State, a: seq<nat>, b: seq<nat>)
    requires Part(s, xs, t, a) && Part(t, ys, u, b)
    ensures Part(s, xs + ys, u, a + b)
  {
    LeadsAppend(s, xs, t, ys, u);
    TimesAppend(xs, ys);
    hide Leads;
  }

  /** The same when at most one of the two parts has somebody log. */
  lemma JoinQuiet(s: State, xs: seq<Action>, t: State, ys: seq<Action>, u: State, a: seq<nat>)
    requires (Part(s, xs, t, a) && Part(t, ys, u, [])) || (Part(s, xs, t, []) && Part(t, ys, u, a))
    ensures Part(s, xs + ys, u, a)
  {
    assert a + [] == a && [] + a == a;
    if Part(s, xs, t, a) && Part(t, ys, u, []) {
      Join(s, xs, t, ys, u, a, []);
    } else {
      Join(s, xs, t, ys, u, [], a);
    }
  }

  lemma Silent(s: State, acts: seq<Action>, t: State)
    requires Leads(s, acts, t) && Plain(acts) && forall i :: 0 <= i < |acts| ==> !acts[i].Commit?
    ensures Part(s, acts, t, [])
  {
    NoTimes(acts);
    hide Leads;
  }

  lemma Spoken(s: State, i: nat, m: Msg, t: State)
    requires Leads(s, [Commit(i, m)], t)
    ensures Part(s, [Commit(i, m)], t, [m.timestamp])
  {
    hide Leads;
    var acts := [Commit(i, m)];
    assert acts[1..] == [] && Times([]) == [];
    assert Times(acts) == [m.timestamp] + Times(acts[1..]);
  }

  const VISIT: seq<Action> := [Peek(0), DecideDelete]
  const TAKE: seq<Action> := [Peek(1), Encode(1), Relock]
  const AGAIN: seq<Action> := [CheckEncoder, AioPending, BeginPass(0, true)]

  /** Two empty buffers. */
  lemma VisitTwo(unread: Three, all: Three, o: Output, i: nat, wrap: bool, found: set<nat>)
    requires i < 2 && Of(unread, i) == [] && Of(unread, i + 1) == []
    ensures Part(With3(unread, all, o, Scanning(i), wrap, found), VISIT + VISIT,
                 With3(unread, all, o, Behind(i + 1), wrap || i == 1, found + {i + 1} + {i + 2}), [])
  {
    Visit(unread, all, o, i, wrap, found);
    Visit(unread, all, o, i + 1, wrap, found + {i + 1});
    hide Leads, With3;
    var s, t := With3(unread, all, o, Scanning(i), wrap, found), With3(unread, all, o, Scanning(i + 1), wrap, found + {i + 1});
    var u := With3(unread, all, o, Behind(i + 1), wrap || i == 1, found + {i + 1} + {i + 2});
    Silent(s, VISIT, t);
    Silent(t, VISIT, u);
    Join(s, VISIT, t, VISIT, u, [], []);
  }

  lemma VisitOne(unread: Three, all: Three, o: Output, i: nat, wrap: bool, found: set<nat>)
    requires i < 3 && Of(unread, i) == []
    ensures Part(With3(unread, all, o, Scanning(i), wrap, found), VISIT,
                 With3(unread, all, o, Behind(i), wrap || i == 2, found + {i + 1}), [])
  {
    Visit(unread, all, o, i, wrap, found);
    hide Leads, With3;
    Silent(With3(unread, all, o, Scanning(i), wrap, found), VISIT,
           With3(unread, all, o, Behind(i), wrap || i == 2, found + {i + 1}));
  }

  lemma TakePart(unread: Three, all: Three, o: Output, i: nat, m: Msg, wrap: bool, found: set<nat>)
    requires i < 3 && Of(unread, i) == [m] && m.fmtId == 0 && m.size < THRESHOLD
    ensures Part(With3(unread, all, o, Scanning(i), wrap, found), TAKE,
                 With3(With(unread, i, []), all, Emit(o, Extent(i + 1, wrap, [m])), Behind(i), i == 2, found), [])
  {
    Take(unread, all, o, i, m, wrap, found);
    hide Leads, With3, Emit;
    Silent(With3(unread, all, o, Scanning(i), wrap, found), TAKE,
           With3(With(unread, i, []), all, Emit(o, Extent(i + 1, wrap, [m])), Behind(i), i == 2, found));
  }

  lemma WritePart(unread: Three, all: Three, o: Output, c: Control, wrap: bool, found: set<nat>, i: nat, time: nat)
    requires i < 3
    ensures Part(With3(unread, all, o, c, wrap, found), [Commit(i, At(time))],
                 With3(With(unread, i, Of(unread, i) + [At(time)]), With(all, i, Of(all, i) + [At(time)]), o, c, wrap, found),
                 [time])
  {
    Write(unread, all, o, c, wrap, found, i, At(time));
    hide Leads, With3;
    Spoken(With3(unread, all, o, c, wrap, found), i, At(time),
           With3(With(unread, i, Of(unread, i) + [At(time)]), With(all, i, Of(all, i) + [At(time)]), o, c, wrap, found));
  }

  lemma AgainPart(unread: Three, all: Three, o: Output, wrap: bool, found: set<nat>)
    requires o.outstanding
    ensures Part(With3(unread, all, o, Scanned, wrap, found), AGAIN, With3(unread, all, o, Scanning(0), wrap, {}), [])
  {
    Again(unread, all, o, wrap, found);
    hide Leads, With3;
    Silent(With3(unread, all, o, Scanned, wrap, found), AGAIN, With3(unread, all, o, Scanning(0), wrap, {}));
  }

  lemma EmptyPart(all: Three, o: Output, wrap: bool)
    ensures Part(With3(NOTHING, all, o, Scanning(0), wrap, {}), VISIT + VISIT + VISIT,
                 With3(NOTHING, all, o, Scanned, true, {} + {1} + {2} + {3}), [])
  {
    VisitTwo(NOTHING, all, o, 0, wrap, {});
    VisitOne(NOTHING, all, o, 2, wrap, {} + {1} + {2});
    hide Leads, With3;
    Join(With3(NOTHING, all, o, Scanning(0), wrap, {}), VISIT + VISIT,
         With3(NOTHING, all, o, Scanning(2), wrap, {} + {1} + {2}), VISIT,
         With3(NOTHING, all, o, Scanned, true, {} + {1} + {2} + {3}), [], []);
  }

  // What the threads have logged when the rounds end.
  const ALL2 := Three([At(1)], [], [At(2)])
  const ALL4 := Three([At(1)], [At(5)], [At(2), At(10)])

  const ROUND2: seq<Action> := VISIT + VISIT + [Commit(0, At(1))] + [Commit(2, At(2))] + TAKE + AGAIN
  const ROUND3: seq<Action> := TAKE + (VISIT + VISIT) + AGAIN
  const ROUND4: seq<Action> := VISIT + VISIT + [Commit(1, At(5))] + [Commit(2, At(10))] + TAKE + AGAIN
  const ROUND5: seq<Action> := [Commit(0, At(11))] + TAKE + TAKE + VISIT

  /** Two buffers are empty, two threads log, and the third buffer's message is taken. */
  lemma LateRound(all: Three, o: Output, i: nat, x: nat, y: nat)
    requires o.outstanding && i < 2
    ensures var unread, more := With(NOTHING, i, [At(x)]), With(With(all, i, Of(all, i) + [At(x)]), 2, all.c + [At(y)]);
            Part(With3(NOTHING, all, o, Scanning(0), true, {}),
                 VISIT + VISIT + [Commit(i, At(x))] + [Commit(2, At(y))] + TAKE + AGAIN,
                 With3(unread, more, Emit(o, Extent(3, true, [At(y)])), Scanning(0), true, {}), [x, y])
  {
    hide Leads, With3, Part, VISIT, TAKE, AGAIN;
    var unread, mid := With(NOTHING, i, [At(x)]), With(all, i, Of(all, i) + [At(x)]);
    var more := With(mid, 2, all.c + [At(y)]);
    var found: set<nat> := {} + {1} + {2};
    var start := With3(NOTHING, all, o, Scanning(0), true, {});
    var s1 := With3(NOTHING, all, o, Scanning(2), true, found);
    VisitTwo(NOTHING, all, o, 0, true, {});
    var s2 := With3(unread, mid, o, Scanning(2), true, found);
    assert [] + [At(x)] == [At(x)] && [] + [At(y)] == [At(y)];
    WritePart(NOTHING, all, o, Scanning(2), true, found, i, x);
    var s3 := With3(With(unread, 2, [At(y)]), more, o, Scanning(2), true, found);
    WritePart(unread, mid, o, Scanning(2), true, found, 2, y);
    var out := Emit(o, Extent(3, true, [At(y)]));
    var s4 := With3(unread, more, out, Scanned, true, found);
    TakePart(With(unread, 2, [At(y)]), more, o, 2, At(y), true, found);
    assert With(With(unread, 2, [At(y)]), 2, []) == unread;
    AgainPart(unread, more, out, true, found);
    var s5 := With3(unread, more, out, Scanning(0), true, {});
    assert Part(s3, TAKE, s4, []);
    hide *;
    var p1 := VISIT + VISIT;
    var p2 := p1 + [Commit(i, At(x))];
    var p3 := p2 + [Commit(2, At(y))];
    var p4 := p3 + TAKE;
    JoinQuiet(start, p1, s1, [Commit(i, At(x))], s2, [x]);
    Join(start, p2, s2, [Commit(2, At(y))], s3, [x], [y]);
    assert [x] + [y] == [x, y];
    JoinQuiet(start, p3, s3, TAKE, s4, [x, y]);
    JoinQuiet(start, p4, s4, AGAIN, s5, [x, y]);
  }

  /** The first buffer's message is taken, and the others are empty. */
  lemma ThirdRound()
    ensures Part(With3(Three([At(1)], [], []), ALL2, O2, Scanning(0), true, {}), ROUND3,
                 With3(NOTHING, ALL2, O1, Scanning(0), true, {}), [])
  {
    hide Leads, With3, Part, VISIT, TAKE, AGAIN;
    var start := With3(Three([At(1)], [], []), ALL2, O2, Scanning(0), true, {});
    var s1 := With3(NOTHING, ALL2, O1, Scanning(1), false, {});
    TakePart(Three([At(1)], [], []), ALL2, O2, 0, At(1), true, {});
    var s2 := With3(NOTHING, ALL2, O1, Scanned, true, {} + {2} + {3});
    VisitTwo(NOTHING, ALL2, O1, 1, false, {});
    AgainPart(NOTHING, ALL2, O1, true, {} + {2} + {3});
    assert Part(start, TAKE, s1, []);
    hide *;
    var p1 := TAKE + (VISIT + VISIT);
    JoinQuiet(start, TAKE, s1, VISIT + VISIT, s2, []);
    JoinQuiet(start, p1, s2, AGAIN, With3(NOTHING, ALL2, O1, Scanning(0), true, {}), []);
    RoundsAre();
  }

  /** Two messages are taken, the second of which was logged before the one of the last round. */
  lemma FifthRound()
    ensures Part(With3(Three([], [At(5)], []), ALL4, O10, Scanning(0), true, {}), ROUND5,
                 With3(NOTHING, ALL, O5, Scanned, true, {} + {3}), [11])
  {
    hide Leads, With3, Part, VISIT, TAKE, AGAIN;
    var start := With3(Three([], [At(5)], []), ALL4, O10, Scanning(0), true, {});
    var s1 := With3(Three([At(11)], [At(5)], []), ALL, O10, Scanning(0), true, {});
    assert [] + [At(11)] == [At(11)] && [At(1)] + [At(11)] == [At(1), At(11)];
    WritePart(Three([], [At(5)], []), ALL4, O10, Scanning(0), true, {}, 0, 11);
    var s2 := With3(Three([], [At(5)], []), ALL, O11, Scanning(1), false, {});
    TakePart(Three([At(11)], [At(5)], []), ALL, O10, 0, At(11), true, {});
    var s3 := With3(NOTHING, ALL, O5, Scanning(2), false, {});
    TakePart(Three([], [At(5)], []), ALL, O11, 1, At(5), false, {});
    VisitOne(NOTHING, ALL, O5, 2, false, {});
    assert Part(start, [Commit(0, At(11))], s1, [11]) && Part(s1, TAKE, s2, []) && Part(s2, TAKE, s3, []);
    hide *;
    var p1 := [Commit(0, At(11))] + TAKE;
    var p2 := p1 + TAKE;
    JoinQuiet(start, [Commit(0, At(11))], s1, TAKE, s2, [11]);
    JoinQuiet(start, p1, s2, TAKE, s3, [11]);
    JoinQuiet(start, p2, s3, VISIT, With3(NOTHING, ALL, O5, Scanned, true, {} + {3}), [11]);
    RoundsAre();
  }

  lemma RoundsAre()
    ensures ROUND3 == TAKE + (VISIT + VISIT) + AGAIN && ROUND5 == [Commit(0, At(11))] + TAKE + TAKE + VISIT
    ensures ROUND2 == VISIT + VISIT + [Commit(0, At(1))] + [Commit(2, At(2))] + TAKE + AGAIN
    ensures ROUND4 == VISIT + VISIT + [Commit(1, At(5))] + [Commit(2, At(10))] + TAKE + AGAIN
  {
  }

  const OPEN: seq<Action> := [Register(SITE), AddBuffer(1), AddBuffer(2), AddBuffer(3), BeginPass(1, true)]
  const FLUSH: seq<Action> := [CheckEncoder, AioDone, StartAio, BeginPass(0, true)]
  const FINISH: seq<Action> := [CheckEncoder, AioDone, Notify, StartAio, BeginPass(0, true)]
  const LAST: seq<Action> := [CheckEncoder, AioDone]
  const FIRST_HALF: seq<Action> := OPEN + (VISIT + VISIT + VISIT) + FLUSH + ROUND2 + ROUND3
  const SECOND_HALF: seq<Action> := ROUND4 + ROUND5 + FINISH + (VISIT + VISIT + VISIT) + LAST

  const HALFWAY := With3(NOTHING, ALL2, O1, Scanning(0), true, {})
  const FINAL := With3(NOTHING, ALL, DONE, Notifying, true, {} + {1} + {2} + {3})

  lemma FirstHalf()
    ensures Part(START, FIRST_HALF, HALFWAY, [1, 2])
  {
    hide Leads, With3, Part, VISIT, TAKE, AGAIN, Plain;
    var s1, s2 := With3(NOTHING, NOTHING, OPENED, Scanning(0), false, {}),
                  With3(NOTHING, NOTHING, OPENED, Scanned, true, {} + {1} + {2} + {3});
    var s3 := With3(NOTHING, NOTHING, WRITING, Scanning(0), true, {});
    var s4 := With3(Three([At(1)], [], []), ALL2, O2, Scanning(0), true, {});
    Begin();
    EmptyPart(NOTHING, OPENED, false);
    Flush({} + {1} + {2} + {3});
    assert [] + [At(1)] == [At(1)] && [] + [At(2)] == [At(2)];
    LateRound(NOTHING, WRITING, 0, 1, 2);
    ThirdRound();
    RoundsAre();
    SilentOnes();
    assert Part(s3, ROUND2, s4, [1, 2]);
    hide *;
    Silent(START, OPEN, s1);
    Silent(s2, FLUSH, s3);
    var p1 := OPEN + (VISIT + VISIT + VISIT);
    var p2 := p1 + FLUSH;
    var p3 := p2 + ROUND2;
    JoinQuiet(START, OPEN, s1, VISIT + VISIT + VISIT, s2, []);
    JoinQuiet(START, p1, s2, FLUSH, s3, []);
    JoinQuiet(START, p2, s3, ROUND2, s4, [1, 2]);
    JoinQuiet(START, p3, s4, ROUND3, HALFWAY, [1, 2]);
    HalvesAre();
  }

  lemma SilentOnes()
    ensures Plain(OPEN) && forall i :: 0 <= i < |OPEN| ==> !OPEN[i].Commit?
    ensures Plain(FLUSH) && forall i :: 0 <= i < |FLUSH| ==> !FLUSH[i].Commit?
    ensures Plain(FINISH) && forall i :: 0 <= i < |FINISH| ==> !FINISH[i].Commit?
    ensures Plain(LAST) && forall i :: 0 <= i < |LAST| ==> !LAST[i].Commit?
  {
  }

  lemma HalvesAre()
    ensures FIRST_HALF == OPEN + (VISIT + VISIT + VISIT) + FLUSH + ROUND2 + ROUND3
    ensures SECOND_HALF == ROUND4 + ROUND5 + FINISH + (VISIT + VISIT + VISIT) + LAST
    ensures HALFWAY == With3(NOTHING, ALL2, O1, Scanning(0), true, {})
    ensures FINAL == With3(NOTHING, ALL, DONE, Notifying, true, {} + {1} + {2} + {3})
  {
    hide With3, ROUND2, ROUND3, ROUND4, ROUND5;
  }

  lemma SecondHalf()
    ensures Part(HALFWAY, SECOND_HALF, FINAL, [5, 10, 11])
  {
    hide Leads, With3, Part, VISIT, TAKE, AGAIN, Plain;
    var s1, s2 := With3(Three([], [At(5)], []), ALL4, O10, Scanning(0), true, {}), With3(NOTHING, ALL, O5, Scanned, true, {} + {3});
    var written := Output(HEADER, O5.encoder, true, []);
    var s3, s4 := With3(NOTHING, ALL, written, Scanning(0), true, {}), With3(NOTHING, ALL, written, Scanned, true, {} + {1} + {2} + {3});
    assert [] + [At(5)] == [At(5)] && [At(2)] + [At(10)] == [At(2), At(10)];
    LateRound(ALL2, O1, 1, 5, 10);
    FifthRound();
    Finish({} + {3});
    EmptyPart(ALL, written, true);
    Last({} + {1} + {2} + {3});
    RoundsAre();
    SilentOnes();
    assert Part(HALFWAY, ROUND4, s1, [5, 10]);
    hide *;
    HalvesAre();
    Silent(s2, FINISH, s3);
    Silent(s4, LAST, FINAL);
    var p1 := ROUND4 + ROUND5;
    var p2 := p1 + FINISH;
    var p3 := p2 + (VISIT + VISIT + VISIT);
    Join(HALFWAY, ROUND4, s1, ROUND5, s2, [5, 10], [11]);
    assert [5, 10] + [11] == [5, 10, 11];
    JoinQuiet(HALFWAY, p1, s2, FINISH, s3, [5, 10, 11]);
    JoinQuiet(HALFWAY, p2, s3, VISIT + VISIT + VISIT, s4, [5, 10, 11]);
    JoinQuiet(HALFWAY, p3, s4, LAST, FINAL, [5, 10, 11]);
  }

  lemma LogIsLate()
    ensures MergeLog(ITEMS) == L.LATE
  {
    assert forall i :: 0 <= i < 6 ==> MergeLog(ITEMS)[i] == L.LATE[i];
  }

  /** The messages are logged at the times 1, 2, 5, 10 and 11; no thread ends and every message fits.
      What a new decoder prints of the file is not in order. */
  lemma LateRunFails(front: M.Front)
    requires M.IsFront(front)
    ensures Init(START) && Leads(START, FIRST_HALF + SECOND_HALF, FINAL) && Plain(FIRST_HALF + SECOND_HALF)
    ensures Times(FIRST_HALF + SECOND_HALF) == [1, 2, 5, 10, 11]
    ensures FINAL.output.file == [Checkpoint] + ITEMS
    ensures !O.InOrder(M.Decompress(MergeLog(ITEMS), [], front))
  {
    hide *;
    StartIs();
    FirstHalf();
    SecondHalf();
    LogIsLate();
    L.ThreeStageWindowFails(front);
    Join(START, FIRST_HALF, HALFWAY, SECOND_HALF, FINAL, [1, 2], [5, 10, 11]);
    assert [1, 2] + [5, 10, 11] == [1, 2, 5, 10, 11];
    PartIs(START, FIRST_HALF + SECOND_HALF, FINAL, [1, 2, 5, 10, 11]);
  }

  lemma PartIs(s: State, acts: seq<Action>, t: State, times: seq<nat>)
    requires Part(s, acts, t, times)
    ensures Leads(s, acts, t) && Times(acts) == times && Plain(acts)
  {
    hide Leads, Plain;
  }

  lemma StartIs()
    ensures Init(START) && FINAL.output.file == [Checkpoint] + ITEMS
  {
  }
}
