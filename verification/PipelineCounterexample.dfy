/** sync() returns although a message logged before it is still in its staging buffer: the second
    pass starts at the buffer of a thread that has ended, deletes it and stops there. */
module PipelineCounterexample {
  import opened Pipeline
  import opened PipelineInvariants

  // The release threshold of these runs.
  const THRESHOLD: nat := 512

  ghost predicate Leads(s: State, acts: seq<Action>, t: State)
    decreases |acts|
  {
    if acts == [] then s == t
    else Enabled(s, acts[0], THRESHOLD) && Leads(Apply(s, acts[0], THRESHOLD), acts[1..], t)
  }

  lemma {:induction false} LeadsAppend(s: State, xs: seq<Action>, t: State, ys: seq<Action>, u: State)
    requires Leads(s, xs, t) && Leads(t, ys, u)
    ensures Leads(s, xs + ys, u)
    decreases |xs|
  {
    hide Enabled, Apply;
    if xs == [] {
      assert xs + ys == ys;
    } else {
      assert (xs + ys)[1..] == xs[1..] + ys;
      LeadsAppend(Apply(s, xs[0], THRESHOLD), xs[1..], t, ys, u);
    }
  }

  const SITE := Site("server.cc", 7, 3, "ready")
  const LOST := Msg(0, 100, 16, [])
  const HEADER: seq<Item> := [Checkpoint, Dictionary([SITE])]

  function Idle(bufs: seq<Buffer>, committed: map<nat, seq<Msg>>, o: Output, c: Control, wrap: bool,
                found: set<nat>, missed: set<nat>, y: Sync): State
  {
    State(Threads(bufs, committed, [SITE]), o, Catalog(1, [SITE]), Scan(c, 0, false, wrap, found, missed), y, false)
  }

  const START := State(Threads([], map[], []), Output([], [], false, [Checkpoint]), Catalog(0, []),
                       Scan(LoopTop, 0, false, false, {}, {}), Sync(SyncCompleted, map[], {}), false)
  const TWO: seq<Buffer> := [Buffer(1, [], false), Buffer(2, [], false)]
  const NONE: map<nat, seq<Msg>> := map[1 := [], 2 := []]
  const NOSYNC := Sync(SyncCompleted, map[], {})
  const FRESH := Output([], [], false, HEADER)
  const SENT := Output([], HEADER, true, [])
  const ASKED := Sync(SyncRequested, map[1 := 0, 2 := 1], {})
  const LEFT: seq<Buffer> := [Buffer(1, [], true), Buffer(2, [LOST], false)]
  const LOGGED: map<nat, seq<Msg>> := map[1 := [], 2 := [LOST]]

  const S1 := Idle(TWO, NONE, FRESH, Scanning(0), false, {}, {}, NOSYNC)
  const S2 := Idle(TWO, NONE, FRESH, Scanned, true, {1, 2}, {}, NOSYNC)
  const S3 := Idle(TWO, NONE, SENT, LoopTop, true, {1, 2}, {}, NOSYNC)
  const S4 := Idle(TWO, NONE, SENT, Scanned, true, {1, 2}, {}, NOSYNC)
  const S5 := Idle(LEFT, LOGGED, SENT, Scanned, true, {1, 2}, {}, ASKED)
  const S6 := Idle(LEFT, LOGGED, SENT, CheckingDelete(0), true, {1}, {}, ASKED.(status := PerformingSecondPass))
  const S7 := Idle([Buffer(2, [LOST], false)], LOGGED, SENT, CheckingAio, true, {1}, {2},
                   ASKED.(status := WaitingOnAio, missed := {2}))
  const END := Idle([Buffer(2, [LOST], false)], LOGGED, Output(HEADER, [], false, []), StartingAio, true, {1}, {2},
                    ASKED.(status := SyncCompleted, missed := {2}))

  const PASS: seq<Action> := [Peek(0), DecideDelete, Peek(0), DecideDelete]

  lemma Setup()
    ensures Leads(START, [Register(SITE), AddBuffer(1), AddBuffer(2), BeginPass(1, true)], S1)
  {
    var a := Apply(START, Register(SITE), THRESHOLD);
    var b := Apply(a, AddBuffer(1), THRESHOLD);
    var c := Apply(b, AddBuffer(2), THRESHOLD);
    assert c.threads.committed == NONE;
    assert c.threads.sites == [SITE] && [SITE][0..1] == [SITE];
    assert c.threads.bufs == TWO;
    assert Apply(c, BeginPass(1, true), THRESHOLD) == S1;
    assert Leads(c, [BeginPass(1, true)], S1);
    assert Leads(b, [AddBuffer(2), BeginPass(1, true)], S1);
    assert Leads(a, [AddBuffer(1), AddBuffer(2), BeginPass(1, true)], S1);
  }

  lemma EmptyPass(o: Output)
    ensures Leads(Idle(TWO, NONE, o, Scanning(0), false, {}, {}, NOSYNC), PASS,
                  Idle(TWO, NONE, o, Scanned, true, {1, 2}, {}, NOSYNC))
    ensures Leads(Idle(TWO, NONE, o, Scanning(0), true, {}, {}, NOSYNC), PASS,
                  Idle(TWO, NONE, o, Scanned, true, {1, 2}, {}, NOSYNC))
  {
    HalfPass(o, false);
    HalfPass(o, true);
  }

  lemma HalfPass(o: Output, wrap: bool)
    ensures Leads(Idle(TWO, NONE, o, Scanning(0), wrap, {}, {}, NOSYNC), PASS,
                  Idle(TWO, NONE, o, Scanned, true, {1, 2}, {}, NOSYNC))
  {
    var s := Idle(TWO, NONE, o, Scanning(0), wrap, {}, {}, NOSYNC);
    var a := Apply(s, Peek(0), THRESHOLD);
    var b := Apply(a, DecideDelete, THRESHOLD);
    assert b == Idle(TWO, NONE, o, Scanning(1), wrap, {1}, {}, NOSYNC);
    var c := Apply(b, Peek(0), THRESHOLD);
    var d := Apply(c, DecideDelete, THRESHOLD);
    assert d == Idle(TWO, NONE, o, Scanned, true, {1, 2}, {}, NOSYNC);
    assert Leads(c, [DecideDelete], d);
    assert Leads(b, [Peek(0), DecideDelete], d);
    assert Leads(a, [DecideDelete, Peek(0), DecideDelete], d);
  }

  lemma FlushHeader()
    ensures Leads(S2, [CheckEncoder, AioDone, StartAio], S3)
  {
    var a := Apply(S2, CheckEncoder, THRESHOLD);
    var b := Apply(a, AioDone, THRESHOLD);
    assert Apply(b, StartAio, THRESHOLD) == S3;
    assert Leads(b, [StartAio], S3);
    assert Leads(a, [AioDone, StartAio], S3);
  }

  lemma SecondScan()
    ensures Leads(S3, [BeginPass(0, true)] + PASS, S4)
  {
    EmptyPass(SENT);
    var a := Apply(S3, BeginPass(0, true), THRESHOLD);
    assert a == Idle(TWO, NONE, SENT, Scanning(0), true, {}, {}, NOSYNC);
    assert ([BeginPass(0, true)] + PASS)[1..] == PASS;
  }

  lemma LogAndAsk()
    ensures Leads(S4, [Commit(1, LOST), Die(0), RequestSync], S5)
  {
    var a := Apply(S4, Commit(1, LOST), THRESHOLD);
    assert [] + [LOST] == [LOST];
    assert a.threads.committed == LOGGED;
    assert a.threads.bufs == [Buffer(1, [], false), Buffer(2, [LOST], false)];
    var b := Apply(a, Die(0), THRESHOLD);
    assert b.threads.bufs == LEFT;
    assert Apply(b, RequestSync, THRESHOLD) == S5;
    assert Leads(b, [RequestSync], S5);
    assert Leads(a, [Die(0), RequestSync], S5);
  }

  lemma StartSecondPass()
    ensures Leads(S5, [CheckEncoder, BeginPass(0, true), Peek(0)], S6)
  {
    var a := Apply(S5, CheckEncoder, THRESHOLD);
    var b := Apply(a, BeginPass(0, true), THRESHOLD);
    assert Apply(b, Peek(0), THRESHOLD) == S6;
    assert Leads(b, [Peek(0)], S6);
    assert Leads(a, [BeginPass(0, true), Peek(0)], S6);
  }

  lemma Skip()
    ensures Leads(S6, [DecideDelete, CheckEncoder], S7)
  {
    var a := Apply(S6, DecideDelete, THRESHOLD);
    assert a.threads.bufs == [Buffer(2, [LOST], false)];
    assert Apply(a, CheckEncoder, THRESHOLD) == S7;
    assert Leads(a, [CheckEncoder], S7);
  }

  lemma Complete()
    ensures Leads(S7, [AioDone, Notify], END)
  {
    var a := Apply(S7, AioDone, THRESHOLD);
    assert Apply(a, Notify, THRESHOLD) == END;
    assert Leads(a, [Notify], END);
  }

  const BEFORE: seq<Action> :=
    [Register(SITE), AddBuffer(1), AddBuffer(2), BeginPass(1, true)] + PASS
    + [CheckEncoder, AioDone, StartAio] + ([BeginPass(0, true)] + PASS) + [Commit(1, LOST), Die(0)]
  const AFTER: seq<Action> :=
    [CheckEncoder, BeginPass(0, true), Peek(0)] + [DecideDelete, CheckEncoder] + [AioDone, Notify]

  /** The request sees one message of thread 2; when the sync completes, the file has none. */
  lemma SyncCanMissMessages()
    ensures Init(START) && Leads(START, BEFORE + [RequestSync] + AFTER, END) && RequestSync !in AFTER
    ensures END.sync.status == SyncCompleted && END.sync.snapshot[2] == 1
    ensures MsgsOf(2, END.output.file) == [] && END.threads.committed[2] == [LOST]
  {
    hide Leads;
    Setup(); EmptyPass(FRESH); FlushHeader(); SecondScan(); LogAndAsk(); StartSecondPass(); Skip(); Complete();
    FirstHalf();
    var a5 := BEFORE + [RequestSync];
    LeadsAppend(START, a5, S5, [CheckEncoder, BeginPass(0, true), Peek(0)], S6);
    var a6 := a5 + [CheckEncoder, BeginPass(0, true), Peek(0)];
    LeadsAppend(START, a6, S6, [DecideDelete, CheckEncoder], S7);
    LeadsAppend(START, a6 + [DecideDelete, CheckEncoder], S7, [AioDone, Notify], END);
    assert a6 + [DecideDelete, CheckEncoder] + [AioDone, Notify] == a5 + AFTER;
    NoMsgs(2, END.output.file);
  }

  lemma FirstHalf()
    requires Leads(START, [Register(SITE), AddBuffer(1), AddBuffer(2), BeginPass(1, true)], S1)
    requires Leads(S1, PASS, S2) && Leads(S2, [CheckEncoder, AioDone, StartAio], S3)
    requires Leads(S3, [BeginPass(0, true)] + PASS, S4)
    requires Leads(S4, [Commit(1, LOST), Die(0), RequestSync], S5)
    ensures Leads(START, BEFORE + [RequestSync], S5)
  {
    hide Leads;
    var a1 := [Register(SITE), AddBuffer(1), AddBuffer(2), BeginPass(1, true)];
    LeadsAppend(START, a1, S1, PASS, S2);
    var a2 := a1 + PASS;
    LeadsAppend(START, a2, S2, [CheckEncoder, AioDone, StartAio], S3);
    var a3 := a2 + [CheckEncoder, AioDone, StartAio];
    LeadsAppend(START, a3, S3, [BeginPass(0, true)] + PASS, S4);
    var a4 := a3 + ([BeginPass(0, true)] + PASS);
    LeadsAppend(START, a4, S4, [Commit(1, LOST), Die(0), RequestSync], S5);
    assert a4 + [Commit(1, LOST), Die(0), RequestSync] == BEFORE + [RequestSync];
  }
}
