/** The path of log messages from the staging buffers to the log file, as the interleaving of the
    compression thread with the logging threads and with callers of sync() and setLogFile().

    Each action of the compression thread runs between two points at which it takes or releases a
    mutex or touches a staging buffer; the other threads may act between any two of them. */
module Pipeline {
  datatype Site = Site(filename: string, line: nat, severity: nat, format: string)

  datatype Msg = Msg(fmtId: nat, timestamp: nat, size: nat, args: seq<int>)

  /** A staging buffer: its committed but unconsumed messages (the ring below is StagingRing). */
  datatype Buffer = Buffer(id: nat, unread: seq<Msg>, dead: bool)

  /** What the encoder appends to the log. */
  datatype Item =
    | Checkpoint
    | Dictionary(entries: seq<Site>)
    | Extent(bufferId: nat, wrapAround: bool, msgs: seq<Msg>)

  datatype SyncStatus = SyncRequested | PerformingSecondPass | WaitingOnAio | SyncCompleted

  /** Where the compression thread stands. */
  datatype Control =
    | LoopTop
    | Scanning(i: nat)                       // bufferMutex held, buffer i not yet peeked
    | CheckingDelete(i: nat)                 // bufferMutex held, peek of buffer i returned nothing
    | Encoding(i: nat, held: seq<Msg>)       // bufferMutex released, held is what peek returned
    | Relocking(i: nat)                      // done with buffer i, about to take bufferMutex again
    | Scanned                                // end of step 1
    | CheckingAio
    | Notifying                              // an AIO has just completed
    | StartingAio
    | Stopped

  /** What the logging threads own: their buffers (threadBuffers), everything each of them has ever
      logged, and the sites they have registered (invocationSites). */
  datatype Threads = Threads(bufs: seq<Buffer>, committed: map<nat, seq<Msg>>, sites: seq<Site>)

  /** Where the encoded log is: written, handed to the AIO library, or still in the encoder.  The
      file is all output so far; a new log file starts at a Checkpoint. */
  datatype Output = Output(file: seq<Item>, inflight: seq<Item>, outstanding: bool, encoder: seq<Item>)

  /** nextInvocationIndexToBePersisted and shadowStaticInfo. */
  datatype Catalog = Catalog(nextSite: nat, shadow: seq<Site>)

  /** The local variables of compressionThreadMain: lastStagingBufferChecked, outputBufferFull and
      wrapAround; and, as history of the current pass, which buffers it has found empty and which it
      will not look at because it deleted the one it started at. */
  datatype Scan = Scan(control: Control, last: nat, full: bool, wrapAround: bool,
                       foundEmpty: set<nat>, missed: set<nat>)

  /** syncStatus; as history, how much each thread had logged at the latest request and which
      buffers the pass that ended the latest sync had missed. */
  datatype Sync = Sync(status: SyncStatus, snapshot: map<nat, nat>, missed: set<nat>)

  datatype State = State(threads: Threads, output: Output, catalog: Catalog, scan: Scan,
                         sync: Sync, exiting: bool)

  datatype Action =
    // other threads
    | Commit(b: nat, msg: Msg)
    | Register(site: Site)
    | AddBuffer(id: nat)
    | Die(b: nat)
    | RequestSync
    | RequestExit
    | Relaunch
    // the compression thread
    | BeginPass(entries: nat, room: bool)
    | Peek(taken: nat)
    | DecideDelete
    | Encode(n: nat)
    | EncodeNothing(header: bool)
    | Relock
    | CheckEncoder
    | AioPending
    | AioDone
    | Notify
    | StartAio
    | Stop

  function Log(o: Output): seq<Item> { o.file + o.inflight + o.encoder }

  predicate MutexFree(s: Scan) { !s.control.Scanning? && !s.control.CheckingDelete? }

  function Size(msgs: seq<Msg>): nat {
    if msgs == [] then 0 else msgs[0].size + Size(msgs[1..])
  }

  /** A chunk of encodeLogMsgs: the last message taken starts within the chunk and, unless it is as
      large as half a staging buffer, which is the threshold, ends there too; and every message has
      its dictionary entry. */
  predicate ChunkOk(held: seq<Msg>, n: nat, threshold: nat, dictionarySize: nat) {
    && 0 < n <= |held|
    && Size(held[..n - 1]) < threshold
    && (held[n - 1].size < threshold ==> Size(held[..n]) <= threshold)
    && forall m <- held[..n] :: m.fmtId < dictionarySize
  }

  predicate Enabled(s: State, a: Action, threshold: nat) {
    var bufs, control := s.threads.bufs, s.scan.control;
    match a
    case Commit(b, msg) => b < |bufs| && !bufs[b].dead && msg.fmtId < |s.threads.sites|
                           && bufs[b].id in s.threads.committed
    case Register(_) => true
    case AddBuffer(id) => MutexFree(s.scan) && id !in s.threads.committed
    case Die(b) => b < |bufs|
    case RequestSync => true
    case RequestExit => true
    case Relaunch => control.Stopped?
    case BeginPass(entries, room) =>
      && control.LoopTop?
      && (s.exiting ==> s.output.encoder != [] || s.output.outstanding)
      && s.catalog.nextSite + entries <= |s.threads.sites|
      && (s.catalog.nextSite == |s.threads.sites| || !room ==> entries == 0)
      && |s.catalog.shadow| <= s.catalog.nextSite + entries
      && (!room ==> s.output.encoder != [])
    case Peek(taken) =>
      && control.Scanning? && control.i < |bufs|
      && taken <= |bufs[control.i].unread|
      && (taken == 0 ==> bufs[control.i].unread == [])
    case DecideDelete => control.CheckingDelete? && control.i < |bufs|
    case Encode(n) =>
      && control.Encoding? && control.i < |bufs|
      && ChunkOk(control.held, n, threshold, |s.catalog.shadow|)
      && n <= |bufs[control.i].unread|
    case EncodeNothing(header) =>
      && control.Encoding? && control.i < |bufs|
      && (!header ==> s.output.encoder != [])
    case Relock => control.Relocking? && |bufs| > 0
    case CheckEncoder => control.Scanned?
    case AioPending => control.CheckingAio? && s.output.outstanding && !s.scan.full
    case AioDone => control.CheckingAio?
    case Notify => control.Notifying?
    case StartAio => control.StartingAio?
    case Stop => control.LoopTop? && s.exiting && s.output.encoder == [] && !s.output.outstanding
  }

  function Apply(s: State, a: Action, threshold: nat): State
    requires Enabled(s, a, threshold)
  {
    match a
    case Commit(b, msg) => s.(threads := DoCommit(s.threads, b, msg))
    case Register(site) => s.(threads := s.threads.(sites := s.threads.sites + [site]))
    case AddBuffer(id) => s.(threads := DoAddBuffer(s.threads, id))
    case Die(b) =>
      s.(threads := s.threads.(bufs := s.threads.bufs[b := s.threads.bufs[b].(dead := true)]))
    case RequestSync =>
      var committed := s.threads.committed;
      s.(sync := s.sync.(status := SyncRequested, snapshot := map id | id in committed :: |committed[id]|))
    case RequestExit => s.(exiting := true)
    case Relaunch =>
      s.(exiting := false, catalog := Catalog(0, []), output := s.output.(encoder := [Checkpoint]),
         scan := Scan(LoopTop, 0, false, false, {}, {}))
    case BeginPass(entries, room) => DoBeginPass(s, entries, room)
    case Peek(taken) => s.(scan := DoPeek(s.scan, s.threads.bufs[s.scan.control.i], taken))
    case DecideDelete => DoDecideDelete(s, s.scan.control.i)
    case Encode(n) => DoEncode(s, s.scan.control.i, s.scan.control.held, n)
    case EncodeNothing(header) => DoEncodeNothing(s, s.scan.control.i, header)
    case Relock => s.(scan := Advance(s.scan, s.scan.control.i, |s.threads.bufs|))
    case CheckEncoder => DoCheckEncoder(s)
    case AioPending => s.(scan := s.scan.(control := LoopTop))
    case AioDone => DoAioDone(s)
    case Notify =>
      s.(sync := if s.sync.status.WaitingOnAio? then s.sync.(status := SyncCompleted) else s.sync,
         scan := s.scan.(control := StartingAio))
    case StartAio => DoStartAio(s)
    case Stop => s.(scan := s.scan.(control := Stopped))
  }

  function DoCommit(t: Threads, b: nat, msg: Msg): Threads
    requires b < |t.bufs| && t.bufs[b].id in t.committed
  {
    var buf := t.bufs[b];
    t.(bufs := t.bufs[b := buf.(unread := buf.unread + [msg])],
       committed := t.committed[buf.id := t.committed[buf.id] + [msg]])
  }

  function DoAddBuffer(t: Threads, id: nat): Threads {
    t.(bufs := t.bufs + [Buffer(id, [], false)], committed := t.committed[id := []])
  }

  /** The start of step 1: new dictionary entries, then the scan if there is anything to scan. */
  function DoBeginPass(s: State, entries: nat, room: bool): State
    requires s.catalog.nextSite + entries <= |s.threads.sites|
    requires |s.catalog.shadow| <= s.catalog.nextSite + entries
  {
    var sites, first := s.threads.sites, s.catalog.nextSite;
    var next := first + entries;
    s.(output := if first < |sites| && room then Emit(s.output, Dictionary(sites[first..next])) else s.output,
       catalog := Catalog(next, s.catalog.shadow + sites[|s.catalog.shadow|..next]),
       scan := s.scan.(foundEmpty := {}, missed := {},
                       control := if s.scan.full || s.threads.bufs == [] then Scanned else Scanning(s.scan.last)))
  }

  function Emit(o: Output, item: Item): Output {
    o.(encoder := o.encoder + [item])
  }

  function DoPeek(c: Scan, buf: Buffer, taken: nat): Scan
    requires c.control.Scanning? && taken <= |buf.unread|
  {
    if taken > 0 then c.(control := Encoding(c.control.i, buf.unread[..taken]))
    else c.(control := CheckingDelete(c.control.i), foundEmpty := c.foundEmpty + {buf.id})
  }

  function DoEncode(s: State, i: nat, held: seq<Msg>, n: nat): State
    requires i < |s.threads.bufs| && n <= |held| && n <= |s.threads.bufs[i].unread|
  {
    var buf := s.threads.bufs[i];
    s.(output := Emit(s.output, Extent(buf.id, s.scan.wrapAround, held[..n])),
       threads := s.threads.(bufs := s.threads.bufs[i := buf.(unread := buf.unread[n..])]),
       scan := s.scan.(wrapAround := false,
                       control := if n == |held| then Relocking(i) else Encoding(i, held[n..])))
  }

  /** No message could be encoded: the extent header is there unless it did not fit either. */
  function DoEncodeNothing(s: State, i: nat, header: bool): State
    requires i < |s.threads.bufs|
  {
    s.(output := if header then Emit(s.output, Extent(s.threads.bufs[i].id, s.scan.wrapAround, [])) else s.output,
       scan := s.scan.(last := i, full := true, control := Relocking(i)))
  }

  /** The end of the scan's loop body: the next index, the wrap-around mark, the two exits. */
  function Advance(c: Scan, i: nat, numBuffers: nat): Scan
    requires numBuffers > 0
  {
    MoveTo(c, (i + 1) % numBuffers)
  }

  function MoveTo(c: Scan, next: nat): Scan {
    c.(wrapAround := c.wrapAround || next == 0,
       control := if next == c.last || c.full then Scanned else Scanning(next))
  }

  function DoDecideDelete(s: State, i: nat): State
    requires i < |s.threads.bufs|
  {
    var buf := s.threads.bufs[i];
    if buf.dead && buf.unread == [] then
      var bufs := s.threads.bufs[..i] + s.threads.bufs[i + 1..];
      var c := if i == s.scan.last then s.scan.(missed := s.scan.missed + MissedFrom(s.threads.bufs, i)) else s.scan;
      s.(threads := s.threads.(bufs := bufs), scan := ScanAfterDelete(c, i, |bufs|))
    else s.(scan := Advance(s.scan, i, |s.threads.bufs|))
  }

  /** Deleting buffer i: the index steps back and forward again, which is i modulo the new size. */
  function ScanAfterDelete(c: Scan, i: nat, remaining: nat): Scan {
    if remaining == 0 then c.(last := 0, wrapAround := true, control := Scanned)
    else
      MoveTo(c.(last := if c.last >= i && c.last > 0 then c.last - 1 else c.last), i % remaining)
  }

  function Ids(bufs: seq<Buffer>): set<nat> { set b <- bufs :: b.id }

  /** The buffers that a pass never looks at once it has deleted buffer `first`, at which it started:
      the one before it, or when it started at index 0, all others. */
  function MissedFrom(bufs: seq<Buffer>, first: nat): set<nat>
    requires first < |bufs|
  {
    if first == 0 then Ids(bufs[1..]) else {bufs[first - 1].id}
  }

  function DoCheckEncoder(s: State): State {
    if s.output.encoder == [] && s.sync.status.SyncRequested? then
      s.(sync := s.sync.(status := PerformingSecondPass), scan := s.scan.(control := LoopTop))
    else if s.output.encoder == [] && s.sync.status.PerformingSecondPass? then
      s.(sync := s.sync.(status := if s.output.outstanding then WaitingOnAio else SyncCompleted,
                         missed := s.scan.missed),
         scan := s.scan.(control := CheckingAio))
    else s.(scan := s.scan.(control := CheckingAio))
  }

  function DoAioDone(s: State): State {
    if s.output.outstanding then
      s.(output := s.output.(file := s.output.file + s.output.inflight, inflight := [], outstanding := false),
         scan := s.scan.(control := Notifying))
    else s.(scan := s.scan.(control := StartingAio))
  }

  function DoStartAio(s: State): State {
    if s.output.encoder == [] then s.(scan := s.scan.(control := LoopTop))
    else s.(output := s.output.(inflight := s.output.encoder, outstanding := true, encoder := []),
            scan := s.scan.(full := false, control := LoopTop))
  }

  predicate Init(s: State) {
    s == State(Threads([], map[], []), Output([], [], false, [Checkpoint]), Catalog(0, []),
               Scan(LoopTop, 0, false, false, {}, {}), Sync(SyncCompleted, map[], {}), false)
  }

  ghost predicate Next(s: State, t: State, threshold: nat) {
    exists a :: Enabled(s, a, threshold) && t == Apply(s, a, threshold)
  }
}
