/** Dictionary before use: in every log file an encoded message refers to a dictionary entry that
    was written earlier in the same file and is the one its site registered. */
module PipelineDictionary {
  import opened Pipeline
  import opened PipelineInvariants

  /** The dictionary a reader holds after `items` if it held `d` before; each file starts afresh. */
  function DictAfter(d: seq<Site>, items: seq<Item>): seq<Site>
    decreases |items|
  {
    if items == [] then d else DictAfter(DictStep(d, items[0]), items[1..])
  }

  function DictStep(d: seq<Site>, item: Item): seq<Site> {
    match item
    case Checkpoint => []
    case Dictionary(entries) => d + entries
    case Extent(_, _, _) => d
  }

  lemma {:induction false} DictAfterAppend(d: seq<Site>, xs: seq<Item>, ys: seq<Item>)
    ensures DictAfter(d, xs + ys) == DictAfter(DictAfter(d, xs), ys)
    decreases |xs|
  {
    if xs == [] {
      assert xs + ys == ys;
    } else {
      assert (xs + ys)[1..] == xs[1..] + ys;
      DictAfterAppend(DictStep(d, xs[0]), xs[1..], ys);
    }
  }

  predicate Resolved(d: seq<Site>, item: Item, sites: seq<Site>) {
    item.Extent? ==> d <= sites && forall m <- item.msgs :: m.fmtId < |d|
  }

  /** Every message in the log is resolved by the dictionary entries before it in its file. */
  ghost predicate AllResolved(log: seq<Item>, sites: seq<Site>) {
    forall k | 0 <= k < |log| :: Resolved(DictAfter([], log[..k]), log[k], sites)
  }

  lemma AllResolvedSnoc(log: seq<Item>, item: Item, sites: seq<Site>)
    requires AllResolved(log, sites) && Resolved(DictAfter([], log), item, sites)
    ensures AllResolved(log + [item], sites)
  {
    var longer := log + [item];
    forall k | 0 <= k < |longer| ensures Resolved(DictAfter([], longer[..k]), longer[k], sites) {
      if k < |log| { assert longer[..k] == log[..k]; } else { assert longer[..k] == log; }
    }
  }

  ghost predicate CatalogOk(s: State) {
    && s.catalog.nextSite <= |s.threads.sites|
    && s.catalog.shadow == s.threads.sites[..s.catalog.nextSite]
    && DictAfter([], Log(s.output)) == s.catalog.shadow
    && AllResolved(Log(s.output), s.threads.sites)
  }

  lemma InitCatalog(s: State)
    requires Init(s)
    ensures CatalogOk(s)
  {
    assert DictAfter([], [Checkpoint]) == DictAfter([], [Checkpoint][1..]);
  }

  lemma EmitCatalog(log: seq<Item>, item: Item, sites: seq<Site>)
    requires AllResolved(log, sites) && Resolved(DictAfter([], log), item, sites)
    ensures AllResolved(log + [item], sites)
    ensures DictAfter([], log + [item]) == DictStep(DictAfter([], log), item)
  {
    AllResolvedSnoc(log, item, sites);
    DictAfterAppend([], log, [item]);
    assert [item][1..] == [];
  }

  /** The actions after which the log is a different sequence of items, or the sites have grown. */
  predicate ChangesCatalog(a: Action) {
    a.Register? || a.Relaunch? || a.BeginPass? || a.Encode? || a.EncodeNothing?
  }

  lemma CatalogUnchanged(s: State, a: Action, threshold: nat)
    requires Inv(s) && CatalogOk(s) && Enabled(s, a, threshold) && !ChangesCatalog(a)
    ensures CatalogOk(Apply(s, a, threshold))
  {
    hide AllResolved, BuffersOk, Conserved, IndicesOk, ChunkOk, MissedFrom, DictAfter;
    var t := Apply(s, a, threshold);
    if a.AioDone? { assert Log(t.output) == Log(s.output); }
    if a.StartAio? { assert Log(t.output) == Log(s.output); }
  }

  lemma CatalogRegister(s: State, site: Site)
    requires CatalogOk(s)
    ensures CatalogOk(s.(threads := s.threads.(sites := s.threads.sites + [site])))
  {
  }

  lemma CatalogBeginPass(s: State, a: Action, threshold: nat)
    requires CatalogOk(s) && Enabled(s, a, threshold) && a.BeginPass?
    ensures CatalogOk(Apply(s, a, threshold))
  {
    hide AllResolved, Log;
    var sites, first := s.threads.sites, s.catalog.nextSite;
    var next := first + a.entries;
    assert sites[..next] == sites[..first] + sites[first..next];
    if first < |sites| && a.room {
      var item := Dictionary(sites[first..next]);
      LogEmit(s.output, item);
      EmitCatalog(Log(s.output), item, sites);
    }
  }

  lemma CatalogEncode(s: State, a: Action, threshold: nat)
    requires Inv(s) && CatalogOk(s) && Enabled(s, a, threshold) && (a.Encode? || a.EncodeNothing?)
    ensures CatalogOk(Apply(s, a, threshold))
  {
    hide AllResolved, Log, BuffersOk, Conserved;
    var buf := s.threads.bufs[s.scan.control.i];
    var item := if a.Encode? then Extent(buf.id, s.scan.wrapAround, s.scan.control.held[..a.n])
                else Extent(buf.id, s.scan.wrapAround, []);
    LogEmit(s.output, item);
    EmitCatalog(Log(s.output), item, s.threads.sites);
  }

  lemma CatalogRelaunch(s: State, threshold: nat)
    requires Inv(s) && CatalogOk(s) && Enabled(s, Relaunch, threshold)
    ensures CatalogOk(Apply(s, Relaunch, threshold))
  {
    hide AllResolved, BuffersOk, Conserved;
    var t := Apply(s, Relaunch, threshold);
    assert Log(t.output) == Log(s.output) + [Checkpoint];
    EmitCatalog(Log(s.output), Checkpoint, s.threads.sites);
  }

  lemma StepCatalog(s: State, a: Action, threshold: nat)
    requires Inv(s) && CatalogOk(s) && Enabled(s, a, threshold)
    ensures CatalogOk(Apply(s, a, threshold))
  {
    if !ChangesCatalog(a) { CatalogUnchanged(s, a, threshold); }
    else if a.Register? { CatalogRegister(s, a.site); }
    else if a.BeginPass? { CatalogBeginPass(s, a, threshold); }
    else if a.Relaunch? { CatalogRelaunch(s, threshold); }
    else { CatalogEncode(s, a, threshold); }
  }

  /** What a reader of the file relies on: the entry of every message it meets has been read. */
  lemma DictionaryBeforeUse(s: State, k: nat, m: Msg)
    requires CatalogOk(s) && k < |s.output.file|
    requires s.output.file[k].Extent? && m in s.output.file[k].msgs
    ensures var d := DictAfter([], s.output.file[..k]);
            m.fmtId < |d| && m.fmtId < |s.threads.sites| && d[m.fmtId] == s.threads.sites[m.fmtId]
  {
    var log := Log(s.output);
    assert log[..k] == s.output.file[..k];
    assert Resolved(DictAfter([], log[..k]), log[k], s.threads.sites);
  }
}
