// What a caller can rely on across the parts: a search result is a chunk of a stored memory, of a user the scope
// admits.
module EndToEnd {
  import opened Text
  import opened Chunking
  import opened Embeddings
  import opened LikeScope
  import Paths
  import Index
  import S = Searching
  import F = FileOps
  import Y = Synthesis
  import Z = SynthesisFiles
  import FileStorage

  lemma HitOrigin(t: Index.Tables, m: Index.Model, q: S.Query, near: seq<set<string>>, dist: S.Distance, eq: CharEq,
                  hits: seq<S.Hit>, k: nat)
      returns (p: string, i: nat)
    requires Index.Represents(t, m) && t.vec.Some? && S.MayReturn(t, q, near, dist, eq, S.Found(hits)) && k < |hits|
    ensures p in m && i < |m[p].chunks| && hits[k].path == p
    ensures TextChunk(hits[k].snippet, hits[k].startLine, hits[k].endLine) == Texts(m[p].chunks)[i]
    ensures S.EntryPasses(m, q, eq, p)
  {
    S.SearchSound(t, q, near, dist, eq, hits);
    var id := hits[k].id;
    p, i := S.RowOrigin(t, m, t.vec.value, id);
    S.CandidatesAre(t, m, t.vec.value, q, eq, p, i);
    assert t.chunks[id] == Index.ChunkView(m)[p][i];
    assert hits[k] == S.HitOf(t, id, hits[k].score);
  }

  // ---------------------------------------------------------------------------
  // The index under the requests
  // ---------------------------------------------------------------------------

  /** An event of the requests, with what the database does to the statements it leads to. */
  datatype Act = Act(event: F.Event, faults: Index.Faults)

  /** The index operation that answers the awaited message of a request. */
  function TaskOp(task: F.Task, faults: Index.Faults): Option<Index.IndexOp> {
    match task
    case IndexInsert(path, _, entry) => Some(Index.Insert(path, entry, faults))
    case UndoInsert(path, _) => Some(Index.Delete(path, faults.failAt))
    case IndexDelete(path) => Some(Index.Delete(path, faults.failAt))
    case _ => None
  }

  /** The operation the index executes at an event, if any. */
  function ActOp(s: F.State, a: Act): Option<Index.IndexOp> {
    match a.event
    case Works(id) => if id in s.tasks then TaskOp(s.tasks[id], a.faults) else None
    case Fails(id, _) => if id in s.tasks then TaskOp(s.tasks[id], a.faults) else None
    case Lost(id, Acted(_)) => if id in s.tasks then TaskOp(s.tasks[id], a.faults) else None
    case SynthesisIndexed(target, name, entry) =>
      Some(Index.Insert(Paths.SynthesisPath(target, name), entry, a.faults))
    case _ => None
  }

  function EventsOf(acts: seq<Act>): seq<F.Event> {
    if acts == [] then [] else EventsOf(acts[..|acts| - 1]) + [acts[|acts| - 1].event]
  }

  function StateOf(acts: seq<Act>): F.State {
    F.Run(F.START, EventsOf(acts))
  }

  /** The tables after the operations that a run of requests leads to. */
  function TablesOf(acts: seq<Act>): Index.Tables {
    if acts == [] then Index.EMPTY
    else
      var before, a := acts[..|acts| - 1], acts[|acts| - 1];
      var op := ActOp(StateOf(before), a);
      if op.None? then TablesOf(before) else Index.Step(TablesOf(before), op.value).0
  }

  /** Requests are told what the index did: an event fails exactly if the operation behind it does. */
  predicate Truthful(acts: seq<Act>) {
    acts == []
    || (var before, a := acts[..|acts| - 1], acts[|acts| - 1];
        var op := ActOp(StateOf(before), a);
        Truthful(before) && (op.Some? ==> (Index.Step(TablesOf(before), op.value).1 == Index.Ok <==> !a.event.Fails?)))
  }

  lemma TaskEffect(s: F.State, id: nat, faults: Index.Faults, r: Index.IndexResult, fault: FileStorage.WriteFault)
    requires id in s.tasks
    ensures var op := TaskOp(s.tasks[id], faults);
            && F.OnFails(s, id, s.tasks[id], fault).index == s.index
            && F.OnWorks(s, id, s.tasks[id]).index == F.OnLost(s, id, s.tasks[id], F.Acted(fault)).index
            && F.OnWorks(s, id, s.tasks[id]).index
               == if op.None? then s.index else Index.ModelStep(s.index, op.value, Index.Ok)
  {}

  /** The protocol's view of the index follows the operation. */
  lemma ActEffect(s: F.State, a: Act, r: Index.IndexResult)
    requires ActOp(s, a).Some? ==> (r == Index.Ok <==> !a.event.Fails?)
    ensures F.Step(s, a.event).index
            == if ActOp(s, a).None? then s.index else Index.ModelStep(s.index, ActOp(s, a).value, r)
  {
    match a.event
    case Works(id) => if id in s.tasks { TaskEffect(s, id, a.faults, r, FileStorage.NoFault); }
    case Fails(id, fault) => if id in s.tasks { TaskEffect(s, id, a.faults, r, fault); }
    case Lost(id, delivery) =>
      if id in s.tasks && delivery.Acted? { TaskEffect(s, id, a.faults, r, delivery.fault); }
    case _ =>
  }

  lemma StateNext(acts: seq<Act>)
    requires acts != []
    ensures StateOf(acts) == F.Step(StateOf(acts[..|acts| - 1]), acts[|acts| - 1].event)
  {
    var events := EventsOf(acts[..|acts| - 1]);
    assert EventsOf(acts)[..|events|] == events;
  }

  /** In every interleaving of requests the tables hold exactly the entries the requests and the synthesizer take to
      be indexed. */
  lemma {:induction false} TablesRepresent(acts: seq<Act>)
    requires Truthful(acts)
    ensures Index.Represents(TablesOf(acts), StateOf(acts).index)
  {
    if acts != [] {
      var before, a := acts[..|acts| - 1], acts[|acts| - 1];
      TablesRepresent(before);
      StateNext(acts);
      RepresentNext(TablesOf(before), StateOf(before), a);
    }
  }

  lemma RepresentNext(t: Index.Tables, s: F.State, a: Act)
    requires Index.Represents(t, s.index)
    requires ActOp(s, a).Some? ==> (Index.Step(t, ActOp(s, a).value).1 == Index.Ok <==> !a.event.Fails?)
    ensures Index.Represents(if ActOp(s, a).None? then t else Index.Step(t, ActOp(s, a).value).0,
                             F.Step(s, a.event).index)
  {
    var op := ActOp(s, a);
    if op.Some? {
      ActEffect(s, a, Index.Step(t, op.value).1);
      Index.StepRepresents(t, s.index, op.value);
    } else {
      ActEffect(s, a, Index.Ok);
    }
  }

  /** Whatever requests ran before and however they failed, a result for a memory that no request is working on
      quotes the stored file: its text and its lines are those of one of the file's chunks. */
  lemma ResultQuotesStoredFile(cfg: F.Config, acts: seq<Act>, q: S.Query, near: seq<set<string>>, dist: S.Distance,
                               eq: CharEq, hits: seq<S.Hit>, k: nat)
    requires Truthful(acts) && F.SerialRun(cfg, F.START, EventsOf(acts)) && TablesOf(acts).vec.Some?
    requires S.MayReturn(TablesOf(acts), q, near, dist, eq, S.Found(hits)) && k < |hits|
    requires F.Covered(hits[k].path) && F.Open(StateOf(acts), hits[k].path)
    ensures var files := StateOf(acts).files;
            && hits[k].path in files
            && TextChunk(hits[k].snippet, hits[k].startLine, hits[k].endLine)
               in Chunks(files[hits[k].path], cfg.chunkSize, cfg.overlap)
  {
    TablesRepresent(acts);
    QuotesStored(cfg, EventsOf(acts), TablesOf(acts), q, near, dist, eq, hits, k);
  }

  lemma QuotesStored(cfg: F.Config, events: seq<F.Event>, t: Index.Tables, q: S.Query, near: seq<set<string>>,
                     dist: S.Distance, eq: CharEq, hits: seq<S.Hit>, k: nat)
    requires F.SerialRun(cfg, F.START, events) && Index.Represents(t, F.Run(F.START, events).index)
    requires t.vec.Some? && S.MayReturn(t, q, near, dist, eq, S.Found(hits)) && k < |hits|
    requires F.Covered(hits[k].path) && F.Open(F.Run(F.START, events), hits[k].path)
    ensures var files := F.Run(F.START, events).files;
            && hits[k].path in files
            && TextChunk(hits[k].snippet, hits[k].startLine, hits[k].endLine)
               in Chunks(files[hits[k].path], cfg.chunkSize, cfg.overlap)
  {
    var s := F.Run(F.START, events);
    var p, i := HitOrigin(t, s.index, q, near, dist, eq, hits, k);
    F.IndexedIsStored(cfg, events, p);
    assert Texts(s.index[p].chunks)[i] in Chunks(s.files[p], cfg.chunkSize, cfg.overlap);
  }

  /** In every run, however requests overlap and fail: a search restricted to raw memories never returns a summary, and
      does not leave a memory out for any other reason than its scope. */
  lemma RawOnlyFindsMemories(cfg: F.Config, acts: seq<Act>, q: S.Query, near: seq<set<string>>, dist: S.Distance,
                             eq: CharEq, hits: seq<S.Hit>)
    requires Truthful(acts) && F.PosedRun(cfg, F.START, EventsOf(acts)) && TablesOf(acts).vec.Some?
    requires S.MayReturn(TablesOf(acts), q, near, dist, eq, S.Found(hits)) && q.rawOnly
    ensures forall k, target, name | 0 <= k < |hits| && Paths.ValidTarget(target) && Paths.Segment(name) ::
              hits[k].path != Paths.SynthesisPath(target, name)
    ensures forall p | p in StateOf(acts).index && F.Raw(p) ::
              S.EntryPasses(StateOf(acts).index, q, eq, p) <==> InScope(q.scope, q.username, q.agentId, p, eq)
  {
    TablesRepresent(acts);
    F.RunLabels(cfg, EventsOf(acts));
    forall k, target, name | 0 <= k < |hits| && Paths.ValidTarget(target) && Paths.Segment(name)
      ensures hits[k].path != Paths.SynthesisPath(target, name)
    {
      var p, i := HitOrigin(TablesOf(acts), StateOf(acts).index, q, near, dist, eq, hits, k);
      assert F.Raw(p);
      F.SynthesisNotRaw(target, name, p);
    }
  }

  // ---------------------------------------------------------------------------
  // Whose memories are found
  // ---------------------------------------------------------------------------

  /** In user scope a memory that is found belongs to a user whose name is the caller's up to letter case; so to the
      caller, when no two usernames differ in case alone. */
  lemma ResultOwner(t: Index.Tables, m: Index.Model, q: S.Query, near: seq<set<string>>, dist: S.Distance,
                    hits: seq<S.Hit>, k: nat,
                    u: string, a: string, project: Option<string>, filename: string)
    requires Index.Represents(t, m) && t.vec.Some? && S.MayReturn(t, q, near, dist, FoldEq, S.Found(hits)) && k < |hits|
    requires q.scope == User && Paths.ValidUsername(q.username) && Paths.ValidUsername(u) && Paths.UuidText(a)
    requires Paths.RawPath(u, a, project, filename) == Paths.Path(hits[k].path)
    ensures SameTo(q.username, u, FoldEq)
  {
    var p, i := HitOrigin(t, m, q, near, dist, FoldEq, hits, k);
    Paths.SegmentFacts(u, a, filename);
    Paths.SegmentFacts(q.username, a, filename);
    var rest := Paths.Join3(a, Paths.ResolveProject(project).path, Paths.Flatten(filename));
    assert p == u + ['/'] + rest;
    UserScopeIsolation(q.username, u, q.agentId, rest);
  }

  // ---------------------------------------------------------------------------
  // From one pass of the cascade to the next
  // ---------------------------------------------------------------------------

  /** The sizes of files, as a listing of their folder shows them. */
  function Sizes(files: FileStorage.Files): Z.Folder {
    map name | name in files :: ByteLen(files[name])
  }

  /** The name of the next summary is chosen as the code does, on the day `today`. */
  ghost predicate ChoosesNext(env: Y.Env, t: Paths.Target, files: FileStorage.Files, today: Z.Date, cap: nat) {
    Y.MdName(env.next(t, files)) && Z.Chosen(Sizes(files), Z.DateText(today), cap, env.next(t, files))
  }

  /** The latest summary is found as the code does. */
  ghost predicate FindsLatest(env: Y.Env, t: Paths.Target, files: FileStorage.Files) {
    env.latest(t, files).Some? && Z.IsLatest(Sizes(files).Keys, env.latest(t, files).value)
  }

  lemma StoredSizes(env: Y.Env, t: Paths.Target, here: Y.Local, name: string, content: string, today: Z.Date)
    requires Y.MdName(name) && !AllSpace(content) && Y.WriteSummary(env, t, here, name, content).1 == Y.Synthesized
    ensures var after := Y.WriteSummary(env, t, here, name, content).0;
            && Sizes(after.files) == Z.AfterCycle(Sizes(here.files), Z.Cycle(today, name, Z.Complete(ByteLen(content))))
            && FileStorage.Lookup(after.files, name) == Some(content)
  {
    Y.MdTmp(name);
    NoChunksIffBlank(content, env.chunkSize, env.overlap);
  }

  /** What a pass has just synthesized for a target is what the next pass reads as its latest summary, exactly unless
      the clock is behind a latest file that is full. */
  lemma FreshSummaryIsReadIff(env: Y.Env, t: Paths.Target, sources: Option<Y.Sources>, here: Y.Local, today: Z.Date,
                              cap: nat)
    requires Z.ValidDate(today) && Z.Tidy(Z.Summaries(Sizes(here.files)), Z.LAST_DAY)
    requires Y.ReplyTo(env, t, sources, here).Some? && !AllSpace(Y.ReplyTo(env, t, sources, here).value)
    requires Y.Synthesize(env, t, sources, here).1 == Y.Synthesized
    requires ChoosesNext(env, t, here.files, today, cap)
             && FindsLatest(env, t, Y.Synthesize(env, t, sources, here).0.files)
    requires env.summaryReadable(t, env.next(t, here.files))
    ensures Y.ReadLatest(env, t, Y.Synthesize(env, t, sources, here).0)
            == Y.Summary(Y.ReplyTo(env, t, sources, here), env.next(t, here.files))
            <==> !Z.LatestIsAhead(Sizes(here.files), Z.DateText(today), cap)
  {
    var name, content := env.next(t, here.files), Y.ReplyTo(env, t, sources, here).value;
    var after := Y.WriteSummary(env, t, here, name, content).0;
    var before, c := Sizes(here.files), Z.Cycle(today, name, Z.Complete(ByteLen(content)));
    StoredSizes(env, t, here, name, content, today);
    Z.WrittenIsFoundIff(before, c, cap, env.latest(t, after.files).value);
  }
}
