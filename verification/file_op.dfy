// Writing and deleting memories: each request is an actor of its own that updates the index and the storage in
// separate messages, so requests interleave between any two of them (memory/file_op.rs, memory/manager.rs).
module FileOps {
  import opened Text
  import opened Chunking
  import opened Embeddings
  import opened Paths
  import opened FileStorage
  import I = Index
  import opened SynthesisFiles

  datatype Config = Config(chunkSize: nat, overlap: nat)

  // ---------------------------------------------------------------------------
  // Entries
  // ---------------------------------------------------------------------------

  function RawEntry(cfg: Config, content: string, model: string, embeddings: seq<Vector>): I.Entry {
    I.Entry("raw", ByteLen(content), model, Zip(Chunks(content, cfg.chunkSize, cfg.overlap), embeddings))
  }

  /** The entry indexes exactly the chunks of `content`. */
  predicate Indexes(cfg: Config, e: I.Entry, content: string) {
    Texts(e.chunks) == Chunks(content, cfg.chunkSize, cfg.overlap)
  }

  /** With one embedding per chunk nothing is lost on the way into the index. */
  lemma RawEntryIndexes(cfg: Config, content: string, model: string, embeddings: seq<Vector>)
    requires |embeddings| == |Chunks(content, cfg.chunkSize, cfg.overlap)|
    ensures Indexes(cfg, RawEntry(cfg, content, model, embeddings), content)
  {
    ZipTexts(Chunks(content, cfg.chunkSize, cfg.overlap), embeddings);
  }

  /** An entry the write request may build for `content`: the embedder answers with one vector per chunk. */
  ghost predicate Embeddable(cfg: Config, content: string, e: I.Entry) {
    exists model, embeddings :: |embeddings| == |Chunks(content, cfg.chunkSize, cfg.overlap)|
                                && e == RawEntry(cfg, content, model, embeddings)
  }

  lemma EmbeddableIndexes(cfg: Config, content: string, e: I.Entry)
    requires Embeddable(cfg, content, e)
    ensures Indexes(cfg, e, content)
  {
    var model, embeddings :| |embeddings| == |Chunks(content, cfg.chunkSize, cfg.overlap)|
                             && e == RawEntry(cfg, content, model, embeddings);
    RawEntryIndexes(cfg, content, model, embeddings);
  }

  // ---------------------------------------------------------------------------
  // The protocol
  // ---------------------------------------------------------------------------

  /** A request under way, by the message it is waiting for. */
  datatype Task =
    | EmbedTexts(path: string, content: string)
    | IndexInsert(path: string, content: string, entry: I.Entry)
    | StorageWrite(path: string, content: string)
    | UndoInsert(path: string, content: string)
    | IndexDelete(path: string)
    | StorageDelete(path: string)

  datatype State = State(files: Files, index: I.Model, tasks: map<nat, Task>)

  /** What became of a message whose answer never came: it did not arrive, or the service acted on it, a storage write
      as far as `fault` let it. */
  datatype Delivery = NotDelivered | Acted(fault: WriteFault)

  datatype Event =
    | StartWrite(id: nat, path: string, content: string)
    | StartDelete(id: nat, path: string)
    | Embedded(id: nat, entry: I.Entry)
    | Works(id: nat)
    | Fails(id: nat, fault: WriteFault)
    | Lost(id: nat, delivery: Delivery)
    | SynthesisStored(target: Target, name: string, content: string, fault: WriteFault)
    | SynthesisIndexed(target: Target, name: string, entry: I.Entry)

  function End(s: State, id: nat): State {
    s.(tasks := s.tasks - {id})
  }

  function Next(s: State, id: nat, task: Task): State {
    s.(tasks := s.tasks[id := task])
  }

  /** The awaited message succeeds. */
  function OnWorks(s: State, id: nat, task: Task): State {
    match task
    case EmbedTexts(_, _) => s
    case IndexInsert(path, content, entry) => Next(s.(index := s.index[path := entry]), id, StorageWrite(path, content))
    case StorageWrite(path, content) => End(s.(files := Apply(s.files, Put(path, content, NoFault))), id)
    case UndoInsert(path, _) => End(s.(index := s.index - {path}), id)
    case IndexDelete(path) => Next(s.(index := s.index - {path}), id, StorageDelete(path))
    case StorageDelete(path) => End(s.(files := Apply(s.files, Remove(path, true))), id)
  }

  /** The awaited message answers with an error; a storage write then leaves what its fault says. */
  function OnFails(s: State, id: nat, task: Task, fault: WriteFault): State {
    match task
    case StorageWrite(path, content) =>
      if fault == NoFault then s
      else Next(s.(files := Apply(s.files, Put(path, content, fault))), id, UndoInsert(path, content))
    case _ => End(s, id)
  }

  /** The answer never comes: the request ends there and then, whatever the service did. */
  function OnLost(s: State, id: nat, task: Task, delivery: Delivery): State {
    if delivery.NotDelivered? then End(s, id)
    else
      match task
      case EmbedTexts(_, _) => End(s, id)
      case IndexInsert(path, _, entry) => End(s.(index := s.index[path := entry]), id)
      case StorageWrite(path, content) => End(s.(files := Apply(s.files, Put(path, content, delivery.fault))), id)
      case UndoInsert(path, _) => End(s.(index := s.index - {path}), id)
      case IndexDelete(path) => End(s.(index := s.index - {path}), id)
      case StorageDelete(path) => End(s.(files := Apply(s.files, Remove(path, true))), id)
  }

  /** Events that do not fit the state change nothing. */
  function Step(s: State, e: Event): State {
    match e
    case StartWrite(id, path, content) => if id in s.tasks then s else Next(s, id, EmbedTexts(path, content))
    case StartDelete(id, path) => if id in s.tasks then s else Next(s, id, IndexDelete(path))
    case Embedded(id, entry) =>
      if id in s.tasks && s.tasks[id].EmbedTexts? then
        Next(s, id, IndexInsert(s.tasks[id].path, s.tasks[id].content, entry))
      else s
    case Works(id) => if id in s.tasks then OnWorks(s, id, s.tasks[id]) else s
    case Fails(id, fault) => if id in s.tasks then OnFails(s, id, s.tasks[id], fault) else s
    case Lost(id, delivery) => if id in s.tasks then OnLost(s, id, s.tasks[id], delivery) else s
    case SynthesisStored(target, name, content, fault) =>
      s.(files := Apply(s.files, Put(SynthesisPath(target, name), content, fault)))
    case SynthesisIndexed(target, name, entry) => s.(index := s.index[SynthesisPath(target, name) := entry])
  }

  function Run(s: State, events: seq<Event>): State {
    if events == [] then s else Step(Run(s, events[..|events| - 1]), events[|events| - 1])
  }

  // ---------------------------------------------------------------------------
  // The invariant
  // ---------------------------------------------------------------------------

  /** A path a memory can be stored under. */
  ghost predicate Raw(path: string) {
    exists u, a, p, f :: ValidUsername(u) && UuidText(a) && RawPath(u, a, p, f) == Path(path)
  }

  /** Paths the invariant speaks of: those of memories whose extension is not `tmp`. */
  ghost predicate Covered(path: string) {
    Raw(path) && !NamedTmp(path)
  }

  predicate Writing(task: Task) {
    task.StorageWrite? || task.UndoInsert?
  }

  /** The index has acted for the request and the storage has not yet, or the undo is still to come. */
  predicate InSection(task: Task) {
    Writing(task) || task.StorageDelete?
  }

  /** No request on `path` is between its index and its storage message. */
  predicate Open(s: State, path: string) {
    forall id | id in s.tasks && s.tasks[id].path == path :: !InSection(s.tasks[id])
  }

  /** An indexed path is stored, and its chunks are those of the stored content. */
  predicate Consistent(cfg: Config, s: State, path: string) {
    path in s.index ==> path in s.files && Indexes(cfg, s.index[path], s.files[path])
  }

  /** The request has still to store what `path` is indexed by, or to take the entry back. */
  predicate Owes(cfg: Config, s: State, task: Task, path: string) {
    && task.path == path && path in s.index
    && (task.UndoInsert? || (task.StorageWrite? && Indexes(cfg, s.index[path], task.content)))
  }

  predicate OwedByOther(cfg: Config, s: State, id: nat, path: string) {
    exists other :: other in s.tasks && other != id && Owes(cfg, s, s.tasks[other], path)
  }

  /** `path` is consistent or a request under way owes it. */
  predicate Settled(cfg: Config, s: State, path: string) {
    Consistent(cfg, s, path) || exists id :: id in s.tasks && Owes(cfg, s, s.tasks[id], path)
  }

  ghost predicate TaskFits(cfg: Config, task: Task) {
    Raw(task.path) && (task.IndexInsert? ==> Indexes(cfg, task.entry, task.content))
  }

  ghost predicate TasksFit(cfg: Config, tasks: map<nat, Task>) {
    forall id | id in tasks :: TaskFits(cfg, tasks[id])
  }

  ghost predicate AllSettled(cfg: Config, s: State) {
    forall path | Covered(path) :: Settled(cfg, s, path)
  }

  ghost predicate Invariant(cfg: Config, s: State) {
    TasksFit(cfg, s.tasks) && AllSettled(cfg, s)
  }

  /** What any event meets: requests are on paths of memories, the embedder has one vector per chunk, and the
      synthesizer writes Markdown files of its own and has them indexed as such. */
  ghost predicate Posed(cfg: Config, s: State, e: Event) {
    match e
    case StartWrite(id, path, _) => id !in s.tasks && Raw(path)
    case StartDelete(id, path) => id !in s.tasks && Raw(path)
    case Embedded(id, entry) => id in s.tasks && s.tasks[id].EmbedTexts? ==> Embeddable(cfg, s.tasks[id].content, entry)
    case SynthesisStored(target, name, _, _) => ValidTarget(target) && Segment(name) && StripMd(name).Some?
    case SynthesisIndexed(target, name, entry) =>
      ValidTarget(target) && Segment(name) && StripMd(name).Some? && entry.source == "synthesized"
    case _ => true
  }

  // ---------------------------------------------------------------------------
  // What other paths notice
  // ---------------------------------------------------------------------------

  lemma RawSolid(path: string)
    requires Raw(path)
    ensures Solid(path)
  {
    var u, a, p, f :| ValidUsername(u) && UuidText(a) && RawPath(u, a, p, f) == Path(path);
    assert UsernameChar(u[0]);
    assert path[0] == u[0];
  }

  /** A write only ever touches its own path and a path with extension `tmp`. */
  lemma PutFrame(files: Files, path: string, content: string, fault: WriteFault, other: string)
    requires Solid(path) && !NamedTmp(other) && other != path
    ensures Lookup(Apply(files, Put(path, content, fault)), other) == Lookup(files, other)
  {
    TmpIsTmp(path);
  }

  lemma SynthesisNotRaw(target: Target, name: string, path: string)
    requires ValidTarget(target) && Segment(name) && Raw(path)
    ensures SynthesisPath(target, name) != path
  {
    var u, a, p, f :| ValidUsername(u) && UuidText(a) && RawPath(u, a, p, f) == Path(path);
    RawNeverSynthesized(u, a, p, f, target, name);
  }

  lemma SynthesisSolid(target: Target, name: string)
    requires ValidTarget(target)
    ensures Solid(SynthesisPath(target, name))
  {
    match target
    case Agent(u, a) => assert UsernameChar(u[0]);
    case User(u) => assert UsernameChar(u[0]);
    case Global =>
  }

  /** Nothing but `path` changed, as far as the invariant can tell. */
  ghost predicate SameElsewhere(s: State, t: State, path: string) {
    forall other | Covered(other) && other != path ::
      Lookup(s.files, other) == Lookup(t.files, other)
      && (other in s.index <==> other in t.index) && (other in s.index ==> s.index[other] == t.index[other])
  }

  /** No request on another path changed. */
  predicate SameTasksElsewhere(s: State, t: State, path: string) {
    && (forall id | id in s.tasks && s.tasks[id].path != path :: id in t.tasks && t.tasks[id] == s.tasks[id])
    && (forall id | id in t.tasks && t.tasks[id].path != path :: id in s.tasks && s.tasks[id] == t.tasks[id])
  }

  lemma SettledStays(cfg: Config, s: State, t: State, path: string, other: string)
    requires SameElsewhere(s, t, path) && SameTasksElsewhere(s, t, path) && Covered(other) && other != path
    ensures Settled(cfg, s, other) ==> Settled(cfg, t, other)
  {
    assert Lookup(s.files, other) == Lookup(t.files, other);
    if id :| id in s.tasks && Owes(cfg, s, s.tasks[id], other) {
      assert Owes(cfg, t, t.tasks[id], other);
    }
  }

  /** Whether the invariant is kept is decided at the path an event is about. */
  lemma KeptAtPath(cfg: Config, s: State, t: State, path: string)
    requires Invariant(cfg, s) && TasksFit(cfg, t.tasks)
    requires SameElsewhere(s, t, path) && SameTasksElsewhere(s, t, path)
    ensures Invariant(cfg, t) <==> (Covered(path) ==> Settled(cfg, t, path))
  {
    forall other | Covered(other) && other != path
      ensures Settled(cfg, t, other)
    {
      assert Settled(cfg, s, other);
      SettledStays(cfg, s, t, path, other);
    }
  }

  lemma StoredElsewhere(s: State, t: State, path: string, content: string, fault: WriteFault)
    requires Solid(path) && t.files == Apply(s.files, Put(path, content, fault)) && t.index == s.index
    ensures SameElsewhere(s, t, path)
  {
    forall other | Covered(other) && other != path
      ensures Lookup(s.files, other) == Lookup(t.files, other)
    {
      PutFrame(s.files, path, content, fault, other);
    }
  }

  lemma IndexedElsewhere(s: State, t: State, path: string)
    requires t.files == s.files
    requires forall other | other != path :: (other in s.index <==> other in t.index)
                                             && (other in s.index ==> s.index[other] == t.index[other])
    ensures SameElsewhere(s, t, path)
  {}

  lemma RemovedElsewhere(s: State, t: State, path: string)
    requires t.files == s.files - {path} && t.index == s.index
    ensures SameElsewhere(s, t, path)
  {}

  /** What is stored has the chunks of `content`. */
  predicate Kept(cfg: Config, s: State, path: string, content: string) {
    path in s.files && SameChunks(cfg, s.files[path], content)
  }

  /** A storage message of the request is harmless when it acts: it stores what is indexed, removes what is not, or
      another request still owes the path. */
  predicate StorageHarmless(cfg: Config, s: State, id: nat)
    requires id in s.tasks
  {
    match s.tasks[id]
    case StorageWrite(path, content) =>
      path in s.index ==> Indexes(cfg, s.index[path], content) || OwedByOther(cfg, s, id, path)
    case StorageDelete(path) => path in s.index ==> OwedByOther(cfg, s, id, path)
    case _ => true
  }

  /** A request may end here: its path does not need it any more. */
  predicate EndHarmless(cfg: Config, s: State, id: nat)
    requires id in s.tasks
  {
    Consistent(cfg, s, s.tasks[id].path) || OwedByOther(cfg, s, id, s.tasks[id].path)
  }

  /** An index insert may act without its request going on. */
  predicate InsertHarmless(cfg: Config, s: State, id: nat)
    requires id in s.tasks && s.tasks[id].IndexInsert?
  {
    var path, content := s.tasks[id].path, s.tasks[id].content;
    Kept(cfg, s, path, content) || StoredByOther(cfg, s, id, path, content)
  }

  /** Another request has still to store the same chunks at `path`, or to take its entry back. */
  predicate StoredByOther(cfg: Config, s: State, id: nat, path: string, content: string) {
    exists other :: other in s.tasks && other != id && s.tasks[other].path == path
                    && (s.tasks[other].UndoInsert?
                        || (s.tasks[other].StorageWrite? && SameChunks(cfg, s.tasks[other].content, content)))
  }

  predicate SameChunks(cfg: Config, a: string, b: string) {
    Chunks(a, cfg.chunkSize, cfg.overlap) == Chunks(b, cfg.chunkSize, cfg.overlap)
  }

  // ---------------------------------------------------------------------------
  // What each event leaves at its path
  // ---------------------------------------------------------------------------

  /** A request that goes on, or begins, on its path. */
  lemma NextFits(cfg: Config, s: State, t: State, id: nat, task: Task)
    requires TasksFit(cfg, s.tasks) && TaskFits(cfg, task) && (id in s.tasks ==> s.tasks[id].path == task.path)
    requires t.tasks == s.tasks[id := task]
    ensures TasksFit(cfg, t.tasks) && SameTasksElsewhere(s, t, task.path)
  {}

  lemma EndFits(cfg: Config, s: State, t: State, id: nat)
    requires TasksFit(cfg, s.tasks) && id in s.tasks && t.tasks == s.tasks - {id}
    ensures TasksFit(cfg, t.tasks) && SameTasksElsewhere(s, t, s.tasks[id].path)
  {}

  /** What the path is owed when the request has ended; `u` is the state after its last effect. */
  lemma EndedIff(cfg: Config, u: State, t: State, id: nat, path: string)
    requires t.tasks == u.tasks - {id} && t.index == u.index
    ensures Settled(cfg, t, path) <==> Consistent(cfg, t, path) || OwedByOther(cfg, u, id, path)
  {
    if other :| other in u.tasks && other != id && Owes(cfg, u, u.tasks[other], path) {
      assert Owes(cfg, t, t.tasks[other], path);
    }
    if other :| other in t.tasks && Owes(cfg, t, t.tasks[other], path) {
      assert Owes(cfg, u, u.tasks[other], path);
    }
  }

  lemma EndKeepsIff(cfg: Config, s: State, u: State, t: State, id: nat)
    requires Invariant(cfg, s) && id in s.tasks && u.tasks == s.tasks
    requires t.tasks == u.tasks - {id} && t.index == u.index && SameElsewhere(s, t, s.tasks[id].path)
    ensures var path := s.tasks[id].path;
            Invariant(cfg, t) <==> (Covered(path) ==> Consistent(cfg, t, path) || OwedByOther(cfg, u, id, path))
  {
    EndFits(cfg, s, t, id);
    KeptAtPath(cfg, s, t, s.tasks[id].path);
    EndedIff(cfg, u, t, id, s.tasks[id].path);
  }

  /** A request that ends without having done anything more. */
  lemma QuitIff(cfg: Config, s: State, id: nat)
    requires Invariant(cfg, s) && id in s.tasks
    ensures Invariant(cfg, End(s, id)) <==> (Covered(s.tasks[id].path) ==> EndHarmless(cfg, s, id))
  {
    IndexedElsewhere(s, End(s, id), s.tasks[id].path);
    EndKeepsIff(cfg, s, s, End(s, id), id);
  }

  /** Before its section a request owes nothing. */
  lemma QuitKeeps(cfg: Config, s: State, id: nat)
    requires Invariant(cfg, s) && id in s.tasks && !Writing(s.tasks[id])
    ensures Invariant(cfg, End(s, id))
  {
    var path := s.tasks[id].path;
    QuitIff(cfg, s, id);
    if Covered(path) {
      assert Settled(cfg, s, path);
      if other :| other in s.tasks && Owes(cfg, s, s.tasks[other], path) {
        assert other != id;
      }
    }
  }

  lemma StoredIff(cfg: Config, s: State, id: nat)
    requires Invariant(cfg, s) && id in s.tasks && s.tasks[id].StorageWrite?
    ensures Invariant(cfg, OnWorks(s, id, s.tasks[id])) <==> (Covered(s.tasks[id].path) ==> StorageHarmless(cfg, s, id))
  {
    var path, content, t := s.tasks[id].path, s.tasks[id].content, OnWorks(s, id, s.tasks[id]);
    RawSolid(path);
    StoredElsewhere(s, t, path, content, NoFault);
    EndKeepsIff(cfg, s, s, t, id);
  }

  lemma RemoveStep(s: State, id: nat)
    requires id in s.tasks && s.tasks[id].StorageDelete?
    ensures OnWorks(s, id, s.tasks[id]) == State(s.files - {s.tasks[id].path}, s.index, s.tasks - {id})
  {}

  lemma RemovedIff(cfg: Config, s: State, id: nat)
    requires Invariant(cfg, s) && id in s.tasks && s.tasks[id].StorageDelete?
    ensures Invariant(cfg, OnWorks(s, id, s.tasks[id])) <==> (Covered(s.tasks[id].path) ==> StorageHarmless(cfg, s, id))
  {
    RemoveStep(s, id);
    var path := s.tasks[id].path;
    var t := State(s.files - {path}, s.index, s.tasks - {id});
    RemovedElsewhere(s, t, path);
    EndKeepsIff(cfg, s, s, t, id);
  }

  lemma InsertKeeps(cfg: Config, s: State, id: nat)
    requires Invariant(cfg, s) && id in s.tasks && s.tasks[id].IndexInsert?
    ensures Invariant(cfg, OnWorks(s, id, s.tasks[id]))
  {
    var task, t := s.tasks[id], OnWorks(s, id, s.tasks[id]);
    NextFits(cfg, s, t, id, StorageWrite(task.path, task.content));
    IndexedElsewhere(s, t, task.path);
    KeptAtPath(cfg, s, t, task.path);
    assert Owes(cfg, t, t.tasks[id], task.path);
  }

  /** Without an entry nothing can be wrong with a path. */
  lemma UnindexedKeeps(cfg: Config, s: State, t: State, path: string)
    requires Invariant(cfg, s) && TasksFit(cfg, t.tasks) && SameTasksElsewhere(s, t, path)
    requires t.files == s.files && t.index == s.index - {path}
    ensures Invariant(cfg, t)
  {
    IndexedElsewhere(s, t, path);
    KeptAtPath(cfg, s, t, path);
  }

  lemma DeleteKeeps(cfg: Config, s: State, id: nat)
    requires Invariant(cfg, s) && id in s.tasks && (s.tasks[id].IndexDelete? || s.tasks[id].UndoInsert?)
    ensures Invariant(cfg, OnWorks(s, id, s.tasks[id]))
    ensures Invariant(cfg, End(s.(index := s.index - {s.tasks[id].path}), id))
  {
    var task, t := s.tasks[id], OnWorks(s, id, s.tasks[id]);
    var ended := End(s.(index := s.index - {task.path}), id);
    EndFits(cfg, s, ended, id);
    UnindexedKeeps(cfg, s, ended, task.path);
    if task.IndexDelete? {
      NextFits(cfg, s, t, id, StorageDelete(task.path));
      UnindexedKeeps(cfg, s, t, task.path);
    }
  }

  lemma StoredNothing(files: Files, path: string, content: string, fault: WriteFault)
    requires Solid(path) && !NamedTmp(path) && fault != NoFault
    ensures Lookup(Apply(files, Put(path, content, fault)), path) == Lookup(files, path)
  {
    WriteResult(files, path, content, fault);
  }

  lemma StoreFailsKeeps(cfg: Config, s: State, id: nat, fault: WriteFault)
    requires Invariant(cfg, s) && id in s.tasks && s.tasks[id].StorageWrite? && fault != NoFault
    ensures Invariant(cfg, OnFails(s, id, s.tasks[id], fault))
  {
    var path, content, t := s.tasks[id].path, s.tasks[id].content, OnFails(s, id, s.tasks[id], fault);
    RawSolid(path);
    StoredElsewhere(s, t, path, content, fault);
    NextFits(cfg, s, t, id, UndoInsert(path, content));
    KeptAtPath(cfg, s, t, path);
    if path in t.index { assert Owes(cfg, t, t.tasks[id], path); }
  }

  lemma SameConsistent(cfg: Config, s: State, t: State, path: string)
    requires Lookup(s.files, path) == Lookup(t.files, path) && s.index == t.index
    ensures Consistent(cfg, s, path) <==> Consistent(cfg, t, path)
  {}

  lemma StoreLostIff(cfg: Config, s: State, id: nat, fault: WriteFault)
    requires Invariant(cfg, s) && id in s.tasks && s.tasks[id].StorageWrite? && fault != NoFault
    ensures Invariant(cfg, OnLost(s, id, s.tasks[id], Acted(fault)))
            <==> (Covered(s.tasks[id].path) ==> EndHarmless(cfg, s, id))
  {
    var path, content, t := s.tasks[id].path, s.tasks[id].content, OnLost(s, id, s.tasks[id], Acted(fault));
    RawSolid(path);
    StoredElsewhere(s, t, path, content, fault);
    EndKeepsIff(cfg, s, s, t, id);
    if Covered(path) {
      StoredNothing(s.files, path, content, fault);
      SameConsistent(cfg, s, t, path);
    }
  }

  lemma IndexedOwedIff(cfg: Config, s: State, u: State, id: nat, path: string, content: string, entry: I.Entry)
    requires u == s.(index := s.index[path := entry]) && Indexes(cfg, entry, content)
    ensures OwedByOther(cfg, u, id, path) <==> StoredByOther(cfg, s, id, path, content)
    ensures Consistent(cfg, u, path) <==> Kept(cfg, s, path, content)
  {
    if other :| other in s.tasks && other != id && s.tasks[other].path == path &&
                (s.tasks[other].UndoInsert?
                 || (s.tasks[other].StorageWrite? && SameChunks(cfg, s.tasks[other].content, content))) {
      assert Owes(cfg, u, u.tasks[other], path);
    }
  }

  lemma LostInsertStep(s: State, id: nat, fault: WriteFault, u: State)
    requires id in s.tasks && s.tasks[id].IndexInsert?
    requires u == s.(index := s.index[s.tasks[id].path := s.tasks[id].entry])
    ensures OnLost(s, id, s.tasks[id], Acted(fault)) == End(u, id)
  {}

  lemma InsertLostIff(cfg: Config, s: State, id: nat, fault: WriteFault)
    requires Invariant(cfg, s) && id in s.tasks && s.tasks[id].IndexInsert?
    ensures Invariant(cfg, OnLost(s, id, s.tasks[id], Acted(fault)))
            <==> (Covered(s.tasks[id].path) ==> InsertHarmless(cfg, s, id))
  {
    var task := s.tasks[id];
    var u := s.(index := s.index[task.path := task.entry]);
    LostInsertStep(s, id, fault, u);
    IndexedElsewhere(s, End(u, id), task.path);
    EndKeepsIff(cfg, s, u, End(u, id), id);
    assert TaskFits(cfg, task);
    IndexedOwedIff(cfg, s, u, id, task.path, task.content, task.entry);
    SameConsistent(cfg, u, End(u, id), task.path);
  }

  // ---------------------------------------------------------------------------
  // Exactly which events keep the invariant
  // ---------------------------------------------------------------------------

  /** Events that cannot leave an entry no request answers for. */
  ghost predicate Harmless(cfg: Config, s: State, e: Event) {
    match e
    case Works(id) => id in s.tasks && Covered(s.tasks[id].path) ==> StorageHarmless(cfg, s, id)
    case Fails(id, _) =>
      id in s.tasks && s.tasks[id].UndoInsert? && Covered(s.tasks[id].path) ==> EndHarmless(cfg, s, id)
    case Lost(id, delivery) =>
      id in s.tasks && Covered(s.tasks[id].path) ==>
        if s.tasks[id].IndexInsert? && delivery.Acted? then InsertHarmless(cfg, s, id)
        else if (s.tasks[id].UndoInsert? && delivery.NotDelivered?)
             || (s.tasks[id].StorageWrite? && delivery != Acted(NoFault)) then EndHarmless(cfg, s, id)
        else delivery.Acted? ==> StorageHarmless(cfg, s, id)
    case _ => true
  }

  lemma WorksIff(cfg: Config, s: State, id: nat)
    requires Invariant(cfg, s) && id in s.tasks
    ensures Invariant(cfg, OnWorks(s, id, s.tasks[id])) <==> Harmless(cfg, s, Works(id))
  {
    match s.tasks[id]
    case EmbedTexts(_, _) =>
    case IndexInsert(_, _, _) => InsertKeeps(cfg, s, id);
    case StorageWrite(_, _) => StoredIff(cfg, s, id);
    case UndoInsert(_, _) => DeleteKeeps(cfg, s, id);
    case IndexDelete(_) => DeleteKeeps(cfg, s, id);
    case StorageDelete(_) => RemovedIff(cfg, s, id);
  }

  lemma FailsIff(cfg: Config, s: State, id: nat, fault: WriteFault)
    requires Invariant(cfg, s) && id in s.tasks
    ensures Invariant(cfg, OnFails(s, id, s.tasks[id], fault)) <==> Harmless(cfg, s, Fails(id, fault))
  {
    if s.tasks[id].UndoInsert? {
      QuitIff(cfg, s, id);
    } else if !s.tasks[id].StorageWrite? {
      QuitKeeps(cfg, s, id);
    } else if fault != NoFault {
      StoreFailsKeeps(cfg, s, id, fault);
    }
  }

  /** Where an action is the last of its request, losing its answer makes no difference. */
  lemma ActedIsWorks(s: State, id: nat, fault: WriteFault)
    requires id in s.tasks && InSection(s.tasks[id]) && (s.tasks[id].StorageWrite? ==> fault == NoFault)
    ensures OnLost(s, id, s.tasks[id], Acted(fault)) == OnWorks(s, id, s.tasks[id])
  {}

  lemma ActedIff(cfg: Config, s: State, id: nat, fault: WriteFault)
    requires Invariant(cfg, s) && id in s.tasks
    ensures Invariant(cfg, OnLost(s, id, s.tasks[id], Acted(fault))) <==> Harmless(cfg, s, Lost(id, Acted(fault)))
  {
    match s.tasks[id]
    case EmbedTexts(_, _) => QuitKeeps(cfg, s, id);
    case IndexInsert(_, _, _) => InsertLostIff(cfg, s, id, fault);
    case IndexDelete(_) => DeleteKeeps(cfg, s, id);
    case _ =>
      if s.tasks[id].StorageWrite? && fault != NoFault {
        StoreLostIff(cfg, s, id, fault);
      } else {
        ActedIsWorks(s, id, fault);
        WorksIff(cfg, s, id);
      }
  }

  lemma UndeliveredIff(cfg: Config, s: State, id: nat)
    requires Invariant(cfg, s) && id in s.tasks
    ensures Invariant(cfg, End(s, id)) <==> Harmless(cfg, s, Lost(id, NotDelivered))
  {
    if Writing(s.tasks[id]) { QuitIff(cfg, s, id); } else { QuitKeeps(cfg, s, id); }
  }

  lemma LostIff(cfg: Config, s: State, id: nat, delivery: Delivery)
    requires Invariant(cfg, s) && id in s.tasks
    ensures Invariant(cfg, OnLost(s, id, s.tasks[id], delivery)) <==> Harmless(cfg, s, Lost(id, delivery))
  {
    match delivery
    case NotDelivered => UndeliveredIff(cfg, s, id);
    case Acted(fault) => ActedIff(cfg, s, id, fault);
  }

  lemma OwedGoesOn(cfg: Config, s: State, t: State, path: string)
    requires Settled(cfg, s, path) && t.files == s.files && t.index == s.index
    requires forall id | id in s.tasks && InSection(s.tasks[id]) :: id in t.tasks && t.tasks[id] == s.tasks[id]
    ensures Settled(cfg, t, path)
  {
    if id :| id in s.tasks && Owes(cfg, s, s.tasks[id], path) {
      assert Owes(cfg, t, t.tasks[id], path);
    }
  }

  /** A request that begins, or goes on before its section. */
  lemma EarlyKeeps(cfg: Config, s: State, id: nat, task: Task)
    requires Invariant(cfg, s) && TaskFits(cfg, task) && !InSection(task)
    requires id in s.tasks ==> s.tasks[id].path == task.path && !InSection(s.tasks[id])
    ensures Invariant(cfg, Next(s, id, task))
  {
    var t, path := Next(s, id, task), task.path;
    NextFits(cfg, s, t, id, task);
    IndexedElsewhere(s, t, path);
    KeptAtPath(cfg, s, t, path);
    if Covered(path) { OwedGoesOn(cfg, s, t, path); }
  }

  lemma EmbeddedKeeps(cfg: Config, s: State, id: nat, entry: I.Entry)
    requires Invariant(cfg, s) && id in s.tasks && s.tasks[id].EmbedTexts?
             && Embeddable(cfg, s.tasks[id].content, entry)
    ensures Invariant(cfg, Step(s, Embedded(id, entry)))
  {
    EmbeddableIndexes(cfg, s.tasks[id].content, entry);
    assert TaskFits(cfg, s.tasks[id]);
    EarlyKeeps(cfg, s, id, IndexInsert(s.tasks[id].path, s.tasks[id].content, entry));
  }

  lemma SynthesisKeeps(cfg: Config, s: State, e: Event)
    requires Invariant(cfg, s) && Posed(cfg, s, e) && (e.SynthesisStored? || e.SynthesisIndexed?)
    ensures Invariant(cfg, Step(s, e))
  {
    var t, path := Step(s, e), SynthesisPath(e.target, e.name);
    assert !Raw(path) by { if Raw(path) { SynthesisNotRaw(e.target, e.name, path); } }
    if e.SynthesisStored? {
      SynthesisSolid(e.target, e.name);
      StoredElsewhere(s, t, path, e.content, e.fault);
    } else {
      IndexedElsewhere(s, t, path);
    }
    KeptAtPath(cfg, s, t, path);
  }

  /** Whatever is under way, on one path or several, and whatever fails or is lost: an event keeps the invariant exactly
      if it is harmless. */
  lemma StepKeepsIff(cfg: Config, s: State, e: Event)
    requires Invariant(cfg, s) && Posed(cfg, s, e)
    ensures Invariant(cfg, Step(s, e)) <==> Harmless(cfg, s, e)
  {
    match e
    case StartWrite(id, path, content) => EarlyKeeps(cfg, s, id, EmbedTexts(path, content));
    case StartDelete(id, path) => EarlyKeeps(cfg, s, id, IndexDelete(path));
    case Embedded(id, entry) => if id in s.tasks && s.tasks[id].EmbedTexts? { EmbeddedKeeps(cfg, s, id, entry); }
    case Works(id) => if id in s.tasks { WorksIff(cfg, s, id); }
    case Fails(id, fault) => if id in s.tasks { FailsIff(cfg, s, id, fault); }
    case Lost(id, delivery) => if id in s.tasks { LostIff(cfg, s, id, delivery); }
    case SynthesisStored(_, _, _, _) => SynthesisKeeps(cfg, s, e);
    case SynthesisIndexed(_, _, _) => SynthesisKeeps(cfg, s, e);
  }

  const START: State := State(map[], map[], map[])

  ghost predicate PosedRun(cfg: Config, s: State, events: seq<Event>) {
    events == []
    || (var n := |events| - 1; PosedRun(cfg, s, events[..n]) && Posed(cfg, Run(s, events[..n]), events[n]))
  }

  ghost predicate HarmlessRun(cfg: Config, s: State, events: seq<Event>) {
    events == []
    || (var n := |events| - 1; HarmlessRun(cfg, s, events[..n]) && Harmless(cfg, Run(s, events[..n]), events[n]))
  }

  /** The invariant holds before and after each event. */
  ghost predicate StaysInvariant(cfg: Config, s: State, events: seq<Event>) {
    Invariant(cfg, Run(s, events)) && (events == [] || StaysInvariant(cfg, s, events[..|events| - 1]))
  }

  /** So it holds all through a run exactly if each event is harmless when it comes. */
  lemma {:induction false} RunKeepsIff(cfg: Config, s: State, events: seq<Event>)
    requires Invariant(cfg, s) && PosedRun(cfg, s, events)
    ensures StaysInvariant(cfg, s, events) <==> HarmlessRun(cfg, s, events)
  {
    if events != [] {
      var n := |events| - 1;
      var before := Run(s, events[..n]);
      RunKeepsIff(cfg, s, events[..n]);
      if Invariant(cfg, before) { StepKeepsIff(cfg, before, events[n]); }
    }
  }

  /** Where no request is between its messages, nothing is owed. */
  lemma OpenIsConsistent(cfg: Config, s: State, path: string)
    requires Invariant(cfg, s) && Covered(path) && Open(s, path)
    ensures Consistent(cfg, s, path)
  {
    assert Settled(cfg, s, path);
  }

  /** An answer to request `id`, or the loss of one. */
  predicate About(e: Event, id: nat) {
    (e.Works? || e.Fails? || e.Lost?) && e.id == id
  }

  lemma WorksIsLocal(cfg: Config, s: State, id: nat)
    requires TasksFit(cfg, s.tasks) && id in s.tasks
    ensures SameElsewhere(s, OnWorks(s, id, s.tasks[id]), s.tasks[id].path)
  {
    var t := OnWorks(s, id, s.tasks[id]);
    assert TaskFits(cfg, s.tasks[id]);
    match s.tasks[id]
    case StorageWrite(path, content) =>
      RawSolid(path);
      StoredElsewhere(s, t, path, content, NoFault);
    case StorageDelete(path) =>
      RemoveStep(s, id);
      RemovedElsewhere(s, t, path);
    case _ => IndexedElsewhere(s, t, s.tasks[id].path);
  }

  lemma FailsIsLocal(cfg: Config, s: State, id: nat, fault: WriteFault)
    requires TasksFit(cfg, s.tasks) && id in s.tasks
    ensures SameElsewhere(s, OnFails(s, id, s.tasks[id], fault), s.tasks[id].path)
  {
    var t := OnFails(s, id, s.tasks[id], fault);
    assert TaskFits(cfg, s.tasks[id]);
    if s.tasks[id].StorageWrite? && fault != NoFault {
      RawSolid(s.tasks[id].path);
      StoredElsewhere(s, t, s.tasks[id].path, s.tasks[id].content, fault);
    } else {
      IndexedElsewhere(s, t, s.tasks[id].path);
    }
  }

  lemma LostIsLocal(cfg: Config, s: State, id: nat, delivery: Delivery)
    requires TasksFit(cfg, s.tasks) && id in s.tasks
    ensures SameElsewhere(s, OnLost(s, id, s.tasks[id], delivery), s.tasks[id].path)
  {
    var t := OnLost(s, id, s.tasks[id], delivery);
    assert TaskFits(cfg, s.tasks[id]);
    if delivery.Acted? && s.tasks[id].StorageWrite? {
      RawSolid(s.tasks[id].path);
      StoredElsewhere(s, t, s.tasks[id].path, s.tasks[id].content, delivery.fault);
    } else if delivery.Acted? && s.tasks[id].StorageDelete? {
      RemovedElsewhere(s, t, s.tasks[id].path);
    } else {
      IndexedElsewhere(s, t, s.tasks[id].path);
    }
  }

  lemma TaskAfter(s: State, e: Event, id: nat)
    requires id in s.tasks && About(e, id)
    ensures var tasks := Step(s, e).tasks;
            || tasks == s.tasks - {id}
            || (id in tasks && tasks == s.tasks[id := tasks[id]] && tasks[id].path == s.tasks[id].path
                && (tasks[id].IndexInsert? ==> tasks[id] == s.tasks[id]))
  {}

  lemma OtherTasksStay(cfg: Config, s: State, e: Event, id: nat)
    requires TasksFit(cfg, s.tasks) && id in s.tasks && About(e, id)
    ensures TasksFit(cfg, Step(s, e).tasks) && SameTasksElsewhere(s, Step(s, e), s.tasks[id].path)
  {
    var t := Step(s, e);
    TaskAfter(s, e, id);
    assert TaskFits(cfg, s.tasks[id]);
    if id in t.tasks { NextFits(cfg, s, t, id, t.tasks[id]); } else { EndFits(cfg, s, t, id); }
  }

  lemma AboutIsLocal(cfg: Config, s: State, e: Event, id: nat)
    requires TasksFit(cfg, s.tasks) && id in s.tasks && About(e, id)
    ensures SameElsewhere(s, Step(s, e), s.tasks[id].path)
  {
    match e
    case Works(_) => WorksIsLocal(cfg, s, id);
    case Fails(_, fault) => FailsIsLocal(cfg, s, id, fault);
    case Lost(_, delivery) => LostIsLocal(cfg, s, id, delivery);
  }

  /** When an event leaves no request between its messages on a path, the path is consistent exactly if the event was
      harmless. */
  lemma LastEventIff(cfg: Config, s: State, e: Event, id: nat)
    requires Invariant(cfg, s) && id in s.tasks && About(e, id)
    requires Covered(s.tasks[id].path) && Open(Step(s, e), s.tasks[id].path)
    ensures Consistent(cfg, Step(s, e), s.tasks[id].path) <==> Harmless(cfg, s, e)
  {
    var t, path := Step(s, e), s.tasks[id].path;
    OtherTasksStay(cfg, s, e, id);
    AboutIsLocal(cfg, s, e, id);
    KeptAtPath(cfg, s, t, path);
    StepKeepsIff(cfg, s, e);
    if Settled(cfg, t, path) { OpenSettled(cfg, t, path); }
  }

  lemma OpenSettled(cfg: Config, t: State, path: string)
    requires Settled(cfg, t, path) && Open(t, path)
    ensures Consistent(cfg, t, path)
  {}

  // ---------------------------------------------------------------------------
  // A discipline under which every event is harmless
  // ---------------------------------------------------------------------------

  /** Which of the assumptions are given up: an index insert waits until no request on its path is between its messages,
      undoing works, no storage message is lost, no answer to an index insert is lost; `tmp` asks the same for memories
      with extension `tmp`. */
  datatype Relaxed = Relaxed(overlap: bool, undoFails: bool, storeLost: bool, insertAnswerLost: bool, tmp: bool)

  const STRICT: Relaxed := Relaxed(false, false, false, false, false)

  /** The events admitted: any other message may fail or be lost. */
  ghost predicate Admits(r: Relaxed, cfg: Config, s: State, e: Event) {
    && Posed(cfg, s, e)
    && match e
       case Works(id) => id in s.tasks && s.tasks[id].IndexInsert? ==> r.overlap || Open(s, s.tasks[id].path)
       case Fails(id, _) => id in s.tasks && s.tasks[id].UndoInsert? ==> r.undoFails
       case Lost(id, delivery) =>
         id in s.tasks ==>
           && (s.tasks[id].UndoInsert? && delivery == NotDelivered ==> r.undoFails)
           && (s.tasks[id].StorageWrite? && delivery != Acted(NoFault) ==> r.storeLost)
           && (s.tasks[id].IndexInsert? && delivery != NotDelivered ==>
                 r.insertAnswerLost && (r.overlap || Open(s, s.tasks[id].path)))
       case _ => true
  }

  ghost predicate Serial(cfg: Config, s: State, e: Event) {
    Admits(STRICT, cfg, s, e)
  }

  /** In its section a write finds the entry it made or none, and a delete finds none. */
  predicate SectionHolds(cfg: Config, s: State, task: Task) {
    match task
    case StorageWrite(path, content) => path in s.index ==> Indexes(cfg, s.index[path], content)
    case UndoInsert(path, content) => path in s.index ==> Indexes(cfg, s.index[path], content)
    case StorageDelete(path) => path !in s.index
    case _ => true
  }

  predicate OneWriting(tasks: map<nat, Task>) {
    forall id, other | id in tasks && other in tasks && id != other && Writing(tasks[id]) && Writing(tasks[other]) ::
      tasks[id].path != tasks[other].path
  }

  predicate Sections(cfg: Config, s: State) {
    OneWriting(s.tasks) && forall id | id in s.tasks :: SectionHolds(cfg, s, s.tasks[id])
  }

  /** Requests that end, go on within their section or have not come to it. */
  lemma SectionsStay(cfg: Config, s: State, t: State)
    requires Sections(cfg, s) && t.index == s.index
    requires forall id | id in t.tasks && InSection(t.tasks[id]) ::
               && id in s.tasks && s.tasks[id].path == t.tasks[id].path
               && (t.tasks[id] == s.tasks[id]
                   || (t.tasks[id].UndoInsert? && s.tasks[id].StorageWrite?
                       && t.tasks[id].content == s.tasks[id].content))
    ensures Sections(cfg, t)
  {
    forall id | id in t.tasks
      ensures SectionHolds(cfg, t, t.tasks[id])
    {
      if InSection(t.tasks[id]) { assert SectionHolds(cfg, s, s.tasks[id]); }
    }
  }

  /** An entry that goes takes nothing from any section. */
  lemma SectionsWithout(cfg: Config, s: State, t: State, id: nat, path: string)
    requires Sections(cfg, s) && t.index == s.index - {path}
    requires t.tasks == s.tasks - {id} || t.tasks == s.tasks[id := StorageDelete(path)]
    ensures Sections(cfg, t)
  {
    forall other | other in t.tasks
      ensures SectionHolds(cfg, t, t.tasks[other])
    {
      if other in s.tasks { assert SectionHolds(cfg, s, s.tasks[other]); }
    }
  }

  /** An entry that comes meets no section. */
  lemma SectionsWith(cfg: Config, s: State, t: State, id: nat)
    requires Sections(cfg, s) && id in s.tasks && s.tasks[id].IndexInsert? && TaskFits(cfg, s.tasks[id])
    requires Open(s, s.tasks[id].path) && t == OnWorks(s, id, s.tasks[id])
    ensures Sections(cfg, t)
  {
    forall other | other in t.tasks
      ensures SectionHolds(cfg, t, t.tasks[other])
    {
      if other != id { assert SectionHolds(cfg, s, s.tasks[other]); }
    }
  }

  lemma SynthesisSections(cfg: Config, s: State, e: Event)
    requires Sections(cfg, s) && TasksFit(cfg, s.tasks) && Posed(cfg, s, e) && e.SynthesisIndexed?
    ensures Sections(cfg, Step(s, e))
  {
    var t := Step(s, e);
    forall id | id in t.tasks
      ensures SectionHolds(cfg, t, t.tasks[id])
    {
      assert TaskFits(cfg, s.tasks[id]) && SectionHolds(cfg, s, s.tasks[id]);
      SynthesisNotRaw(e.target, e.name, s.tasks[id].path);
    }
  }

  lemma WorksSections(cfg: Config, s: State, id: nat)
    requires Sections(cfg, s) && TasksFit(cfg, s.tasks) && id in s.tasks && Serial(cfg, s, Works(id))
    ensures Sections(cfg, OnWorks(s, id, s.tasks[id]))
  {
    var task, t := s.tasks[id], OnWorks(s, id, s.tasks[id]);
    match task
    case IndexInsert(_, _, _) =>
      assert TaskFits(cfg, task);
      SectionsWith(cfg, s, t, id);
    case UndoInsert(path, _) => SectionsWithout(cfg, s, t, id, path);
    case IndexDelete(path) => SectionsWithout(cfg, s, t, id, path);
    case _ => SectionsStay(cfg, s, t);
  }

  lemma LostSections(cfg: Config, s: State, id: nat, delivery: Delivery)
    requires Sections(cfg, s) && id in s.tasks && Serial(cfg, s, Lost(id, delivery))
    ensures Sections(cfg, OnLost(s, id, s.tasks[id], delivery))
  {
    var task, t := s.tasks[id], OnLost(s, id, s.tasks[id], delivery);
    if delivery.Acted? && (task.UndoInsert? || task.IndexDelete?) {
      SectionsWithout(cfg, s, t, id, task.path);
    } else {
      SectionsStay(cfg, s, t);
    }
  }

  lemma FailsSections(cfg: Config, s: State, id: nat, fault: WriteFault)
    requires Sections(cfg, s) && id in s.tasks
    ensures Sections(cfg, OnFails(s, id, s.tasks[id], fault))
  {
    SectionsStay(cfg, s, OnFails(s, id, s.tasks[id], fault));
  }

  lemma NextSections(cfg: Config, s: State, id: nat, task: Task)
    requires Sections(cfg, s) && !InSection(task)
    ensures Sections(cfg, Next(s, id, task))
  {
    SectionsStay(cfg, s, Next(s, id, task));
  }

  lemma SerialKeepsSections(cfg: Config, s: State, e: Event)
    requires Sections(cfg, s) && TasksFit(cfg, s.tasks) && Serial(cfg, s, e)
    ensures Sections(cfg, Step(s, e))
  {
    match e
    case StartWrite(id, path, content) => NextSections(cfg, s, id, EmbedTexts(path, content));
    case StartDelete(id, path) => NextSections(cfg, s, id, IndexDelete(path));
    case Embedded(id, entry) =>
      if id in s.tasks && s.tasks[id].EmbedTexts? {
        NextSections(cfg, s, id, IndexInsert(s.tasks[id].path, s.tasks[id].content, entry));
      }
    case Works(id) => if id in s.tasks { WorksSections(cfg, s, id); }
    case Fails(id, fault) => if id in s.tasks { FailsSections(cfg, s, id, fault); }
    case Lost(id, delivery) => if id in s.tasks { LostSections(cfg, s, id, delivery); }
    case SynthesisStored(_, _, _, _) =>
    case SynthesisIndexed(_, _, _) => SynthesisSections(cfg, s, e);
  }

  lemma SerialIsHarmless(cfg: Config, s: State, e: Event)
    requires Sections(cfg, s) && Serial(cfg, s, e)
    ensures Harmless(cfg, s, e)
  {
    match e
    case Works(id) => if id in s.tasks { assert SectionHolds(cfg, s, s.tasks[id]); }
    case Lost(id, _) => if id in s.tasks { assert SectionHolds(cfg, s, s.tasks[id]); }
    case _ =>
  }

  lemma StepKeeps(cfg: Config, s: State, e: Event)
    requires Invariant(cfg, s) && Sections(cfg, s) && Serial(cfg, s, e)
    ensures Invariant(cfg, Step(s, e)) && Sections(cfg, Step(s, e))
  {
    SerialIsHarmless(cfg, s, e);
    StepKeepsIff(cfg, s, e);
    SerialKeepsSections(cfg, s, e);
  }

  /** Each event of the run is admitted. */
  ghost predicate AdmittedRun(r: Relaxed, cfg: Config, s: State, events: seq<Event>) {
    events == []
    || (var n := |events| - 1; AdmittedRun(r, cfg, s, events[..n]) && Admits(r, cfg, Run(s, events[..n]), events[n]))
  }

  ghost predicate SerialRun(cfg: Config, s: State, events: seq<Event>) {
    AdmittedRun(STRICT, cfg, s, events)
  }

  lemma {:induction false} RunKeeps(cfg: Config, s: State, events: seq<Event>)
    requires Invariant(cfg, s) && Sections(cfg, s) && SerialRun(cfg, s, events)
    ensures Invariant(cfg, Run(s, events)) && Sections(cfg, Run(s, events))
  {
    if events != [] {
      var n := |events| - 1;
      RunKeeps(cfg, s, events[..n]);
      StepKeeps(cfg, Run(s, events[..n]), events[n]);
    }
  }

  /** In every interleaving, requests on one path included as long as an index insert waits for the requests between
      their messages, and with failures anywhere: a memory no request is between its messages on, and whose extension
      is not `tmp`, is stored if it is indexed, and is indexed by exactly the chunks of what is stored. */
  lemma IndexedIsStored(cfg: Config, events: seq<Event>, path: string)
    requires SerialRun(cfg, START, events) && Covered(path) && Open(Run(START, events), path)
    ensures Consistent(cfg, Run(START, events), path)
  {
    RunKeeps(cfg, START, events);
    OpenIsConsistent(cfg, Run(START, events), path);
  }

  // ---------------------------------------------------------------------------
  // Memories and summaries told apart
  // ---------------------------------------------------------------------------

  /** Memories are indexed as raw, and nothing else is. */
  ghost predicate Labelled(s: State) {
    && (forall path | path in s.index :: s.index[path].source == if Raw(path) then "raw" else "synthesized")
    && forall id | id in s.tasks ::
         Raw(s.tasks[id].path) && (s.tasks[id].IndexInsert? ==> s.tasks[id].entry.source == "raw")
  }

  lemma EmbeddableIsRaw(cfg: Config, content: string, e: I.Entry)
    requires Embeddable(cfg, content, e)
    ensures e.source == "raw" && e.size == ByteLen(content)
  {}

  lemma TaskLabels(s: State, id: nat, t: State)
    requires Labelled(s) && id in s.tasks
    requires || t.tasks == s.tasks - {id} || t.tasks == s.tasks
             || exists task: Task ::
                  !task.IndexInsert? && task.path == s.tasks[id].path && t.tasks == s.tasks[id := task]
    requires t.index == s.index || t.index == s.index - {s.tasks[id].path}
             || (s.tasks[id].IndexInsert? && t.index == s.index[s.tasks[id].path := s.tasks[id].entry])
    ensures Labelled(t)
  {}

  lemma WorksLabels(s: State, id: nat)
    requires Labelled(s) && id in s.tasks
    ensures Labelled(OnWorks(s, id, s.tasks[id]))
  {
    var task := s.tasks[id];
    match task
    case IndexInsert(path, content, _) =>
      var next: Task := StorageWrite(path, content);
      assert OnWorks(s, id, task).tasks == s.tasks[id := next];
      TaskLabels(s, id, OnWorks(s, id, task));
    case IndexDelete(path) =>
      var next: Task := StorageDelete(path);
      assert OnWorks(s, id, task).tasks == s.tasks[id := next];
      TaskLabels(s, id, OnWorks(s, id, task));
    case _ => TaskLabels(s, id, OnWorks(s, id, task));
  }

  lemma FailsLabels(s: State, id: nat, fault: WriteFault)
    requires Labelled(s) && id in s.tasks
    ensures Labelled(OnFails(s, id, s.tasks[id], fault))
  {
    var task, t := s.tasks[id], OnFails(s, id, s.tasks[id], fault);
    if task.StorageWrite? && fault != NoFault {
      var next: Task := UndoInsert(task.path, task.content);
      assert t.tasks == s.tasks[id := next];
    }
    TaskLabels(s, id, t);
  }

  lemma LostLabels(s: State, id: nat, delivery: Delivery)
    requires Labelled(s) && id in s.tasks
    ensures Labelled(OnLost(s, id, s.tasks[id], delivery))
  {
    TaskLabels(s, id, OnLost(s, id, s.tasks[id], delivery));
  }

  lemma StepLabels(cfg: Config, s: State, e: Event)
    requires Labelled(s) && Posed(cfg, s, e)
    ensures Labelled(Step(s, e))
  {
    match e
    case StartWrite(_, _, _) =>
    case StartDelete(_, _) =>
    case Embedded(id, entry) =>
      if id in s.tasks && s.tasks[id].EmbedTexts? { EmbeddableIsRaw(cfg, s.tasks[id].content, entry); }
    case Works(id) => if id in s.tasks { WorksLabels(s, id); }
    case Fails(id, fault) => if id in s.tasks { FailsLabels(s, id, fault); }
    case Lost(id, delivery) => if id in s.tasks { LostLabels(s, id, delivery); }
    case SynthesisStored(_, _, _, _) =>
    case SynthesisIndexed(target, name, _) =>
      var path := SynthesisPath(target, name);
      assert !Raw(path) by { if Raw(path) { SynthesisNotRaw(target, name, path); } }
  }

  /** So in every run, however requests overlap, fail and get lost. */
  lemma {:induction false} RunLabels(cfg: Config, events: seq<Event>)
    requires PosedRun(cfg, START, events)
    ensures Labelled(Run(START, events))
  {
    if events != [] {
      var n := |events| - 1;
      RunLabels(cfg, events[..n]);
      StepLabels(cfg, Run(START, events[..n]), events[n]);
    }
  }

  // ---------------------------------------------------------------------------
  // What an abandoned write leaves
  // ---------------------------------------------------------------------------

  /** Under the discipline nobody else owes what a write in its section does. */
  lemma OwedByNoOther(cfg: Config, s: State, id: nat)
    requires Sections(cfg, s) && id in s.tasks && Writing(s.tasks[id])
    ensures !OwedByOther(cfg, s, id, s.tasks[id].path)
    ensures var path, content := s.tasks[id].path, s.tasks[id].content;
            Consistent(cfg, s, path) <==> path !in s.index || Kept(cfg, s, path, content)
  {
    assert SectionHolds(cfg, s, s.tasks[id]);
  }

  /** A write whose storage message is lost leaves the invariant exactly if a delete has taken its entry or what is
      stored already has its chunks. */
  lemma LostStoreIff(cfg: Config, s: State, id: nat, delivery: Delivery)
    requires Invariant(cfg, s) && Sections(cfg, s)
    requires id in s.tasks && s.tasks[id].StorageWrite? && Covered(s.tasks[id].path)
    requires delivery != Acted(NoFault)
    ensures var path, content := s.tasks[id].path, s.tasks[id].content;
            Invariant(cfg, Step(s, Lost(id, delivery))) <==> path !in s.index || Kept(cfg, s, path, content)
  {
    StepKeepsIff(cfg, s, Lost(id, delivery));
    OwedByNoOther(cfg, s, id);
  }

  /** So does one whose undo fails or is lost, */
  lemma FailedUndoIff(cfg: Config, s: State, id: nat, e: Event)
    requires Invariant(cfg, s) && Sections(cfg, s)
    requires id in s.tasks && s.tasks[id].UndoInsert? && Covered(s.tasks[id].path)
    requires e == Lost(id, NotDelivered) || (e.Fails? && e.id == id)
    ensures var path, content := s.tasks[id].path, s.tasks[id].content;
            Invariant(cfg, Step(s, e)) <==> path !in s.index || Kept(cfg, s, path, content)
  {
    StepKeepsIff(cfg, s, e);
    OwedByNoOther(cfg, s, id);
  }

  /** and one that is indexed without learning of it, exactly if what is stored already has its chunks. */
  lemma LostInsertAnswerIff(cfg: Config, s: State, id: nat, fault: WriteFault)
    requires Invariant(cfg, s) && id in s.tasks && s.tasks[id].IndexInsert?
    requires Covered(s.tasks[id].path) && Open(s, s.tasks[id].path)
    ensures Invariant(cfg, Step(s, Lost(id, Acted(fault)))) <==> Kept(cfg, s, s.tasks[id].path, s.tasks[id].content)
  {
    StepKeepsIff(cfg, s, Lost(id, Acted(fault)));
  }

  // ---------------------------------------------------------------------------
  // Why each assumption is needed
  // ---------------------------------------------------------------------------

  /** `events` lead from `s` to `t`, and if `ok` each of them is admitted. */
  ghost predicate Reaches(r: Relaxed, cfg: Config, s: State, events: seq<Event>, t: State, ok: bool) {
    Run(s, events) == t && (ok ==> AdmittedRun(r, cfg, s, events))
  }

  lemma Then(r: Relaxed, cfg: Config, s: State, events: seq<Event>, t: State, ok: bool, e: Event)
    requires Reaches(r, cfg, s, events, t, ok) && (ok ==> Admits(r, cfg, t, e))
    ensures Reaches(r, cfg, s, events + [e], Step(t, e), ok)
  {
    var longer := events + [e];
    assert longer[..|events|] == events && longer[|events|] == e;
  }

  predicate NoFailure(events: seq<Event>) {
    forall i | 0 <= i < |events| :: !events[i].Fails? && !events[i].Lost?
  }

  lemma ThenBoth(r: Relaxed, cfg: Config, s: State, before: seq<Event>, v: State, ok: bool)
        returns (events: seq<Event>, t: State)
    requires Reaches(r, cfg, s, before, v, ok) && NoFailure(before) && (ok ==> r.overlap)
    ensures t == Step(Step(v, Works(1)), Works(0)) && Reaches(r, cfg, s, events, t, ok) && NoFailure(events)
  {
    Then(r, cfg, s, before, v, ok, Works(1));
    Then(r, cfg, s, before + [Works(1)], Step(v, Works(1)), ok, Works(0));
    events, t := before + [Works(1)] + [Works(0)], Step(Step(v, Works(1)), Works(0));
  }

  lemma WriteStarts(u: State, id: nat, path: string, content: string)
    requires id !in u.tasks
    ensures Step(u, StartWrite(id, path, content)) == u.(tasks := u.tasks[id := EmbedTexts(path, content)])
  {}

  lemma WriteEmbeds(u: State, id: nat, path: string, content: string, entry: I.Entry)
    ensures Step(u.(tasks := u.tasks[id := EmbedTexts(path, content)]), Embedded(id, entry))
            == u.(tasks := u.tasks[id := IndexInsert(path, content, entry)])
  {
    var t := u.tasks[id := EmbedTexts(path, content)];
    assert t[id := IndexInsert(path, content, entry)] == u.tasks[id := IndexInsert(path, content, entry)];
  }

  lemma WriteIndexes(u: State, id: nat, path: string, content: string, entry: I.Entry)
    ensures Step(u.(tasks := u.tasks[id := IndexInsert(path, content, entry)]), Works(id))
            == State(u.files, u.index[path := entry], u.tasks[id := StorageWrite(path, content)])
  {
    var t := u.tasks[id := IndexInsert(path, content, entry)];
    assert t[id := StorageWrite(path, content)] == u.tasks[id := StorageWrite(path, content)];
  }

  /** A write may start here, and `entry` may be what is indexed for it. */
  ghost predicate MayWrite(r: Relaxed, cfg: Config, u: State, path: string, content: string, entry: I.Entry) {
    Raw(path) && (r.overlap || Open(u, path)) && Embeddable(cfg, content, entry)
  }

  /** A write request up to its index message. */
  lemma WriteUpToIndex(r: Relaxed, cfg: Config, s: State, before: seq<Event>, u: State, ok: bool,
                       id: nat, path: string, content: string, entry: I.Entry)
      returns (events: seq<Event>)
    requires Reaches(r, cfg, s, before, u, ok) && id !in u.tasks && (ok ==> MayWrite(r, cfg, u, path, content, entry))
    ensures Reaches(r, cfg, s, events, u.(tasks := u.tasks[id := IndexInsert(path, content, entry)]), ok)
    ensures forall i | 0 <= i < |events| :: events[i] in before || events[i].StartWrite? || events[i].Embedded?
  {
    Then(r, cfg, s, before, u, ok, StartWrite(id, path, content));
    WriteStarts(u, id, path, content);
    var e1 := before + [StartWrite(id, path, content)];
    Then(r, cfg, s, e1, u.(tasks := u.tasks[id := EmbedTexts(path, content)]), ok, Embedded(id, entry));
    WriteEmbeds(u, id, path, content, entry);
    events := e1 + [Embedded(id, entry)];
  }

  /** A write request up to its storage message. */
  lemma WriteUpToStore(r: Relaxed, cfg: Config, s: State, before: seq<Event>, u: State, ok: bool,
                       id: nat, path: string, content: string, entry: I.Entry)
      returns (events: seq<Event>)
    requires Reaches(r, cfg, s, before, u, ok) && id !in u.tasks && (ok ==> MayWrite(r, cfg, u, path, content, entry))
    requires NoFailure(before)
    ensures Reaches(r, cfg, s, events,
                    State(u.files, u.index[path := entry], u.tasks[id := StorageWrite(path, content)]), ok)
    ensures NoFailure(events)
  {
    var e1 := WriteUpToIndex(r, cfg, s, before, u, ok, id, path, content, entry);
    Then(r, cfg, s, e1, u.(tasks := u.tasks[id := IndexInsert(path, content, entry)]), ok, Works(id));
    WriteIndexes(u, id, path, content, entry);
    events := e1 + [Works(id)];
  }

  /** `path` is indexed but not stored, and nothing is under way that could mend it. */
  predicate Dangling(s: State, path: string) {
    s.tasks == map[] && path in s.index && path !in s.files
  }

  /** Two requests on one path: a whole write between the two halves of a delete leaves an entry without a file,
      with no failure at all. */
  lemma DeleteAroundWrite(r: Relaxed, cfg: Config, path: string, content: string, entry: I.Entry)
      returns (events: seq<Event>, t: State)
    requires r.overlap && Raw(path) && Embeddable(cfg, content, entry)
    ensures Reaches(r, cfg, START, events, t, true) && Dangling(t, path) && NoFailure(events)
  {
    var start: seq<Event> := [];
    Then(r, cfg, START, start, START, true, StartDelete(0, path));
    var e1 := start + [StartDelete(0, path)];
    Then(r, cfg, START, e1, START.(tasks := map[0 := IndexDelete(path)]), true, Works(0));
    var e2 := e1 + [Works(0)];
    var u := State(map[], map[], map[0 := StorageDelete(path)]);
    assert START.index - {path} == u.index;
    var e3 := WriteUpToStore(r, cfg, START, e2, u, true, 1, path, content, entry);
    var v := State(u.files, u.index[path := entry], u.tasks[1 := StorageWrite(path, content)]);
    StoreThenRemove(v, path, content);
    events, t := ThenBoth(r, cfg, START, e3, v, true);
  }

  lemma StoreThenRemove(u: State, path: string, content: string)
    requires u.tasks == map[0 := StorageDelete(path), 1 := StorageWrite(path, content)]
    ensures var t := Step(Step(u, Works(1)), Works(0)); t.tasks == map[] && t.index == u.index && path !in t.files
  {
    var u1 := Step(u, Works(1));
    assert u1.tasks == map[0 := StorageDelete(path)];
    assert u1.tasks - {0} == map[];
  }

  /** Two writes of one path: both index, then both store in the other order. The file then is that of the first,
      its entry that of the second. */
  lemma WriteAroundWrite(r: Relaxed, cfg: Config, path: string, first: string, e: I.Entry, second: string, f: I.Entry)
      returns (events: seq<Event>, t: State)
    requires r.overlap && Raw(path) && Embeddable(cfg, first, e) && Embeddable(cfg, second, f)
    ensures Reaches(r, cfg, START, events, t, true) && NoFailure(events)
    ensures t.tasks == map[] && path in t.index && t.index[path] == f && Lookup(t.files, path) == Some(first)
    ensures Consistent(cfg, t, path) <==> SameChunks(cfg, first, second)
  {
    var start: seq<Event> := [];
    var e1 := WriteUpToStore(r, cfg, START, start, START, true, 0, path, first, e);
    var u := State(map[], map[path := e], map[0 := StorageWrite(path, first)]);
    var e2 := WriteUpToStore(r, cfg, START, e1, u, true, 1, path, second, f);
    var v := State(u.files, u.index[path := f], u.tasks[1 := StorageWrite(path, second)]);
    StoreBoth(v, path, first, second);
    events, t := ThenBoth(r, cfg, START, e2, v, true);
    EmbeddableIndexes(cfg, second, f);
  }

  lemma StoreBoth(u: State, path: string, first: string, second: string)
    requires u.tasks == map[0 := StorageWrite(path, first), 1 := StorageWrite(path, second)]
    ensures var t := Step(Step(u, Works(1)), Works(0));
            t.tasks == map[] && t.index == u.index && Lookup(t.files, path) == Some(first)
  {
    var u1 := Step(u, Works(1));
    assert u1.tasks == map[0 := StorageWrite(path, first)];
    assert u1.tasks - {0} == map[];
  }

  /** An undo that fails leaves an entry for content that was never stored. */
  lemma UndoFails(r: Relaxed, cfg: Config, path: string, content: string, entry: I.Entry)
      returns (events: seq<Event>, t: State)
    requires r.undoFails && Raw(path) && Embeddable(cfg, content, entry)
    ensures Reaches(r, cfg, START, events, t, true) && Dangling(t, path)
  {
    var start: seq<Event> := [];
    var before := WriteUpToStore(r, cfg, START, start, START, true, 0, path, content, entry);
    var u := State(map[], map[path := entry], map[0 := StorageWrite(path, content)]);
    Then(r, cfg, START, before, u, true, Fails(0, MkdirFails));
    var e1 := before + [Fails(0, MkdirFails)];
    var u1 := u.(tasks := map[0 := UndoInsert(path, content)]);
    assert Step(u, Fails(0, MkdirFails)).tasks == u1.tasks;
    Then(r, cfg, START, e1, u1, true, Fails(0, NoFault));
    events, t := e1 + [Fails(0, NoFault)], Step(u1, Fails(0, NoFault));
    assert t.tasks == map[];
  }

  /** So does a storage message that is lost: nothing is undone then. */
  lemma StoreLost(r: Relaxed, cfg: Config, path: string, content: string, entry: I.Entry)
      returns (events: seq<Event>, t: State)
    requires r.storeLost && Raw(path) && Embeddable(cfg, content, entry)
    ensures Reaches(r, cfg, START, events, t, true) && Dangling(t, path)
  {
    var start: seq<Event> := [];
    var before := WriteUpToStore(r, cfg, START, start, START, true, 0, path, content, entry);
    var u := State(map[], map[path := entry], map[0 := StorageWrite(path, content)]);
    Then(r, cfg, START, before, u, true, Lost(0, NotDelivered));
    events, t := before + [Lost(0, NotDelivered)], Step(u, Lost(0, NotDelivered));
    assert t.tasks == map[];
  }

  /** And an index insert whose answer is lost: the write ends without storing what is indexed. */
  lemma InsertAnswerLost(r: Relaxed, cfg: Config, path: string, content: string, entry: I.Entry)
      returns (events: seq<Event>, t: State)
    requires r.insertAnswerLost && Raw(path) && Embeddable(cfg, content, entry)
    ensures Reaches(r, cfg, START, events, t, true) && Dangling(t, path)
  {
    var start: seq<Event> := [];
    var before := WriteUpToIndex(r, cfg, START, start, START, true, 0, path, content, entry);
    var u := State(map[], map[], map[0 := IndexInsert(path, content, entry)]);
    Then(r, cfg, START, before, u, true, Lost(0, Acted(NoFault)));
    events, t := before + [Lost(0, Acted(NoFault))], Step(u, Lost(0, Acted(NoFault)));
    assert t.tasks == map[];
  }

  /** A memory whose path is the temporary sibling of another loses its file to a write of that other. */
  lemma SiblingClobbered(r: Relaxed, cfg: Config, path: string, content: string, entry: I.Entry)
      returns (events: seq<Event>, t: State)
    requires Raw(path) && Raw(TmpPath(path)) && TmpPath(path) != path && Embeddable(cfg, content, entry)
    ensures Reaches(r, cfg, START, events, t, true) && Dangling(t, TmpPath(path)) && NoFailure(events)
  {
    var start: seq<Event> := [];
    var tmp := TmpPath(path);
    var e1 := WriteUpToStore(r, cfg, START, start, START, true, 0, tmp, content, entry);
    var u := State(map[], map[tmp := entry], map[0 := StorageWrite(tmp, content)]);
    Then(r, cfg, START, e1, u, true, Works(0));
    var v := Step(u, Works(0));
    assert v.tasks == map[];
    var e2 := WriteUpToStore(r, cfg, START, e1 + [Works(0)], v, true, 0, path, content, entry);
    var x := State(v.files, v.index[path := entry], map[0 := StorageWrite(path, content)]);
    Then(r, cfg, START, e2, x, true, Works(0));
    events, t := e2 + [Works(0)], Step(x, Works(0));
    assert t.tasks == map[];
  }

  /** The memories for which consistency is asked. */
  ghost predicate Promised(r: Relaxed, path: string) {
    Raw(path) && (NamedTmp(path) ==> r.tmp)
  }

  /** Every run admitted leaves every memory consistent on which no request is between its messages. */
  ghost predicate AlwaysConsistent(cfg: Config, r: Relaxed) {
    forall events, path | AdmittedRun(r, cfg, START, events) && Promised(r, path) ::
      Open(Run(START, events), path) ==> Consistent(cfg, Run(START, events), path)
  }

  lemma DanglingRefutes(r: Relaxed, cfg: Config, events: seq<Event>, t: State, path: string)
    requires Reaches(r, cfg, START, events, t, true) && Dangling(t, path) && Promised(r, path)
    ensures !AlwaysConsistent(cfg, r)
  {
    assert Open(Run(START, events), path);
    assert !Consistent(cfg, Run(START, events), path);
  }

  /** The path of a memory without extension; its sibling is the path of another memory. */
  lemma SomeMemory() returns (path: string)
    ensures Raw(path) && !NamedTmp(path) && Raw(TmpPath(path)) && TmpPath(path) != path
  {
    var u, a, n := ['u'], seq(36, i => 'a'), ['n'];
    var dir := u + ['/'] + (a + ['/'] + DEFAULT_PROJECT);
    path := Join4(u, a, DEFAULT_PROJECT, n);
    assert path == dir + ['/'] + n;
    LastNameOf(dir, n);
    LastIndexFacts(n, '.');
    assert TmpName(n) == n + TMP;
    var d, m := Split(path);
    SplitLastUnique(d, m, dir, n, '/');
    var tmp := Join4(u, a, DEFAULT_PROJECT, n + TMP);
    assert tmp == dir + ['/'] + (n + TMP);
    assert Flatten(n) == n && Flatten(n + TMP) == n + TMP;
    assert RawPath(u, a, None, n) == Path(path) && RawPath(u, a, None, n + TMP) == Path(tmp);
    assert |tmp| > |path|;
  }

  lemma BlankEntry(cfg: Config) returns (entry: I.Entry)
    ensures Embeddable(cfg, "", entry)
  {
    NoChunksIffBlank("", cfg.chunkSize, cfg.overlap);
    var none: seq<Vector> := [];
    entry := RawEntry(cfg, "", "", none);
  }

  /** Each assumption is needed: consistency is guaranteed exactly if none of them is given up. */
  lemma AlwaysConsistentIff(cfg: Config, r: Relaxed)
    ensures AlwaysConsistent(cfg, r) <==> r == STRICT
  {
    if r == STRICT {
      forall events, path | AdmittedRun(r, cfg, START, events) && Promised(r, path)
        ensures Open(Run(START, events), path) ==> Consistent(cfg, Run(START, events), path)
      {
        if Open(Run(START, events), path) { IndexedIsStored(cfg, events, path); }
      }
    } else {
      var path := SomeMemory();
      var entry := BlankEntry(cfg);
      Refuted(cfg, r, path, entry);
    }
  }

  lemma Refuted(cfg: Config, r: Relaxed, path: string, entry: I.Entry)
    requires r != STRICT && Raw(path) && !NamedTmp(path) && Raw(TmpPath(path)) && TmpPath(path) != path
    requires Embeddable(cfg, "", entry)
    ensures !AlwaysConsistent(cfg, r)
  {
    if r.overlap {
      var events, t := DeleteAroundWrite(r, cfg, path, "", entry);
      DanglingRefutes(r, cfg, events, t, path);
    } else if r.undoFails {
      var events, t := UndoFails(r, cfg, path, "", entry);
      DanglingRefutes(r, cfg, events, t, path);
    } else if r.storeLost {
      var events, t := StoreLost(r, cfg, path, "", entry);
      DanglingRefutes(r, cfg, events, t, path);
    } else if r.insertAnswerLost {
      var events, t := InsertAnswerLost(r, cfg, path, "", entry);
      DanglingRefutes(r, cfg, events, t, path);
    } else {
      var events, t := SiblingClobbered(r, cfg, path, "", entry);
      DanglingRefutes(r, cfg, events, t, TmpPath(path));
    }
  }

  // ---------------------------------------------------------------------------
  // One request by itself
  // ---------------------------------------------------------------------------

  datatype Reply =
    | Replied
    | BadProject(error: PathError)
    | EmbedFailed
    | IndexFailed(result: I.IndexResult)
    | StoreFailed

  /** What the services around a write answer. */
  datatype WriteEnv = WriteEnv(embedding: Option<(string, seq<Vector>)>, index: I.Faults, store: WriteFault,
                               written: string, undo: Option<nat>)

  /** The embedder has one vector per chunk, when it answers. */
  predicate Answered(cfg: Config, content: string, embedding: Option<(string, seq<Vector>)>) {
    embedding.Some? ==> |embedding.value.1| == |Chunks(content, cfg.chunkSize, cfg.overlap)|
  }

  /** No call is made for blank content. */
  function EntryOf(cfg: Config, content: string, embedding: Option<(string, seq<Vector>)>): Option<I.Entry> {
    if Chunks(content, cfg.chunkSize, cfg.overlap) == [] then Some(RawEntry(cfg, content, "", []))
    else if embedding.None? then None
    else Some(RawEntry(cfg, content, embedding.value.0, embedding.value.1))
  }

  /** The index entry of a memory: labelled as raw, with its size, its model and its chunks and their vectors. */
  predicate EntryTells(cfg: Config, e: I.Entry, content: string, embedding: Option<(string, seq<Vector>)>) {
    var chunks := Chunks(content, cfg.chunkSize, cfg.overlap);
    && e.source == "raw" && e.size == ByteLen(content) && |e.chunks| == |chunks|
    && (forall i | 0 <= i < |chunks| ::
          && e.chunks[i].text == chunks[i].text && e.chunks[i].startLine == chunks[i].startLine
          && e.chunks[i].endLine == chunks[i].endLine)
    && if AllSpace(content) then e.model == ""
       else
         && embedding.Some? && e.model == embedding.value.0 && |embedding.value.1| == |chunks|
         && forall i | 0 <= i < |chunks| :: e.chunks[i].embedding == embedding.value.1[i]
  }

  lemma EntryOfTells(cfg: Config, content: string, embedding: Option<(string, seq<Vector>)>)
    requires Answered(cfg, content, embedding)
    ensures EntryOf(cfg, content, embedding).Some? <==> AllSpace(content) || embedding.Some?
    ensures EntryOf(cfg, content, embedding).Some? ==>
              EntryTells(cfg, EntryOf(cfg, content, embedding).value, content, embedding)
  {
    NoChunksIffBlank(content, cfg.chunkSize, cfg.overlap);
  }

  /** Files and index after a write that no other request interferes with. */
  function WriteAlone(s: State, path: string, content: string, entry: Option<I.Entry>, indexed: bool,
                      fault: WriteFault, undone: bool): State {
    if entry.None? || !indexed then s
    else
      State(Apply(s.files, Put(path, content, fault)),
            if fault == NoFault || !undone then s.index[path := entry.value] else s.index - {path},
            s.tasks)
  }

  /** A write by itself is a run of the protocol, and an admitted one unless an undo fails. */
  lemma WriteAloneIsRun(r: Relaxed, cfg: Config, s: State, path: string, content: string, entry: Option<I.Entry>,
                        indexed: bool, fault: WriteFault, undone: bool, ok: bool)
      returns (events: seq<Event>)
    requires s.tasks == map[]
    requires ok ==> Raw(path) && (entry.Some? ==> Embeddable(cfg, content, entry.value))
    requires ok && fault != NoFault && !undone ==> r.undoFails
    ensures Reaches(r, cfg, s, events, WriteAlone(s, path, content, entry, indexed, fault, undone), ok)
  {
    var start: seq<Event> := [];
    if entry.None? {
      Then(r, cfg, s, start, s, ok, StartWrite(0, path, content));
      WriteStarts(s, 0, path, content);
      var u := s.(tasks := s.tasks[0 := EmbedTexts(path, content)]);
      Then(r, cfg, s, start + [StartWrite(0, path, content)], u, ok, Fails(0, NoFault));
      events := start + [StartWrite(0, path, content)] + [Fails(0, NoFault)];
      assert Step(u, Fails(0, NoFault)).tasks == s.tasks;
    } else if !indexed {
      var before := WriteUpToIndex(r, cfg, s, start, s, ok, 0, path, content, entry.value);
      var u := s.(tasks := s.tasks[0 := IndexInsert(path, content, entry.value)]);
      Then(r, cfg, s, before, u, ok, Fails(0, NoFault));
      events := before + [Fails(0, NoFault)];
      assert Step(u, Fails(0, NoFault)).tasks == s.tasks;
    } else {
      var before := WriteUpToStore(r, cfg, s, start, s, ok, 0, path, content, entry.value);
      var u := State(s.files, s.index[path := entry.value], s.tasks[0 := StorageWrite(path, content)]);
      if fault == NoFault {
        Then(r, cfg, s, before, u, ok, Works(0));
        events := before + [Works(0)];
        assert Step(u, Works(0)).tasks == s.tasks;
      } else {
        events := UndoneRun(r, cfg, s, before, u, path, content, fault, undone, ok);
        InsertThenRemove(s.index, path, entry.value);
      }
    }
  }

  lemma StoreFailsStep(u: State, path: string, content: string, fault: WriteFault)
    requires u.tasks == map[0 := StorageWrite(path, content)] && fault != NoFault
    ensures Step(u, Fails(0, fault))
            == State(Apply(u.files, Put(path, content, fault)), u.index, map[0 := UndoInsert(path, content)])
  {}

  lemma UndoStep(u: State, path: string, content: string, undone: bool)
    requires u.tasks == map[0 := UndoInsert(path, content)]
    ensures Step(u, if undone then Works(0) else Fails(0, NoFault))
            == State(u.files, if undone then u.index - {path} else u.index, map[])
  {}

  lemma UndoneRun(r: Relaxed, cfg: Config, s: State, before: seq<Event>, u: State, path: string, content: string,
                  fault: WriteFault, undone: bool, ok: bool)
      returns (events: seq<Event>)
    requires Reaches(r, cfg, s, before, u, ok) && u.tasks == map[0 := StorageWrite(path, content)] && fault != NoFault
    requires ok && !undone ==> r.undoFails
    ensures Reaches(r, cfg, s, events,
                    State(Apply(u.files, Put(path, content, fault)),
                          if undone then u.index - {path} else u.index, map[]), ok)
  {
    var last := if undone then Works(0) else Fails(0, NoFault);
    var failed := State(Apply(u.files, Put(path, content, fault)), u.index, map[0 := UndoInsert(path, content)]);
    StoreFailsStep(u, path, content, fault);
    Then(r, cfg, s, before, u, ok, Fails(0, fault));
    UndoStep(failed, path, content, undone);
    Then(r, cfg, s, before + [Fails(0, fault)], failed, ok, last);
    events := before + [Fails(0, fault)] + [last];
  }

  lemma InsertThenRemove(m: I.Model, path: string, entry: I.Entry)
    ensures m[path := entry] - {path} == m - {path}
  {}

  /** Files and index after a delete that no other request interferes with. */
  function DeleteAlone(s: State, path: string, removed: bool, works: bool): State {
    if !removed then s else State(Apply(s.files, Remove(path, works)), s.index - {path}, s.tasks)
  }

  lemma DeleteStarts(s: State, path: string)
    requires s.tasks == map[]
    ensures Step(s, StartDelete(0, path)) == s.(tasks := map[0 := IndexDelete(path)])
  {
    assert s.tasks[0 := IndexDelete(path)] == map[0 := IndexDelete(path)];
  }

  lemma DeleteUnindexes(u: State, path: string, removed: bool)
    requires u.tasks == map[0 := IndexDelete(path)]
    ensures Step(u, if removed then Works(0) else Fails(0, NoFault))
            == if removed then State(u.files, u.index - {path}, map[0 := StorageDelete(path)]) else u.(tasks := map[])
  {
    assert u.tasks[0 := StorageDelete(path)] == map[0 := StorageDelete(path)];
  }

  lemma DeleteRemoves(v: State, path: string, works: bool)
    requires v.tasks == map[0 := StorageDelete(path)]
    ensures Step(v, if works then Works(0) else Fails(0, NoFault))
            == State(Apply(v.files, Remove(path, works)), v.index, map[])
  {}

  /** A delete by itself is a run of the protocol that is always admitted. */
  lemma DeleteAloneIsRun(r: Relaxed, cfg: Config, s: State, path: string, removed: bool, works: bool, ok: bool)
      returns (events: seq<Event>)
    requires s.tasks == map[] && (ok ==> Raw(path))
    ensures Reaches(r, cfg, s, events, DeleteAlone(s, path, removed, works), ok)
  {
    var start: seq<Event> := [];
    var u := s.(tasks := map[0 := IndexDelete(path)]);
    Then(r, cfg, s, start, s, ok, StartDelete(0, path));
    DeleteStarts(s, path);
    var next := if removed then Works(0) else Fails(0, NoFault);
    Then(r, cfg, s, start + [StartDelete(0, path)], u, ok, next);
    DeleteUnindexes(u, path, removed);
    events := start + [StartDelete(0, path)] + [next];
    if removed {
      var v := State(s.files, s.index - {path}, map[0 := StorageDelete(path)]);
      var last := if works then Works(0) else Fails(0, NoFault);
      Then(r, cfg, s, events, v, ok, last);
      DeleteRemoves(v, path, works);
      events := events + [last];
    }
  }

  /** Index insert, storage write and, when that fails, the undo. */
  method IndexAndStore(storage: Storage, index: I.Indexer, path: string, content: string, entry: I.Entry, env: WriteEnv)
      returns (r: Reply, undone: bool)
    requires I.Represents(index.db, index.model)
    modifies storage, index
    ensures I.Represents(index.db, index.model) && (env.undo.None? ==> undone)
    ensures var inserted := I.Step(old(index.db), I.Insert(path, entry, env.index)).1;
            && State(storage.files, index.model, map[])
               == WriteAlone(State(old(storage.files), old(index.model), map[]), path, content, Some(entry),
                             inserted == I.Ok, env.store, undone)
            && r == (if inserted != I.Ok then IndexFailed(inserted)
                     else if env.store == NoFault then Replied else StoreFailed)
  {
    InsertThenRemove(index.model, path, entry);
    var inserted := index.HandleInsert(path, entry, env.index);
    if inserted != I.Ok {
      return IndexFailed(inserted), true;
    }
    var stored, seen := storage.Write(path, content, env.store, env.written);
    if stored != FileStorage.Done {
      var removed := index.HandleDelete(path, env.undo);
      return StoreFailed, removed == I.Ok;
    }
    return Replied, true;
  }

  /** The write request: everything that can fail comes before the storage is touched, and a failing storage write
      takes the index entry back. */
  method HandleWrite(storage: Storage, index: I.Indexer, cfg: Config, username: string, agentId: string,
                     project: Option<string>,
                     filename: string, content: string, env: WriteEnv)
      returns (r: Reply, notified: bool, undone: bool)
    requires I.Represents(index.db, index.model) && Answered(cfg, content, env.embedding)
    modifies storage, index
    ensures I.Represents(index.db, index.model) && (notified <==> r == Replied) && (env.undo.None? ==> undone)
    ensures var path := RawPath(username, agentId, project, filename);
            var before := State(old(storage.files), old(index.model), map[]);
            var after := State(storage.files, index.model, map[]);
            match path
            case Invalid(e) => r == BadProject(e) && after == before
            case Path(p) =>
              var entry := EntryOf(cfg, content, env.embedding);
              var inserted :=
                if entry.None? then I.SqlError else I.Step(old(index.db), I.Insert(p, entry.value, env.index)).1;
              && after == WriteAlone(before, p, content, entry, inserted == I.Ok, env.store, undone)
              && r == (if entry.None? then EmbedFailed
                       else if inserted != I.Ok then IndexFailed(inserted)
                       else if env.store == NoFault then Replied else StoreFailed)
    ensures r == EmbedFailed <==>
            RawPath(username, agentId, project, filename).Path? && !AllSpace(content) && env.embedding.None?
    ensures r == Replied ==>
              var path := RawPath(username, agentId, project, filename);
              && path.Path? && Lookup(storage.files, path.path) == Some(content)
              && path.path in index.model && EntryTells(cfg, index.model[path.path], content, env.embedding)
  {
    EntryOfTells(cfg, content, env.embedding);
    var resolved := RawPath(username, agentId, project, filename);
    if resolved.Invalid? {
      return BadProject(resolved.error), false, true;
    }
    var texts := ChunkText(content, cfg.chunkSize, cfg.overlap);
    if texts != [] && env.embedding.None? {
      return EmbedFailed, false, true;
    }
    var entry := EntryOf(cfg, content, env.embedding).value;
    r, undone := IndexAndStore(storage, index, resolved.path, content, entry, env);
    notified := r == Replied;
  }

  /** The delete request: the index first, so that no entry is left without its file. */
  method HandleDelete(storage: Storage, index: I.Indexer, username: string, agentId: string, project: Option<string>,
                      filename: string, failAt: Option<nat>, works: bool)
      returns (r: Reply, notified: bool)
    requires I.Represents(index.db, index.model)
    modifies storage, index
    ensures I.Represents(index.db, index.model) && (notified <==> r == Replied)
    ensures var before := State(old(storage.files), old(index.model), map[]);
            var after := State(storage.files, index.model, map[]);
            match RawPath(username, agentId, project, filename)
            case Invalid(e) => r == BadProject(e) && after == before
            case Path(p) =>
              var removed := I.DeleteWorks(old(index.db), p, failAt);
              && after == DeleteAlone(before, p, removed, works)
              && r == (if !removed then IndexFailed(I.SqlError)
                       else if works || p !in before.files then Replied else StoreFailed)
  {
    var resolved := RawPath(username, agentId, project, filename);
    if resolved.Invalid? {
      return BadProject(resolved.error), false;
    }
    var removed := index.HandleDelete(resolved.path, failAt);
    if removed != I.Ok {
      return IndexFailed(removed), false;
    }
    var deleted := storage.Delete(resolved.path, works);
    if deleted != FileStorage.Done {
      return StoreFailed, false;
    }
    return Replied, true;
  }
}
