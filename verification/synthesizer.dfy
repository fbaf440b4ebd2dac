// The synthesizer: change notifications collected under a cool-down timer, then a cascade of per-agent, per-user
// and global summaries (memory/synthesizer.rs).
module Synthesis {
  import opened Text
  import opened Chunking
  import opened Embeddings
  import opened Paths
  import opened FileStorage
  import I = Index
  import SynthesisTask

  datatype FileChanged = FileChanged(username: string, agentId: string, path: string)

  // ---------------------------------------------------------------------------
  // One target
  // ---------------------------------------------------------------------------

  /** What a document is made from: a raw memory, or the latest summary of a target. */
  datatype Origin = Memory(path: string) | SummaryOf(target: Target)
  type SourceDoc = SynthesisTask.SourceDoc

  /** The documents of a request, and the paths of memories that are gone. */
  datatype Sources = Sources(docs: map<Origin, SourceDoc>, deleted: set<string>)

  /** The summary files of one target, by file name, and their index entries. */
  datatype Local = Local(files: Files, index: map<string, I.Entry>)

  const NOTHING: Local := Local(map[], map[])

  /** `Ok(true)`, `Ok(false)` or an error. */
  datatype Result = Synthesized | NoSources | Failed

  /** What the services answer, target by target: which names are latest and next in a folder, whether files can be
      read, the reply of the model, the embedding of a reply, and whether storing and indexing it work. */
  datatype Env = Env(
    readable: string -> bool,
    summaryReadable: (Target, string) -> bool,
    latest: (Target, Files) -> Option<string>,
    next: (Target, Files) -> string,
    reply: (Target, Option<string>, Sources) -> Option<string>,
    embed: (Target, string) -> Option<(string, seq<Vector>)>,
    store: Target -> WriteFault,
    indexes: Target -> bool,
    chunkSize: nat,
    overlap: nat)

  function SummaryEntry(env: Env, content: string, model: string, embeddings: seq<Vector>): I.Entry {
    I.Entry("synthesized", ByteLen(content), model, Zip(Chunks(content, env.chunkSize, env.overlap), embeddings))
  }

  /** `write_synthesis`: storage first, then the index; nothing at all for a blank reply. */
  function WriteSummary(env: Env, t: Target, here: Local, name: string, content: string): (Local, Result) {
    if Chunks(content, env.chunkSize, env.overlap) == [] then (here, Synthesized)
    else
      var stored := here.(files := Apply(here.files, Put(name, content, env.store(t))));
      if env.store(t) != NoFault then (stored, Failed)
      else
        match env.embed(t, content)
        case None => (stored, Failed)
        case Some((model, embeddings)) =>
          if !env.indexes(t) then (stored, Failed)
          else (stored.(index := stored.index[name := SummaryEntry(env, content, model, embeddings)]), Synthesized)
  }

  /** The latest summary of a target and its content: none if there is none, an error if it cannot be read. */
  datatype Read = Unreadable | Summary(content: Option<string>, name: string)

  function ReadLatest(env: Env, t: Target, here: Local): Read {
    match env.latest(t, here.files)
    case None => Summary(None, "")
    case Some(name) => if env.summaryReadable(t, name) then Summary(Lookup(here.files, name), name) else Unreadable
  }

  /** What the three passes share; `sources` is none when one of them could not be read. */
  function Synthesize(env: Env, t: Target, sources: Option<Sources>, here: Local): (Local, Result) {
    if sources.None? then (here, Failed)
    else if sources.value.docs == map[] && sources.value.deleted == {} then (here, NoSources)
    else
      var prior := ReadLatest(env, t, here);
      if prior.Unreadable? then (here, Failed)
      else
        match env.reply(t, prior.content, sources.value)
        case None => (here, Failed)
        case Some(content) => WriteSummary(env, t, here, env.next(t, here.files), content)
  }

  // ---------------------------------------------------------------------------
  // The cascade
  // ---------------------------------------------------------------------------

  /** Raw memories and the summaries of every target. */
  datatype World = World(raw: Files, at: map<Target, Local>)

  function At(w: World, t: Target): Local {
    if t in w.at then w.at[t] else NOTHING
  }

  function Outcome(env: Env, w: World, sources: map<Target, Option<Sources>>, t: Target): (Local, Result)
    requires t in sources
  {
    Synthesize(env, t, sources[t], At(w, t))
  }

  /** One pass: each target with its own sources, all from the world before the pass. */
  function Pass(env: Env, w: World, sources: map<Target, Option<Sources>>): World {
    World(w.raw,
          map t | t in w.at.Keys + sources.Keys :: if t in sources then Outcome(env, w, sources, t).0 else w.at[t])
  }

  function Succeeded(env: Env, w: World, sources: map<Target, Option<Sources>>): set<Target> {
    set t | t in sources && Outcome(env, w, sources, t).1 == Synthesized
  }

  function AgentOf(f: FileChanged): Target {
    Agent(f.username, f.agentId)
  }

  function AgentsOf(changed: set<FileChanged>): set<Target> {
    set f | f in changed :: AgentOf(f)
  }

  function PathsOf(changed: set<FileChanged>, t: Target): set<string> {
    set f | f in changed && AgentOf(f) == t :: f.path
  }

  /** The changed paths of each agent. */
  function Groups(changed: set<FileChanged>): map<Target, set<string>> {
    map t | t in AgentsOf(changed) :: PathsOf(changed, t)
  }

  function MemoryDocs(raw: Files, paths: set<string>): map<Origin, SourceDoc> {
    map p | p in paths && p in raw :: Memory(p) := SynthesisTask.SourceDoc(p, raw[p])
  }

  function Gone(raw: Files, paths: set<string>): set<string> {
    set p | p in paths && p !in raw
  }

  predicate AllReadable(env: Env, paths: set<string>) {
    forall p | p in paths :: env.readable(p)
  }

  /** An agent's sources: its changed files, those that are gone by name only. */
  function AgentSources(env: Env, w: World, paths: set<string>): Option<Sources> {
    if AllReadable(env, paths) then Some(Sources(MemoryDocs(w.raw, paths), Gone(w.raw, paths))) else None
  }

  function LatestOf(env: Env, w: World, t: Target): Read {
    ReadLatest(env, t, At(w, t))
  }

  predicate HasSummary(env: Env, w: World, t: Target) {
    LatestOf(env, w, t).Summary? && LatestOf(env, w, t).content.Some?
  }

  function SummaryDoc(env: Env, w: World, t: Target): SourceDoc
    requires HasSummary(env, w, t)
  {
    SynthesisTask.SourceDoc(SynthesisPath(t, LatestOf(env, w, t).name), LatestOf(env, w, t).content.value)
  }

  predicate NoneUnreadable(env: Env, w: World, targets: set<Target>) {
    forall t | t in targets :: !LatestOf(env, w, t).Unreadable?
  }

  function SummaryDocs(env: Env, w: World, targets: set<Target>): map<Origin, SourceDoc> {
    map t | t in targets && HasSummary(env, w, t) :: SummaryOf(t) := SummaryDoc(env, w, t)
  }

  /** The latest summaries of some targets; targets without one are passed over. */
  function SummarySources(env: Env, w: World, targets: set<Target>): Option<Sources> {
    if NoneUnreadable(env, w, targets) then Some(Sources(SummaryDocs(env, w, targets), {})) else None
  }

  function AgentPass(env: Env, w: World, changed: set<FileChanged>): map<Target, Option<Sources>> {
    map t | t in AgentsOf(changed) :: AgentSources(env, w, PathsOf(changed, t))
  }

  function UserOf(t: Target): Target
    requires !t.Global?
  {
    User(t.username)
  }

  function UsersOf(agents: set<Target>): set<Target> {
    set t | t in agents && t.Agent? :: User(t.username)
  }

  function AgentsUnder(agents: set<Target>, user: Target): set<Target> {
    set t | t in agents && t.Agent? && User(t.username) == user
  }

  function UserPass(env: Env, w: World, agents: set<Target>): map<Target, Option<Sources>> {
    map u | u in UsersOf(agents) :: SummarySources(env, w, AgentsUnder(agents, u))
  }

  function GlobalPass(env: Env, w: World, users: set<Target>): map<Target, Option<Sources>> {
    if users == {} then map[] else map[Global := SummarySources(env, w, users)]
  }

  /** The three passes, with no order among the targets of one. */
  function Cascade(env: Env, w: World, changed: set<FileChanged>): World {
    var first := AgentPass(env, w, changed);
    var w1 := Pass(env, w, first);
    var second := UserPass(env, w1, Succeeded(env, w, first));
    var w2 := Pass(env, w1, second);
    Pass(env, w2, GlobalPass(env, w2, Succeeded(env, w1, second)))
  }

  // ---------------------------------------------------------------------------
  // The loops
  // ---------------------------------------------------------------------------

  /** Grouping, in whatever order the pending set is drained. */
  method GroupFiles(changed: set<FileChanged>) returns (groups: map<Target, set<string>>)
    ensures groups == Groups(changed)
  {
    groups := map[];
    var left := changed;
    while left != {}
      invariant left <= changed
      invariant groups == Groups(changed - left)
    {
      var f :| f in left;
      var before := if AgentOf(f) in groups then groups[AgentOf(f)] else {};
      ghost var done := changed - left;
      GroupsAdd(done, f);
      groups := groups[AgentOf(f) := before + {f.path}];
      left := left - {f};
      assert changed - left == done + {f};
    }
    assert changed - left == changed;
  }

  lemma GroupsAdd(done: set<FileChanged>, f: FileChanged)
    ensures var groups := Groups(done);
            Groups(done + {f}) == groups[AgentOf(f)
                                         := (if AgentOf(f) in groups then groups[AgentOf(f)] else {}) + {f.path}]
  {
    var t := AgentOf(f);
    assert AgentsOf(done + {f}) == AgentsOf(done) + {t};
    forall other | other in AgentsOf(done + {f})
      ensures PathsOf(done + {f}, other) == if other == t then PathsOf(done, t) + {f.path} else PathsOf(done, other)
    {}
    if t !in AgentsOf(done) { assert PathsOf(done, t) == {}; }
  }

  /** The world when only the targets in `done` have been processed. */
  function Partly(env: Env, w: World, sources: map<Target, Option<Sources>>, done: set<Target>): World {
    Pass(env, w, map t | t in sources && t in done :: sources[t])
  }

  lemma PartlyNext(env: Env, w: World, sources: map<Target, Option<Sources>>, done: set<Target>, t: Target)
    requires t in sources && t !in done
    ensures At(Partly(env, w, sources, done), t) == At(w, t)
    ensures Partly(env, w, sources, done + {t})
            == World(w.raw, Partly(env, w, sources, done).at[t := Outcome(env, w, sources, t).0])
  {
    var before, after := Partly(env, w, sources, done), Partly(env, w, sources, done + {t});
    assert after.at.Keys == before.at.Keys + {t};
  }

  /** After one more target. */
  lemma PassStep(env: Env, w: World, sources: map<Target, Option<Sources>>, done: set<Target>, t: Target, after: World,
                 ok: set<Target>)
    requires t in sources && t !in done && after == Partly(env, w, sources, done)
             && ok == Succeeded(env, w, sources) * done
    ensures var outcome := Synthesize(env, t, sources[t], At(after, t));
            && World(after.raw, after.at[t := outcome.0]) == Partly(env, w, sources, done + {t})
            && (if outcome.1 == Synthesized then ok + {t} else ok) == Succeeded(env, w, sources) * (done + {t})
  {
    PartlyNext(env, w, sources, done, t);
  }

  lemma PassBegins(env: Env, w: World, sources: map<Target, Option<Sources>>)
    ensures Partly(env, w, sources, {}) == w && Partly(env, w, sources, sources.Keys) == Pass(env, w, sources)
  {
    assert (map t | t in sources && t in sources.Keys :: sources[t]) == sources;
  }

  /** Which targets have had their turn, and which have not yet. */
  ghost predicate Turns(all: set<Target>, done: set<Target>, left: set<Target>) {
    done + left == all && done !! left
  }

  lemma TakeTurn(all: set<Target>, done: set<Target>, left: set<Target>, t: Target)
    requires Turns(all, done, left) && t in left
    ensures t in all && t !in done && Turns(all, done + {t}, left - {t})
  {}

  lemma LastTurn(all: set<Target>, done: set<Target>)
    requires Turns(all, done, {})
    ensures done == all
  {}

  /** The turn of one target. */
  method RunTarget(env: Env, ghost w: World, ghost sources: map<Target, Option<Sources>>, ghost done: set<Target>,
                   t: Target, source: Option<Sources>, before: World, okBefore: set<Target>)
      returns (after: World, ok: set<Target>)
    requires t in sources && t !in done && source == sources[t]
    requires before == Partly(env, w, sources, done) && okBefore == Succeeded(env, w, sources) * done
    ensures after == Partly(env, w, sources, done + {t}) && ok == Succeeded(env, w, sources) * (done + {t})
  {
    PassStep(env, w, sources, done, t, before, okBefore);
    var outcome := Synthesize(env, t, source, At(before, t));
    after := World(before.raw, before.at[t := outcome.0]);
    ok := if outcome.1 == Synthesized then okBefore + {t} else okBefore;
  }

  predicate ReadAt(env: Env, w: World, groups: map<Target, set<string>>, sources: map<Target, Option<Sources>>,
                   t: Target) {
    t in groups && t in sources ==> sources[t] == AgentSources(env, w, groups[t])
  }

  /** An agent reads its files when its turn comes; no summary written before is among them. */
  method RunAgent(env: Env, ghost w: World, ghost sources: map<Target, Option<Sources>>, ghost done: set<Target>,
                  t: Target, paths: set<string>, before: World, okBefore: set<Target>)
      returns (after: World, ok: set<Target>)
    requires t in sources && t !in done && sources[t] == AgentSources(env, w, paths)
    requires before == Partly(env, w, sources, done) && okBefore == Succeeded(env, w, sources) * done
    ensures after == Partly(env, w, sources, done + {t}) && ok == Succeeded(env, w, sources) * (done + {t})
  {
    after, ok := RunTarget(env, w, sources, done, t, AgentSources(env, before, paths), before, okBefore);
  }

  /** The first pass, in whatever order the agents come. */
  method RunAgents(env: Env, w: World, groups: map<Target, set<string>>, ghost sources: map<Target, Option<Sources>>)
      returns (after: World, ok: set<Target>)
    requires sources.Keys == groups.Keys && forall t :: ReadAt(env, w, groups, sources, t)
    ensures after == Pass(env, w, sources) && ok == Succeeded(env, w, sources)
  {
    PassBegins(env, w, sources);
    after, ok := w, {};
    var left := groups.Keys;
    ghost var done: set<Target> := {};
    while left != {}
      invariant Turns(sources.Keys, done, left)
      invariant after == Partly(env, w, sources, done) && ok == Succeeded(env, w, sources) * done
    {
      var t :| t in left;
      TakeTurn(sources.Keys, done, left, t);
      assert ReadAt(env, w, groups, sources, t);
      after, ok := RunAgent(env, w, sources, done, t, groups[t], after, ok);
      done, left := done + {t}, left - {t};
    }
    LastTurn(sources.Keys, done);
  }

  lemma SameSummaries(env: Env, w: World, after: World, targets: set<Target>)
    requires forall t | t in targets :: At(after, t) == At(w, t)
    ensures SummarySources(env, after, targets) == SummarySources(env, w, targets)
  {
    assert forall t | t in targets :: LatestOf(env, after, t) == LatestOf(env, w, t);
    assert SummaryDocs(env, after, targets) == SummaryDocs(env, w, targets);
  }

  /** A user's sources are the same before and after any other users are processed: they are summaries of agents. */
  lemma UserSourcesStable(env: Env, w: World, agents: set<Target>, done: set<Target>, u: Target)
    requires u in UsersOf(agents)
    ensures SummarySources(env, Partly(env, w, UserPass(env, w, agents), done), AgentsUnder(agents, u))
            == UserPass(env, w, agents)[u]
  {
    var after := Partly(env, w, UserPass(env, w, agents), done);
    forall t | t in AgentsUnder(agents, u)
      ensures At(after, t) == At(w, t)
    {
      assert t !in UserPass(env, w, agents);
    }
    SameSummaries(env, w, after, AgentsUnder(agents, u));
  }

  ghost predicate StableAt(env: Env, w: World, agents: set<Target>, sources: map<Target, Option<Sources>>,
                           done: set<Target>, u: Target) {
    u in sources ==> SummarySources(env, Partly(env, w, sources, done), AgentsUnder(agents, u)) == sources[u]
  }

  /** Whenever a user's turn comes, its sources read the same. */
  ghost predicate Stable(env: Env, w: World, agents: set<Target>, sources: map<Target, Option<Sources>>) {
    forall u, done :: StableAt(env, w, agents, sources, done, u)
  }

  lemma UserPassStable(env: Env, w: World, agents: set<Target>)
    ensures Stable(env, w, agents, UserPass(env, w, agents))
  {
    forall u, done
      ensures StableAt(env, w, agents, UserPass(env, w, agents), done, u)
    {
      if u in UserPass(env, w, agents) { UserSourcesStable(env, w, agents, done, u); }
    }
  }

  /** A user reads the summaries of its agents when its turn comes. */
  method RunUser(env: Env, ghost w: World, agents: set<Target>, ghost sources: map<Target, Option<Sources>>,
                 ghost done: set<Target>,
                 u: Target, before: World, okBefore: set<Target>)
      returns (after: World, ok: set<Target>)
    requires u in sources && u !in done && StableAt(env, w, agents, sources, done, u)
    requires before == Partly(env, w, sources, done) && okBefore == Succeeded(env, w, sources) * done
    ensures after == Partly(env, w, sources, done + {u}) && ok == Succeeded(env, w, sources) * (done + {u})
  {
    after, ok := RunTarget(env, w, sources, done, u, SummarySources(env, before, AgentsUnder(agents, u)), before,
                           okBefore);
  }

  /** The second pass, in whatever order the users come. */
  method RunUsers(env: Env, w: World, agents: set<Target>, ghost sources: map<Target, Option<Sources>>)
        returns (after: World, ok: set<Target>)
    requires sources.Keys == UsersOf(agents) && Stable(env, w, agents, sources)
    ensures after == Pass(env, w, sources) && ok == Succeeded(env, w, sources)
  {
    PassBegins(env, w, sources);
    after, ok := w, {};
    var left := UsersOf(agents);
    ghost var done: set<Target> := {};
    while left != {}
      invariant Turns(sources.Keys, done, left)
      invariant after == Partly(env, w, sources, done) && ok == Succeeded(env, w, sources) * done
    {
      var u :| u in left;
      TakeTurn(sources.Keys, done, left, u);
      assert StableAt(env, w, agents, sources, done, u);
      after, ok := RunUser(env, w, agents, sources, done, u, after, ok);
      done, left := done + {u}, left - {u};
    }
    LastTurn(sources.Keys, done);
  }

  method RunGlobal(env: Env, w: World, users: set<Target>) returns (after: World)
    ensures after == Pass(env, w, GlobalPass(env, w, users))
  {
    ghost var sources := GlobalPass(env, w, users);
    PassBegins(env, w, sources);
    if users == {} {
      assert sources.Keys == {};
      return w;
    }
    PassStep(env, w, sources, {}, Global, w, {});
    var outcome := Synthesize(env, Global, SummarySources(env, w, users), At(w, Global));
    after := World(w.raw, w.at[Global := outcome.0]);
    assert {} + {Global} == sources.Keys;
  }

  // ---------------------------------------------------------------------------
  // The actor
  // ---------------------------------------------------------------------------

  class Synthesizer {
    var changedFiles: set<FileChanged>
    var timerArmed: bool

    constructor ()
      ensures changedFiles == {} && !timerArmed
    {
      changedFiles := {};
      timerArmed := false;
    }

    /** A notification; `spawned` tells that a new cool-down timer runs. */
    method OnFileChanged(f: FileChanged) returns (spawned: bool)
      modifies this
      ensures changedFiles == old(changedFiles) + {f} && timerArmed && spawned == !old(timerArmed)
      ensures forall asleep: nat, queued: nat, batches ::
                ClockStep(Clock(old(changedFiles), old(timerArmed), asleep, queued, batches), Notify(f))
                == Clock(changedFiles, timerArmed, if spawned then asleep + 1 else asleep, queued, batches)
    {
      changedFiles := changedFiles + {f};
      spawned := !timerArmed;
      timerArmed := true;
    }

    /** The end of a cool-down: the pending set is taken and handed to the cascade. */
    method OnTick(env: Env, w: World) returns (after: World)
      modifies this
      ensures changedFiles == {} && !timerArmed && after == Cascade(env, w, old(changedFiles))
      ensures forall asleep: nat, queued: nat, batches | queued > 0 ::
                ClockStep(Clock(old(changedFiles), old(timerArmed), asleep, queued, batches), Tick)
                == Clock(changedFiles, timerArmed, asleep, queued - 1,
                         if old(changedFiles) == {} then batches else batches + [old(changedFiles)])
    {
      timerArmed := false;
      after := Process(env, w);
    }

    method Process(env: Env, w: World) returns (after: World)
      modifies this`changedFiles
      ensures changedFiles == {} && after == Cascade(env, w, old(changedFiles))
    {
      if changedFiles == {} {
        EmptyCascade(env, w);
        return w;
      }
      var changed := changedFiles;
      changedFiles := {};
      var groups := GroupFiles(changed);
      var w1, agents := RunAgents(env, w, groups, AgentPass(env, w, changed));
      UserPassStable(env, w1, agents);
      var w2, users := RunUsers(env, w1, agents, UserPass(env, w1, agents));
      after := RunGlobal(env, w2, users);
    }
  }

  lemma EmptyCascade(env: Env, w: World)
    ensures Cascade(env, w, {}) == w
  {
    var first := AgentPass(env, w, {});
    assert first.Keys == {};
    PassBegins(env, w, first);
    var second := UserPass(env, w, {});
    assert Succeeded(env, w, first) == {};
    assert second.Keys == {};
    PassBegins(env, w, second);
    assert Succeeded(env, w, second) == {};
    assert GlobalPass(env, w, {}).Keys == {};
    PassBegins(env, w, GlobalPass(env, w, {}));
  }

  // ---------------------------------------------------------------------------
  // What the cascade does
  // ---------------------------------------------------------------------------

  /** Grouping loses and invents nothing: the groups are the pending set again. */
  lemma GroupsPartition(changed: set<FileChanged>, f: FileChanged)
    ensures f in changed <==> AgentOf(f) in Groups(changed) && f.path in Groups(changed)[AgentOf(f)]
  {
    if AgentOf(f) in Groups(changed) && f.path in Groups(changed)[AgentOf(f)] {
      var g :| g in changed && AgentOf(g) == AgentOf(f) && g.path == f.path;
      assert g == f;
    }
  }

  /** The agents whose pass succeeded and the world after it. */
  function AgentsDone(env: Env, w: World, changed: set<FileChanged>): set<Target> {
    Succeeded(env, w, AgentPass(env, w, changed))
  }

  function AfterAgents(env: Env, w: World, changed: set<FileChanged>): World {
    Pass(env, w, AgentPass(env, w, changed))
  }

  function UsersDone(env: Env, w: World, changed: set<FileChanged>): set<Target> {
    Succeeded(env, AfterAgents(env, w, changed),
              UserPass(env, AfterAgents(env, w, changed), AgentsDone(env, w, changed)))
  }

  function AfterUsers(env: Env, w: World, changed: set<FileChanged>): World {
    Pass(env, AfterAgents(env, w, changed), UserPass(env, AfterAgents(env, w, changed), AgentsDone(env, w, changed)))
  }

  /** What a user's summary is made from: its agents' latest summaries after the first pass. */
  function UserSources(env: Env, w: World, changed: set<FileChanged>, user: Target): Option<Sources> {
    SummarySources(env, AfterAgents(env, w, changed), AgentsUnder(AgentsDone(env, w, changed), user))
  }

  /** What the global summary is made from: the users' latest summaries after the second pass. */
  function GlobalSources(env: Env, w: World, changed: set<FileChanged>): Option<Sources> {
    SummarySources(env, AfterUsers(env, w, changed), UsersDone(env, w, changed))
  }

  /** A pass leaves the targets it does not have as they are. */
  lemma PassAt(env: Env, w: World, sources: map<Target, Option<Sources>>, t: Target)
    ensures At(Pass(env, w, sources), t)
            == if t in sources then Synthesize(env, t, sources[t], At(w, t)).0 else At(w, t)
  {}

  /** What every target has in the end: an agent is synthesized exactly if one of its files changed, a user exactly
      if one of its agents was synthesized, the global summary exactly if some user was. */
  lemma CascadeAt(env: Env, w: World, changed: set<FileChanged>, t: Target)
    ensures Cascade(env, w, changed).raw == w.raw
    ensures t.Agent? ==>
              At(Cascade(env, w, changed), t)
              == if t in AgentsOf(changed) then
                   Synthesize(env, t, AgentSources(env, w, PathsOf(changed, t)), At(w, t)).0
                 else At(w, t)
    ensures t.User? ==>
              At(Cascade(env, w, changed), t)
              == if exists a :: a in AgentsDone(env, w, changed) && UserOf(a) == t then
                   Synthesize(env, t, UserSources(env, w, changed, t), At(w, t)).0
                 else At(w, t)
    ensures t.Global? ==>
              At(Cascade(env, w, changed), t)
              == if UsersDone(env, w, changed) != {} then
                   Synthesize(env, t, GlobalSources(env, w, changed), At(w, t)).0
                 else At(w, t)
  {
    var first, w1 := AgentPass(env, w, changed), AfterAgents(env, w, changed);
    var second, w2 := UserPass(env, w1, AgentsDone(env, w, changed)), AfterUsers(env, w, changed);
    PassAt(env, w, first, t);
    PassAt(env, w1, second, t);
    PassAt(env, w2, GlobalPass(env, w2, UsersDone(env, w, changed)), t);
    AgentsOnly(env, w, changed, t);
  }

  lemma AgentsOnly(env: Env, w: World, changed: set<FileChanged>, t: Target)
    ensures t in AgentsDone(env, w, changed) ==> t.Agent? && t in AgentsOf(changed)
    ensures t in UsersOf(AgentsDone(env, w, changed)) <==>
            t.User? && exists a :: a in AgentsDone(env, w, changed) && UserOf(a) == t
  {
    forall a | a in AgentsDone(env, w, changed)
      ensures a.Agent? && UserOf(a) == User(a.username)
    {
      assert a in AgentPass(env, w, changed);
    }
    if t in UsersOf(AgentsDone(env, w, changed)) {
      var a :| a in AgentsDone(env, w, changed) && User(a.username) == t;
    }
  }

  /** The model is asked for a summary of `t`. */
  predicate Asks(env: Env, t: Target, sources: Option<Sources>, here: Local) {
    && sources.Some? && (sources.value.docs != map[] || sources.value.deleted != {})
    && !ReadLatest(env, t, here).Unreadable?
  }

  lemma DocsIff(env: Env, w: World, targets: set<Target>)
    ensures SummaryDocs(env, w, targets) != map[] <==> exists t :: t in targets && HasSummary(env, w, t)
  {
    var docs := SummaryDocs(env, w, targets);
    if t :| t in targets && HasSummary(env, w, t) {
      assert SummaryOf(t) in docs;
    } else {
      assert docs.Keys == {};
    }
  }

  lemma SummaryAskedIff(env: Env, w: World, t: Target, targets: set<Target>)
    ensures Asks(env, t, SummarySources(env, w, targets), At(w, t))
            <==> && NoneUnreadable(env, w, targets) && (exists u :: u in targets && HasSummary(env, w, u))
                 && !LatestOf(env, w, t).Unreadable?
  {
    DocsIff(env, w, targets);
  }

  /** The global summary is asked for exactly if some user was synthesized, every such user's latest summary and the
      global one can be read, and at least one of the users has a summary. */
  lemma GlobalAskedIff(env: Env, w: World, users: set<Target>)
    ensures (Global in GlobalPass(env, w, users) && Asks(env, Global, GlobalPass(env, w, users)[Global], At(w, Global)))
            <==> && users != {} && NoneUnreadable(env, w, users) && (exists u :: u in users && HasSummary(env, w, u))
                 && !LatestOf(env, w, Global).Unreadable?
  {
    SummaryAskedIff(env, w, Global, users);
  }

  // ---------------------------------------------------------------------------
  // What a summary is made from, and what becomes of it
  // ---------------------------------------------------------------------------

  /** A notification for `p` has come for the agent `t`. */
  predicate Changed(changed: set<FileChanged>, t: Target, p: string) {
    exists f :: f in changed && Agent(f.username, f.agentId) == t && f.path == p
  }

  /** The changed memories of the agent: those that are there by path and content, the others as deleted. */
  ghost predicate TellsOfMemories(sources: Sources, raw: Files, changed: set<FileChanged>, t: Target) {
    && (forall o :: o in sources.docs <==> o.Memory? && Changed(changed, t, o.path) && o.path in raw)
    && (forall o | o in sources.docs :: sources.docs[o] == SynthesisTask.SourceDoc(o.path, raw[o.path]))
    && (forall p :: p in sources.deleted <==> Changed(changed, t, p) && p !in raw)
  }

  /** The summary of `t` on disk, if any. */
  function OnDisk(env: Env, t: Target, here: Local): Option<string> {
    match env.latest(t, here.files)
    case None => None
    case Some(name) => if name in here.files then Some(here.files[name]) else None
  }

  predicate LatestReadable(env: Env, t: Target, here: Local) {
    env.latest(t, here.files).Some? ==> env.summaryReadable(t, env.latest(t, here.files).value)
  }

  /** The summaries on disk of some targets, by path and content, and nothing as deleted. */
  ghost predicate TellsOfSummaries(sources: Sources, env: Env, w: World, targets: set<Target>) {
    && (forall o :: o in sources.docs <==>
                    o.SummaryOf? && o.target in targets && OnDisk(env, o.target, At(w, o.target)).Some?)
    && (forall o | o in sources.docs ::
          o.SummaryOf? && env.latest(o.target, At(w, o.target).files).Some? &&
          sources.docs[o] ==
          SynthesisTask.SourceDoc(SynthesisPath(o.target, env.latest(o.target, At(w, o.target).files).value),
                                  OnDisk(env, o.target, At(w, o.target)).value))
    && sources.deleted == {}
  }

  /** What comes of a reply: nothing if it is blank; else it is stored under the next name and then indexed as a
      summary, as far as the services work, and `done` tells whether they did. */
  predicate Written(env: Env, t: Target, here: Local, content: string, after: Local, done: bool) {
    var name := env.next(t, here.files);
    if AllSpace(content) then after == here && done
    else
      && after.files == Apply(here.files, Put(name, content, env.store(t)))
      && (done <==> env.store(t) == NoFault && env.embed(t, content).Some? && env.indexes(t))
      && (!done ==> after.index == here.index)
      && (done ==>
            && after.files[name] == content && name in after.index
            && after.index == here.index[name := after.index[name]]
            && EntryTells(env, after.index[name], content, env.embed(t, content).value))
  }

  /** The index entry of a summary: labelled as one, with its size, its model and its chunks and their vectors. */
  predicate EntryTells(env: Env, e: I.Entry, content: string, answer: (string, seq<Vector>)) {
    var chunks := Chunks(content, env.chunkSize, env.overlap);
    && e.source == "synthesized" && e.size == ByteLen(content) && e.model == answer.0
    && |e.chunks| == Min(|chunks|, |answer.1|)
    && forall i | 0 <= i < |e.chunks| ::
         e.chunks[i] == Chunk(chunks[i].text, chunks[i].startLine, chunks[i].endLine, answer.1[i])
  }

  lemma WriteSummaryWrites(env: Env, t: Target, here: Local, content: string)
    ensures var r := WriteSummary(env, t, here, env.next(t, here.files), content);
            Written(env, t, here, content, r.0, r.1 == Synthesized)
  {
    NoChunksIffBlank(content, env.chunkSize, env.overlap);
  }

  /** The model is asked about `sources` and about the summary on disk, and what it answers is written. */
  ghost predicate Refined(env: Env, t: Target, sources: Sources, here: Local, after: Local, done: bool) {
    match env.reply(t, OnDisk(env, t, here), sources)
    case None => after == here && !done
    case Some(content) => Written(env, t, here, content, after, done)
  }

  lemma SynthesizeRefines(env: Env, t: Target, sources: Sources, here: Local)
    requires LatestReadable(env, t, here) && (sources.docs != map[] || sources.deleted != {})
    ensures var r := Synthesize(env, t, Some(sources), here);
            Refined(env, t, sources, here, r.0, r.1 == Synthesized)
  {
    var reply := env.reply(t, OnDisk(env, t, here), sources);
    if reply.Some? { WriteSummaryWrites(env, t, here, reply.value); }
  }

  lemma SynthesizeSkips(env: Env, t: Target, sources: Option<Sources>, here: Local)
    requires sources.Some? && (sources.value.docs != map[] || sources.value.deleted != {}) ==>
               !LatestReadable(env, t, here)
    ensures Synthesize(env, t, sources, here).0 == here && Synthesize(env, t, sources, here).1 != Synthesized
  {}

  lemma ChangedIff(changed: set<FileChanged>, t: Target)
    ensures forall p :: p in PathsOf(changed, t) <==> Changed(changed, t, p)
    ensures t in AgentsOf(changed) <==> exists p :: Changed(changed, t, p)
  {
    forall p
      ensures p in PathsOf(changed, t) <==> Changed(changed, t, p)
    {
      if Changed(changed, t, p) {
        var f :| f in changed && Agent(f.username, f.agentId) == t && f.path == p;
        assert AgentOf(f) == t;
      }
    }
    if t in AgentsOf(changed) {
      var f :| f in changed && AgentOf(f) == t;
      assert Changed(changed, t, f.path);
    }
  }

  lemma AgentSourcesTell(env: Env, w: World, changed: set<FileChanged>, t: Target)
    requires forall p | Changed(changed, t, p) :: env.readable(p)
    ensures var sources := AgentSources(env, w, PathsOf(changed, t));
            && sources.Some? && TellsOfMemories(sources.value, w.raw, changed, t)
            && (t in AgentsOf(changed) ==> sources.value.docs != map[] || sources.value.deleted != {})
  {
    ChangedIff(changed, t);
    var sources := AgentSources(env, w, PathsOf(changed, t)).value;
    if p :| Changed(changed, t, p) {
      assert Memory(p) in sources.docs || p in sources.deleted;
    }
  }

  /** A file of the agent changed, all its changed files can be read, and so can its own summary. */
  ghost predicate AgentAsked(env: Env, w: World, changed: set<FileChanged>, t: Target) {
    && (exists p :: Changed(changed, t, p)) && (forall p | Changed(changed, t, p) :: env.readable(p))
    && LatestReadable(env, t, At(w, t))
  }

  /** What every agent has in the end: it is asked about its changed memories exactly if one changed and all it needs
      can be read, and then what the model answers is written; otherwise nothing happens to it. */
  lemma AgentSummary(env: Env, w: World, changed: set<FileChanged>, t: Target)
    requires t.Agent?
    ensures var here, after := At(w, t), At(Cascade(env, w, changed), t);
            if AgentAsked(env, w, changed, t) then
              exists sources :: TellsOfMemories(sources, w.raw, changed, t)
                                && Refined(env, t, sources, here, after, t in AgentsDone(env, w, changed))
            else after == here && t !in AgentsDone(env, w, changed)
  {
    var here, sources := At(w, t), AgentSources(env, w, PathsOf(changed, t));
    CascadeAt(env, w, changed, t);
    ChangedIff(changed, t);
    if AgentAsked(env, w, changed, t) {
      AgentSourcesTell(env, w, changed, t);
      SynthesizeRefines(env, t, sources.value, here);
    } else if t in AgentsOf(changed) {
      SynthesizeSkips(env, t, sources, here);
    }
  }

  lemma ReadOnDisk(env: Env, w: World, t: Target)
    ensures LatestOf(env, w, t).Unreadable? <==> !LatestReadable(env, t, At(w, t))
    ensures LatestReadable(env, t, At(w, t)) ==> LatestOf(env, w, t).content == OnDisk(env, t, At(w, t))
    ensures HasSummary(env, w, t) ==> env.latest(t, At(w, t).files) == Some(LatestOf(env, w, t).name)
  {}

  lemma SummarySourcesTell(env: Env, w: World, targets: set<Target>)
    requires forall a | a in targets :: LatestReadable(env, a, At(w, a))
    ensures var sources := SummarySources(env, w, targets);
            && sources.Some? && TellsOfSummaries(sources.value, env, w, targets)
            && (sources.value.docs != map[] <==> exists a :: a in targets && OnDisk(env, a, At(w, a)).Some?)
  {
    forall a | a in targets
      ensures !LatestOf(env, w, a).Unreadable? && (HasSummary(env, w, a) <==> OnDisk(env, a, At(w, a)).Some?)
      ensures HasSummary(env, w, a) ==> env.latest(a, At(w, a).files) == Some(LatestOf(env, w, a).name)
    {
      ReadOnDisk(env, w, a);
    }
    DocsIff(env, w, targets);
  }

  /** The summaries of all these targets can be read, there is one, and so can the summary of `t`, if any, be. */
  ghost predicate SummaryAsked(env: Env, w: World, targets: set<Target>, t: Target, here: Local) {
    && (forall a | a in targets :: LatestReadable(env, a, At(w, a)))
    && (exists a :: a in targets && OnDisk(env, a, At(w, a)).Some?)
    && LatestReadable(env, t, here)
  }

  lemma SummaryRefines(env: Env, w: World, targets: set<Target>, t: Target, here: Local)
    ensures var r := Synthesize(env, t, SummarySources(env, w, targets), here);
            if SummaryAsked(env, w, targets, t, here) then
              exists sources :: TellsOfSummaries(sources, env, w, targets)
                                && Refined(env, t, sources, here, r.0, r.1 == Synthesized)
            else r.0 == here && r.1 != Synthesized
  {
    var sources := SummarySources(env, w, targets);
    if forall a | a in targets :: LatestReadable(env, a, At(w, a)) {
      SummarySourcesTell(env, w, targets);
      if SummaryAsked(env, w, targets, t, here) {
        SynthesizeRefines(env, t, sources.value, here);
      } else {
        SynthesizeSkips(env, t, sources, here);
      }
    } else {
      var a :| a in targets && !LatestReadable(env, a, At(w, a));
      ReadOnDisk(env, w, a);
      SynthesizeSkips(env, t, sources, here);
    }
  }

  /** Later passes leave the summaries of agents alone, and the last one those of users. */
  lemma LaterPasses(env: Env, w: World, changed: set<FileChanged>, t: Target)
    ensures t.Agent? ==> At(AfterAgents(env, w, changed), t) == At(Cascade(env, w, changed), t)
    ensures t.User? ==> At(AfterUsers(env, w, changed), t) == At(Cascade(env, w, changed), t)
  {
    var w1, w2 := AfterAgents(env, w, changed), AfterUsers(env, w, changed);
    PassAt(env, w1, UserPass(env, w1, AgentsDone(env, w, changed)), t);
    PassAt(env, w2, GlobalPass(env, w2, UsersDone(env, w, changed)), t);
  }

  lemma SameTelling(env: Env, w: World, v: World, targets: set<Target>, t: Target, here: Local)
    requires forall a | a in targets :: At(w, a) == At(v, a)
    ensures SummaryAsked(env, w, targets, t, here) <==> SummaryAsked(env, v, targets, t, here)
    ensures forall sources :: TellsOfSummaries(sources, env, w, targets) <==> TellsOfSummaries(sources, env, v, targets)
  {}

  /** What every user has in the end: it is asked about the summaries its synthesized agents have then. */
  lemma UserSummary(env: Env, w: World, changed: set<FileChanged>, t: Target, agents: set<Target>)
    requires t.User? && agents == set a | a in AgentsDone(env, w, changed) && a.Agent? && a.username == t.username
    ensures var here, end := At(w, t), Cascade(env, w, changed);
            if SummaryAsked(env, end, agents, t, here) then
              exists sources :: TellsOfSummaries(sources, env, end, agents)
                                && Refined(env, t, sources, here, At(end, t), t in UsersDone(env, w, changed))
            else At(end, t) == here && t !in UsersDone(env, w, changed)
  {
    var w1, end := AfterAgents(env, w, changed), Cascade(env, w, changed);
    assert agents == AgentsUnder(AgentsDone(env, w, changed), t);
    forall a | a in agents ensures At(w1, a) == At(end, a) { LaterPasses(env, w, changed, a); }
    SameTelling(env, w1, end, agents, t, At(w, t));
    SummaryRefines(env, w1, agents, t, At(w, t));
    CascadeAt(env, w, changed, t);
    AgentsOnly(env, w, changed, t);
    UnderIff(AgentsDone(env, w, changed), t);
    PassAt(env, w, AgentPass(env, w, changed), t);
  }

  /** And the global summary is made from those the synthesized users have then. */
  lemma GlobalSummary(env: Env, w: World, changed: set<FileChanged>)
    ensures var here, end, users := At(w, Global), Cascade(env, w, changed), UsersDone(env, w, changed);
            if SummaryAsked(env, end, users, Global, here) then
              exists sources, done :: TellsOfSummaries(sources, env, end, users)
                                      && Refined(env, Global, sources, here, At(end, Global), done)
            else At(end, Global) == here
  {
    var w2, end, users := AfterUsers(env, w, changed), Cascade(env, w, changed), UsersDone(env, w, changed);
    forall u | u in users
      ensures At(w2, u) == At(end, u)
    {
      assert u in UserPass(env, AfterAgents(env, w, changed), AgentsDone(env, w, changed));
      LaterPasses(env, w, changed, u);
    }
    SameTelling(env, w2, end, users, Global, At(w, Global));
    SummaryRefines(env, w2, users, Global, At(w, Global));
    CascadeAt(env, w, changed, Global);
  }

  // ---------------------------------------------------------------------------
  // Isolation
  // ---------------------------------------------------------------------------

  /** The services treat `t` alike. */
  ghost predicate SameFor(env: Env, other: Env, t: Target) {
    && (forall p, s :: env.reply(t, p, s) == other.reply(t, p, s))
    && (forall c :: env.embed(t, c) == other.embed(t, c))
    && (forall f :: env.latest(t, f) == other.latest(t, f) && env.next(t, f) == other.next(t, f))
    && (forall n :: env.summaryReadable(t, n) == other.summaryReadable(t, n))
    && env.store(t) == other.store(t) && env.indexes(t) == other.indexes(t)
    && env.chunkSize == other.chunkSize && env.overlap == other.overlap
  }

  lemma SynthesizeSame(env: Env, other: Env, t: Target, sources: Option<Sources>, here: Local)
    requires SameFor(env, other, t)
    ensures Synthesize(env, t, sources, here) == Synthesize(other, t, sources, here)
  {
    assert ReadLatest(env, t, here) == ReadLatest(other, t, here);
    forall name, content
      ensures WriteSummary(env, t, here, name, content) == WriteSummary(other, t, here, name, content)
    {
      WriteSame(env, other, t, here, name, content);
    }
  }

  lemma WriteSame(env: Env, other: Env, t: Target, here: Local, name: string, content: string)
    requires SameFor(env, other, t)
    ensures WriteSummary(env, t, here, name, content) == WriteSummary(other, t, here, name, content)
  {
    assert env.embed(t, content) == other.embed(t, content);
  }

  /** Whatever happens to other targets, an agent's summaries come out the same as long as the services treat it
      and its changed files alike. */
  lemma AgentIsolation(env: Env, other: Env, w: World, changed: set<FileChanged>, t: Target)
    requires t.Agent? && SameFor(env, other, t)
    requires forall p | p in PathsOf(changed, t) :: env.readable(p) == other.readable(p)
    ensures At(Cascade(env, w, changed), t) == At(Cascade(other, w, changed), t)
    ensures t in AgentsDone(env, w, changed) <==> t in AgentsDone(other, w, changed)
  {
    CascadeAt(env, w, changed, t);
    CascadeAt(other, w, changed, t);
    var sources := AgentSources(env, w, PathsOf(changed, t));
    assert sources == AgentSources(other, w, PathsOf(changed, t));
    SynthesizeSame(env, other, t, sources, At(w, t));
  }

  lemma AgentSame(env: Env, other: Env, w: World, changed: set<FileChanged>, t: Target)
    requires t.Agent? && SameFor(env, other, t)
    requires forall p | p in PathsOf(changed, t) :: env.readable(p) == other.readable(p)
    ensures At(AfterAgents(env, w, changed), t) == At(AfterAgents(other, w, changed), t)
    ensures t in AgentsDone(env, w, changed) <==> t in AgentsDone(other, w, changed)
  {
    PassAt(env, w, AgentPass(env, w, changed), t);
    PassAt(other, w, AgentPass(other, w, changed), t);
    var sources := AgentSources(env, w, PathsOf(changed, t));
    assert sources == AgentSources(other, w, PathsOf(changed, t));
    SynthesizeSame(env, other, t, sources, At(w, t));
  }

  /** The services treat a user, its agents and their changed files alike. */
  ghost predicate SameForUser(env: Env, other: Env, changed: set<FileChanged>, user: Target) {
    && SameFor(env, other, user)
    && forall f | f in changed && User(f.username) == user :: SameFor(env, other, AgentOf(f))
        && env.readable(f.path) == other.readable(f.path)
  }

  lemma UserAgentsSame(env: Env, other: Env, w: World, changed: set<FileChanged>, user: Target, a: Target)
    requires user.User? && SameForUser(env, other, changed, user) && a.Agent? && User(a.username) == user
             && a in AgentsOf(changed)
    ensures At(AfterAgents(env, w, changed), a) == At(AfterAgents(other, w, changed), a)
    ensures a in AgentsDone(env, w, changed) <==> a in AgentsDone(other, w, changed)
    ensures LatestOf(env, AfterAgents(env, w, changed), a) == LatestOf(other, AfterAgents(other, w, changed), a)
  {
    var f :| f in changed && AgentOf(f) == a;
    assert SameFor(env, other, AgentOf(f));
    AgentSame(env, other, w, changed, a);
  }

  lemma UserAgentsAlike(env: Env, other: Env, w: World, changed: set<FileChanged>, user: Target)
    requires user.User? && SameForUser(env, other, changed, user)
    ensures AgentsUnder(AgentsDone(env, w, changed), user) == AgentsUnder(AgentsDone(other, w, changed), user)
    ensures forall a | a in AgentsUnder(AgentsDone(env, w, changed), user) ::
              LatestOf(env, AfterAgents(env, w, changed), a) == LatestOf(other, AfterAgents(other, w, changed), a)
  {
    forall a
      ensures a in AgentsUnder(AgentsDone(env, w, changed), user)
              <==> a in AgentsUnder(AgentsDone(other, w, changed), user)
      ensures a in AgentsUnder(AgentsDone(env, w, changed), user) ==>
                LatestOf(env, AfterAgents(env, w, changed), a) == LatestOf(other, AfterAgents(other, w, changed), a)
    {
      if a.Agent? && User(a.username) == user && a in AgentsOf(changed) {
        UserAgentsSame(env, other, w, changed, user, a);
      }
    }
  }

  lemma AlikeSources(env: Env, other: Env, w: World, v: World, targets: set<Target>)
    requires forall t | t in targets :: LatestOf(env, w, t) == LatestOf(other, v, t)
    ensures SummarySources(env, w, targets) == SummarySources(other, v, targets)
  {
    assert SummaryDocs(env, w, targets) == SummaryDocs(other, v, targets);
  }

  lemma UserSourcesSame(env: Env, other: Env, w: World, changed: set<FileChanged>, user: Target)
    requires user.User? && SameForUser(env, other, changed, user)
    ensures AgentsUnder(AgentsDone(env, w, changed), user) == AgentsUnder(AgentsDone(other, w, changed), user)
    ensures UserSources(env, w, changed, user) == UserSources(other, w, changed, user)
  {
    UserAgentsAlike(env, other, w, changed, user);
    AlikeSources(env, other, AfterAgents(env, w, changed), AfterAgents(other, w, changed),
                 AgentsUnder(AgentsDone(env, w, changed), user));
  }

  /** Likewise for a user: no failure of another user or another user's agent changes its summaries. */
  lemma UserIsolation(env: Env, other: Env, w: World, changed: set<FileChanged>, user: Target)
    requires user.User? && SameForUser(env, other, changed, user)
    ensures At(Cascade(env, w, changed), user) == At(Cascade(other, w, changed), user)
  {
    CascadeAt(env, w, changed, user);
    CascadeAt(other, w, changed, user);
    AgentsOnly(env, w, changed, user);
    AgentsOnly(other, w, changed, user);
    UserSourcesSame(env, other, w, changed, user);
    UnderIff(AgentsDone(env, w, changed), user);
    UnderIff(AgentsDone(other, w, changed), user);
    SynthesizeSame(env, other, user, UserSources(env, w, changed, user), At(w, user));
  }

  lemma UnderIff(agents: set<Target>, user: Target)
    ensures user in UsersOf(agents) <==> AgentsUnder(agents, user) != {}
  {
    if user in UsersOf(agents) {
      var a :| a in agents && a.Agent? && User(a.username) == user;
      assert a in AgentsUnder(agents, user);
    }
    if a :| a in AgentsUnder(agents, user) {
      assert User(a.username) == user;
    }
  }

  // ---------------------------------------------------------------------------
  // Summaries and their index entries
  // ---------------------------------------------------------------------------

  predicate MdName(name: string) {
    Segment(name) && |name| >= 3 && name[|name| - 3..] == ".md"
  }

  /** Every indexed summary is stored, and indexed by exactly its chunks. */
  predicate InStep(env: Env, here: Local) {
    forall name | name in here.index ::
      MdName(name) && name in here.files
          && Texts(here.index[name].chunks) == Chunks(here.files[name], env.chunkSize, env.overlap)
  }

  /** The embedder answers with one vector per chunk. */
  predicate OnePerChunk(env: Env, t: Target, content: string) {
    env.embed(t, content).Some? ==> |env.embed(t, content).value.1| == |Chunks(content, env.chunkSize, env.overlap)|
  }

  /** The reply reaches the file but not the index, which still has the previous content under its name. */
  predicate LeavesStale(env: Env, t: Target, here: Local, name: string, content: string) {
    && Chunks(content, env.chunkSize, env.overlap) != [] && env.store(t) == NoFault
    && (env.embed(t, content).None? || !env.indexes(t))
    && name in here.index && Texts(here.index[name].chunks) != Chunks(content, env.chunkSize, env.overlap)
  }

  lemma MdTmp(name: string)
    requires MdName(name)
    ensures TmpPath(name) == TmpName(name) && Segment(TmpPath(name)) && !MdName(TmpPath(name))
  {
    LastIndexFacts(name, '/');
    TmpNameFixed(name);
    TmpNameSegment(name);
    assert name[|name| - 3] == '.' && name[|name| - 1] == 'd';
    var tmp := TmpName(name);
    assert name != "";
    assert TmpExtension(tmp);
    if |tmp| > 4 && tmp[|tmp| - 4..] == TMP {
      assert tmp[|tmp| - 1] == TMP[3];
    }
    assert tmp[|tmp| - 1] != 'd';
  }

  /** The temporary file of a summary lies in the same folder. */
  lemma TmpStaysInFolder(t: Target, name: string)
    requires MdName(name)
    ensures TmpPath(SynthesisPath(t, name)) == SynthesisPath(t, TmpPath(name))
  {
    MdTmp(name);
    LastNameOf(SynthesisFolder(t), name);
    var dir, last := Split(SynthesisPath(t, name));
    SplitLastUnique(dir, last, SynthesisFolder(t), name, '/');
  }

  lemma WriteKeepsStep(env: Env, t: Target, here: Local, name: string, content: string)
    requires InStep(env, here) && MdName(name) && OnePerChunk(env, t, content)
    ensures InStep(env, WriteSummary(env, t, here, name, content).0) <==> !LeavesStale(env, t, here, name, content)
  {
    MdTmp(name);
    var after := WriteSummary(env, t, here, name, content).0;
    if env.embed(t, content).Some? {
      ZipTexts(Chunks(content, env.chunkSize, env.overlap), env.embed(t, content).value.1);
    }
    if LeavesStale(env, t, here, name, content) {
      assert after.files[name] == content;
    }
  }

  /** The reply to a request, when it gets that far. */
  function ReplyTo(env: Env, t: Target, sources: Option<Sources>, here: Local): Option<string> {
    if Asks(env, t, sources, here) then env.reply(t, ReadLatest(env, t, here).content, sources.value) else None
  }

  /** A target's summaries and index stay in step exactly unless its file is rewritten and then embedding or
      indexing fails: the storage comes first here, unlike for memories. */
  lemma SynthesizeInStepIff(env: Env, t: Target, sources: Option<Sources>, here: Local)
    requires InStep(env, here) && MdName(env.next(t, here.files))
    requires forall content :: OnePerChunk(env, t, content)
    ensures InStep(env, Synthesize(env, t, sources, here).0)
            <==> (ReplyTo(env, t, sources, here).Some?
                  ==> !LeavesStale(env, t, here, env.next(t, here.files), ReplyTo(env, t, sources, here).value))
  {
    var reply := ReplyTo(env, t, sources, here);
    if reply.Some? { WriteKeepsStep(env, t, here, env.next(t, here.files), reply.value); }
  }

  /** A blank reply overwrites nothing, and counts as synthesized all the same. */
  lemma BlankReplyKeeps(env: Env, t: Target, sources: Option<Sources>, here: Local)
    requires ReplyTo(env, t, sources, here).Some? && AllSpace(ReplyTo(env, t, sources, here).value)
    ensures Synthesize(env, t, sources, here) == (here, Synthesized)
  {
    NoChunksIffBlank(ReplyTo(env, t, sources, here).value, env.chunkSize, env.overlap);
  }

  // ---------------------------------------------------------------------------
  // The cool-down timer
  // ---------------------------------------------------------------------------

  /** The actor with the timers still asleep and the ticks in its mailbox, and the batches it has handed on. */
  datatype Clock = Clock(changed: set<FileChanged>, armed: bool, asleep: nat, queued: nat,
                         batches: seq<set<FileChanged>>)

  datatype ClockEvent = Notify(file: FileChanged) | Wake | Tick

  const IDLE: Clock := Clock({}, false, 0, 0, [])

  /** A timer that is not there cannot wake, a tick that is not queued cannot be handled. */
  function ClockStep(c: Clock, e: ClockEvent): Clock {
    match e
    case Notify(f) =>
      c.(changed := c.changed + {f}, armed := true, asleep := if c.armed then c.asleep else c.asleep + 1)
    case Wake => if c.asleep == 0 then c else c.(asleep := c.asleep - 1, queued := c.queued + 1)
    case Tick =>
      if c.queued == 0 then c
      else Clock({}, false, c.asleep, c.queued - 1, if c.changed == {} then c.batches else c.batches + [c.changed])
  }

  function ClockRun(events: seq<ClockEvent>): Clock {
    if events == [] then IDLE else ClockStep(ClockRun(events[..|events| - 1]), events[|events| - 1])
  }

  /** The ticks of a run that are handled, by position. */
  predicate Handled(events: seq<ClockEvent>, i: nat)
    requires i < |events|
  {
    events[i] == Tick && ClockRun(events[..i]).queued > 0
  }

  /** The notifications received since the last tick handled. */
  function Pending(events: seq<ClockEvent>): set<FileChanged> {
    if events == [] then {}
    else
      var n := |events| - 1;
      if Handled(events, n) then {}
      else Pending(events[..n]) + if events[n].Notify? then {events[n].file} else {}
  }

  /** For each tick handled with something pending, what was. */
  function Batches(events: seq<ClockEvent>): seq<set<FileChanged>> {
    if events == [] then []
    else
      var n := |events| - 1;
      if Handled(events, n) && Pending(events[..n]) != {} then Batches(events[..n]) + [Pending(events[..n])]
      else Batches(events[..n])
  }

  /** In every run: armed says that exactly one timer or tick is outstanding, and otherwise none is; something
      pending means armed; what is pending are the notifications since the last tick handled, and what has been
      handed on is, tick by tick, what was pending then. */
  lemma {:induction false} ClockInvariant(events: seq<ClockEvent>)
    ensures var c := ClockRun(events);
            && c.asleep + c.queued == (if c.armed then 1 else 0)
            && (c.changed != {} ==> c.armed)
            && c.changed == Pending(events)
            && c.batches == Batches(events)
  {
    if events != [] {
      var n := |events| - 1;
      ClockInvariant(events[..n]);
      assert Handled(events, n) <==> events[n] == Tick && ClockRun(events[..n]).queued > 0;
    }
  }

  /** What is pending is handed on by the next wake-up and tick, whatever happens before. */
  lemma PendingIsHandedOn(events: seq<ClockEvent>)
    requires ClockRun(events).changed != {}
    ensures var c := ClockRun(events);
            var next := if c.queued > 0 then ClockStep(c, Tick) else ClockStep(ClockStep(c, Wake), Tick);
            next.changed == {} && !next.armed && next.batches == c.batches + [c.changed]
  {
    ClockInvariant(events);
  }

  /** `f` was notified after the last tick handled. */
  predicate NotifiedSince(events: seq<ClockEvent>, f: FileChanged) {
    exists i | 0 <= i < |events| :: events[i] == Notify(f) && NoTickAfter(events, i)
  }

  predicate NoTickAfter(events: seq<ClockEvent>, i: nat) {
    forall j | i < j < |events| :: !Handled(events, j)
  }

  lemma HandledPrefix(events: seq<ClockEvent>, n: nat, j: nat)
    requires j < n <= |events|
    ensures Handled(events[..n], j) <==> Handled(events, j)
  {
    assert events[..n][..j] == events[..j];
  }

  lemma {:induction false} PendingIff(events: seq<ClockEvent>, f: FileChanged)
    ensures f in Pending(events) <==> NotifiedSince(events, f)
  {
    if events != [] {
      var n := |events| - 1;
      PendingIff(events[..n], f);
      forall j | 0 <= j < n ensures Handled(events[..n], j) <==> Handled(events, j) { HandledPrefix(events, n, j); }
      if events[n] == Notify(f) {
        assert NoTickAfter(events, n);
      } else if NotifiedSince(events[..n], f) && !Handled(events, n) {
        var i :| 0 <= i < n && events[..n][i] == Notify(f) && NoTickAfter(events[..n], i);
        assert events[i] == Notify(f) && NoTickAfter(events, i);
      } else if NotifiedSince(events, f) {
        var i :| 0 <= i < |events| && events[i] == Notify(f) && NoTickAfter(events, i);
        assert i < n && !Handled(events, n);
        assert events[..n][i] == Notify(f) && NoTickAfter(events[..n], i);
      }
    }
  }

  predicate InBatches(batches: seq<set<FileChanged>>, f: FileChanged) {
    exists k | 0 <= k < |batches| :: f in batches[k]
  }

  lemma InBatchesSnoc(batches: seq<set<FileChanged>>, batch: set<FileChanged>, f: FileChanged)
    ensures InBatches(batches + [batch], f) <==> InBatches(batches, f) || f in batch
  {
    var all := batches + [batch];
    assert all[|batches|] == batch;
    if InBatches(batches, f) {
      var k :| 0 <= k < |batches| && f in batches[k];
      assert f in all[k];
    }
  }

  /** Every notification of a run is pending or in a batch, and nothing else is. */
  lemma {:induction false} NothingLost(events: seq<ClockEvent>, f: FileChanged)
    ensures Notify(f) in events <==> f in Pending(events) || InBatches(Batches(events), f)
  {
    if events != [] {
      var n := |events| - 1;
      NothingLost(events[..n], f);
      assert events == events[..n] + [events[n]];
      InBatchesSnoc(Batches(events[..n]), Pending(events[..n]), f);
    }
  }
}
