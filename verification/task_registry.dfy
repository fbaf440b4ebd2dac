// The registry of synthesis tasks: one task per target, started on demand, which ends by itself when idle and whose
// end is reported later, by target only (llm.rs).
module TaskRegistry {
  import opened Paths

  /** `tasks` is the map of the service. Of the tasks ever started, those that run, those whose end a watcher awaits,
      and those whose termination notice is on its way to the service. */
  datatype Registry = Registry(
    tasks: map<Target, nat>,
    running: set<nat>,
    watched: set<nat>,
    noticed: set<nat>,
    target: map<nat, Target>,
    next: nat)

  datatype Event = Request(t: Target, starts: bool) | Ends(id: nat) | Reported(id: nat) | NoticeHandled(id: nat)

  const START: Registry := Registry(map[], {}, {}, {}, map[], 0)

  function Step(s: Registry, e: Event): Registry {
    match e
    case Request(t, starts) =>
      if t in s.tasks || !starts then s
      else Registry(s.tasks[t := s.next], s.running + {s.next}, s.watched + {s.next}, s.noticed, s.target[s.next := t],
                    s.next + 1)
    case Ends(id) => s.(running := s.running - {id})
    case Reported(id) =>
      if id in s.watched && id !in s.running then s.(watched := s.watched - {id}, noticed := s.noticed + {id})
      else s
    case NoticeHandled(id) =>
      if id in s.noticed && id in s.target then s.(tasks := s.tasks - {s.target[id]}, noticed := s.noticed - {id})
      else s
  }

  function Run(events: seq<Event>): Registry {
    if events == [] then START else Step(Run(events[..|events| - 1]), events[|events| - 1])
  }

  /** The service itself: it knows the map only. */
  class LlmService {
    var tasks: map<Target, nat>

    constructor ()
      ensures tasks == START.tasks
    {
      tasks := map[];
    }

    /** The task a request goes to, a new one if the target has none; none if a new one cannot be started. */
    method OnSynthesize(t: Target, starts: bool, ghost s: Registry, next: nat) returns (task: nat, routed: bool)
      requires tasks == s.tasks && next == s.next
      modifies this
      ensures tasks == Step(s, Request(t, starts)).tasks
      ensures routed <==> t in tasks
      ensures routed ==> task == tasks[t]
    {
      if t in tasks {
        return tasks[t], true;
      }
      if !starts {
        return 0, false;
      }
      tasks := tasks[t := next];
      return next, true;
    }

    /** A termination notice carries only the target. */
    method OnTerminated(t: Target, ghost s: Registry, ghost id: nat)
      requires tasks == s.tasks && id in s.noticed && id in s.target && s.target[id] == t
      modifies this
      ensures tasks == Step(s, NoticeHandled(id)).tasks
    {
      tasks := tasks - {t};
    }
  }

  // ---------------------------------------------------------------------------
  // Safety
  // ---------------------------------------------------------------------------

  predicate Outstanding(s: Registry, id: nat) {
    id in s.watched || id in s.noticed
  }

  /** Entries of the map and outstanding watchers or notices correspond one to one. */
  ghost predicate Matched(s: Registry) {
    && (forall t | t in s.tasks :: Outstanding(s, s.tasks[t]) && s.tasks[t] in s.target && s.target[s.tasks[t]] == t)
    && (forall id | Outstanding(s, id) :: id in s.target && s.target[id] in s.tasks && s.tasks[s.target[id]] == id)
  }

  ghost predicate Valid(s: Registry) {
    && s.running <= s.watched && s.watched !! s.noticed
    && (forall id | id in s.target :: id < s.next)
    && Matched(s)
  }

  lemma StepValid(s: Registry, e: Event)
    requires Valid(s)
    ensures Valid(Step(s, e))
  {
    match e
    case Request(t, starts) =>
      if t !in s.tasks && starts { StartValid(s, t); }
    case Ends(id) =>
    case Reported(id) =>
      var u := Step(s, e);
      assert forall i :: Outstanding(u, i) <==> Outstanding(s, i);
    case NoticeHandled(id) => HandleValid(s, id);
  }

  lemma StartValid(s: Registry, t: Target)
    requires Valid(s) && t !in s.tasks
    ensures Valid(Step(s, Request(t, true)))
  {
    var u := Step(s, Request(t, true));
    assert !Outstanding(s, s.next);
    forall id | Outstanding(u, id)
      ensures id in u.target && u.target[id] in u.tasks && u.tasks[u.target[id]] == id
    {
      if id != s.next { assert Outstanding(s, id); }
    }
  }

  lemma HandleValid(s: Registry, id: nat)
    requires Valid(s)
    ensures Valid(Step(s, NoticeHandled(id)))
  {
    var u := Step(s, NoticeHandled(id));
    if id in s.noticed && id in s.target {
      assert Outstanding(s, id);
      forall t | t in u.tasks
        ensures Outstanding(u, u.tasks[t])
      {
        assert Outstanding(s, s.tasks[t]) && s.target[s.tasks[t]] == t;
      }
      forall other | Outstanding(u, other)
        ensures u.target[other] in u.tasks && u.tasks[u.target[other]] == other
      {
        assert Outstanding(s, other);
      }
    }
  }

  lemma {:induction false} RunValid(events: seq<Event>)
    ensures Valid(Run(events))
  {
    if events != [] {
      RunValid(events[..|events| - 1]);
      StepValid(Run(events[..|events| - 1]), events[|events| - 1]);
    }
  }

  /** In every interleaving each target has at most one running task, and it is the one in the map. */
  lemma OneTaskPerTarget(events: seq<Event>, id: nat, other: nat)
    requires var s := Run(events); id in s.running && other in s.running
    ensures var s := Run(events);
            && id in s.target && s.target[id] in s.tasks && s.tasks[s.target[id]] == id
            && other in s.target && (s.target[id] == s.target[other] ==> id == other)
  {
    var s := Run(events);
    RunValid(events);
    assert Outstanding(s, id) && Outstanding(s, other);
  }

  /** A watcher or a notice for the end of task `id` of `t` is outstanding. */
  predicate Reports(s: Registry, id: nat, t: Target) {
    Outstanding(s, id) && id in s.target && s.target[id] == t
  }

  /** A target has an entry in the map exactly if a watcher or notice is outstanding for it, and then exactly one, that
      of the task in the entry. */
  lemma OneWatcherPerEntry(events: seq<Event>, t: Target)
    ensures var s := Run(events);
            && (t in s.tasks <==> exists id :: Reports(s, id, t))
            && (forall id | Reports(s, id, t) :: s.tasks[t] == id && !(id in s.watched && id in s.noticed))
  {
    var s := Run(events);
    RunValid(events);
    if t in s.tasks { assert Reports(s, s.tasks[t], t); }
  }

  /** However late it comes, a notice removes the entry of the very task it reports, never that of a newer one. */
  lemma NoticeRemovesItsOwn(events: seq<Event>, id: nat)
    requires id in Run(events).noticed
    ensures var s, u := Run(events), Step(Run(events), NoticeHandled(id));
            && id in s.target && s.target[id] in s.tasks && s.tasks[s.target[id]] == id && id !in s.running
            && u.tasks == s.tasks - {s.target[id]}
            && forall t | t in s.tasks && s.tasks[t] in s.running :: t in u.tasks && u.tasks[t] == s.tasks[t]
  {
    var s := Run(events);
    RunValid(events);
    assert Outstanding(s, id);
  }

  /** A request that can start a task reaches a running one, except exactly while the task of its target has ended
      and the notice of that is not yet handled. */
  lemma ReachesRunningIff(events: seq<Event>, t: Target)
    ensures var s, u := Run(events), Step(Run(events), Request(t, true));
            t in u.tasks && (u.tasks[t] in u.running <==> (t in s.tasks ==> s.tasks[t] in s.running))
  {
    RunValid(events);
  }

  /** That state passes: once the end is reported and the notice handled, the next request starts a new task. */
  lemma StaleEntryPasses(events: seq<Event>, t: Target)
    requires var s := Run(events); t in s.tasks && s.tasks[t] !in s.running
    ensures var s := Run(events);
            var u := Step(Step(s, Reported(s.tasks[t])), NoticeHandled(s.tasks[t]));
            t !in u.tasks && Step(u, Request(t, true)).tasks[t] in Step(u, Request(t, true)).running
  {
    RunValid(events);
    assert Outstanding(Run(events), Run(events).tasks[t]);
  }
}
