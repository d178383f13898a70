/** Quest records as the plugin reads them from the host's quest store, the
    eligibility filter that builds the worklist (`quests` in `runSnippet`),
    and the resolution of the one task that drives a quest in `doJob`. */
module Quests {
  import opened Wrappers

  /** The task kinds the plugin knows how to drive, one per key of
      `taskConfig.tasks` it reads: "WATCH_VIDEO", "PLAY_ON_DESKTOP",
      "STREAM_ON_DESKTOP", "PLAY_ACTIVITY" and "WATCH_VIDEO_ON_MOBILE". */
  datatype TaskKind = WatchVideo | PlayOnDesktop | StreamOnDesktop | PlayActivity | WatchVideoOnMobile

  /** The supported tasks, in the order the plugin tries them. */
  const SUPPORTED_TASKS: seq<TaskKind> :=
    [WatchVideo, PlayOnDesktop, StreamOnDesktop, PlayActivity, WatchVideoOnMobile]

  /** One entry of `config.taskConfig.tasks`. */
  datatype Task = Task(target: int)

  /** A task configuration; a key of `tasks` may be present with a null value.
      Only the supported keys are ever read, so the map is keyed by kind. */
  datatype TaskConfig = TaskConfig(tasks: map<TaskKind, Option<Task>>)

  /** The fields of a quest the plugin reads. Timestamps are milliseconds;
      `expiresAt` and `enrolledAt` are None when the date is missing or does
      not parse (getTime() is NaN). `completed` is whether
      `userStatus.completedAt` is truthy; that date is never parsed.
      `progress` maps a task kind to `userStatus.progress[name].value`. */
  datatype Quest = Quest(
    id: string,
    applicationId: string,
    applicationName: string,
    questName: string,
    configVersion: int,
    expiresAt: Option<int>,
    taskConfig: Option<TaskConfig>,
    taskConfigV2: Option<TaskConfig>,
    enrolledAt: Option<int>,
    completed: bool,
    progress: map<TaskKind, int>)

  /** How a completion strategy ended, as far as the inputs it was given reach. */
  datatype Outcome =
    | Completed   // success path: the strategy calls doJob again
    | Abandoned   // an error was caught and logged; the worklist does not advance
    | Suspended   // still waiting on a clock tick, a reply or an event beyond the inputs
    | Unresolved  // desktop-only quest in the browser: guidance logged, nothing else

  /** `taskConfig ?? taskConfigV2`. */
  function ConfigOf(q: Quest): Option<TaskConfig> {
    if q.taskConfig.Some? then q.taskConfig else q.taskConfigV2
  }

  /** `kinds.findIndex(k => present has k)`: the position of the earliest kind in `present`. */
  function FirstIn(kinds: seq<TaskKind>, present: set<TaskKind>, from: nat := 0): (r: Option<nat>)
    requires from <= |kinds|
    ensures r.Some? ==> from <= r.value < |kinds| && kinds[r.value] in present
    ensures r.Some? ==> forall j :: from <= j < r.value ==> kinds[j] !in present
    ensures r.None? ==> forall j :: from <= j < |kinds| ==> kinds[j] !in present
    decreases |kinds| - from
  {
    if from == |kinds| then None
    else if kinds[from] in present then Some(from)
    else FirstIn(kinds, present, from + 1)
  }

  /** The task kinds a configuration lists, whatever their values (`Object.keys(tasks)`). */
  function ListedTasks(c: TaskConfig): set<TaskKind> {
    c.tasks.Keys
  }

  /** The task kinds a configuration lists with a non-null value (`tasks[x] != null`). */
  function DefinedTasks(c: TaskConfig): set<TaskKind> {
    set name | name in c.tasks && c.tasks[name].Some?
  }

  /** The first three conjuncts of the filter: enrolled, not completed, not expired. */
  predicate Live(q: Quest, now: int) {
    q.enrolledAt.Some? && !q.completed && q.expiresAt.Some? && q.expiresAt.value > now
  }

  /** A live quest without either task configuration makes the filter throw. */
  predicate Faults(q: Quest, now: int) {
    Live(q, now) && ConfigOf(q).None?
  }

  /** The whole filter predicate of `runSnippet`. */
  predicate Eligible(q: Quest, now: int) {
    Live(q, now) && ConfigOf(q).Some? && FirstIn(SUPPORTED_TASKS, ListedTasks(ConfigOf(q).value)).Some?
  }

  /** The worklist built from the store's quests at time `now`, or None when
      the filter throws (a live quest with no task configuration at all). */
  function EligibleQuests(catalog: seq<Quest>, now: int): (r: Option<seq<Quest>>)
    ensures r.None? <==> exists i :: 0 <= i < |catalog| && Faults(catalog[i], now)
    ensures r.Some? ==> forall q :: q in r.value ==> q in catalog && Eligible(q, now)
    ensures r.Some? ==> forall i :: 0 <= i < |catalog| && Eligible(catalog[i], now) ==> catalog[i] in r.value
  {
    if catalog == [] then Some([])
    else if Faults(catalog[0], now) then None
    else
      var rest := EligibleQuests(catalog[1..], now);
      assert forall i :: 1 <= i < |catalog| ==> catalog[i] == catalog[1..][i - 1];
      if rest.None? then None
      else if Eligible(catalog[0], now) then Some([catalog[0]] + rest.value)
      else rest
  }

  /** The filter keeps order: filtering a concatenation concatenates the filtered parts. */
  lemma {:induction false} EligibleQuestsKeepOrder(a: seq<Quest>, b: seq<Quest>, now: int)
    ensures EligibleQuests(a + b, now) ==
      (if EligibleQuests(a, now).Some? && EligibleQuests(b, now).Some?
       then Some(EligibleQuests(a, now).value + EligibleQuests(b, now).value)
       else None)
  {
    if a == [] {
      assert a + b == b;
      assert EligibleQuests(a, now) == Some([]);
      if EligibleQuests(b, now).Some? {
        assert [] + EligibleQuests(b, now).value == EligibleQuests(b, now).value;
      }
    } else {
      assert (a + b)[0] == a[0] && (a + b)[1..] == a[1..] + b;
      EligibleQuestsKeepOrder(a[1..], b, now);
      var rest := EligibleQuests(a[1..], now);
      if !Faults(a[0], now) && rest.Some? && EligibleQuests(b, now).Some? && Eligible(a[0], now) {
        assert [a[0]] + (rest.value + EligibleQuests(b, now).value)
            == ([a[0]] + rest.value) + EligibleQuests(b, now).value;
      }
    }
  }

  /** A single quest is kept exactly when it is eligible. */
  lemma EligibleQuestsOfOne(q: Quest, now: int)
    ensures EligibleQuests([q], now) ==
      if Faults(q, now) then None else if Eligible(q, now) then Some([q]) else Some([])
  {
    assert [q][1..] == [];
    assert EligibleQuests([], now) == Some([]);
    assert [q] + [] == [q];
  }

  /** The task that drives a quest, its target and the progress already recorded. */
  datatype Resolved = Resolved(task: TaskKind, target: int, secondsDone: int)

  /** `taskName = supportedTasks.find(x => taskConfig.tasks[x] != null)` with its
      target and `progress[taskName].value ?? 0`; None where `doJob` throws
      (no configuration, or no supported task with a non-null value). */
  function ResolveTask(q: Quest): (r: Option<Resolved>)
    ensures r.None? <==>
      ConfigOf(q).None? ||
      forall i :: 0 <= i < |SUPPORTED_TASKS| ==> SUPPORTED_TASKS[i] !in DefinedTasks(ConfigOf(q).value)
    ensures r.Some? ==>
      var tasks := ConfigOf(q).value.tasks;
      var name := r.value.task;
      (exists i :: 0 <= i < |SUPPORTED_TASKS| && SUPPORTED_TASKS[i] == r.value.task &&
         forall j :: 0 <= j < i ==> SUPPORTED_TASKS[j] !in DefinedTasks(ConfigOf(q).value)) &&
      name in tasks && tasks[name] == Some(Task(r.value.target)) &&
      (name in q.progress ==> r.value.secondsDone == q.progress[name]) &&
      (name !in q.progress ==> r.value.secondsDone == 0)
  {
    match ConfigOf(q)
    case None => None
    case Some(c) =>
      match FirstIn(SUPPORTED_TASKS, DefinedTasks(c))
      case None => None
      case Some(i) =>
        var name := SUPPORTED_TASKS[i];
        Some(Resolved(SUPPORTED_TASKS[i], c.tasks[name].value.target,
                      if name in q.progress then q.progress[name] else 0))
  }

  /** When no supported task is listed with a null value, the task resolved for
      an eligible quest always exists and is the very task the filter found. */
  lemma ResolveMatchesFilter(q: Quest, now: int)
    requires Eligible(q, now)
    requires forall name :: name in ListedTasks(ConfigOf(q).value) ==> name in DefinedTasks(ConfigOf(q).value)
    ensures ResolveTask(q).Some?
    ensures ResolveTask(q).value.task ==
      SUPPORTED_TASKS[FirstIn(SUPPORTED_TASKS, ListedTasks(ConfigOf(q).value)).value]
  {
    var c := ConfigOf(q).value;
    var i := FirstIn(SUPPORTED_TASKS, ListedTasks(c)).value;
    assert SUPPORTED_TASKS[i] in DefinedTasks(c);
    assert ListedTasks(c) >= DefinedTasks(c);
    var k := FirstIn(SUPPORTED_TASKS, DefinedTasks(c)).value;
    assert k == i;
  }

  /** The filter tests only that a supported key is listed; a quest whose only
      supported key has a null value is kept, and `doJob` then finds no task. */
  lemma NullTaskPassesFilter()
    ensures var q := Quest("1", "a", "A", "Q", 2, Some(10), Some(TaskConfig(map[WatchVideo := None])),
                           None, Some(0), false, map[]);
            Eligible(q, 0) && ResolveTask(q).None?
  {
    var c := TaskConfig(map[WatchVideo := None]);
    assert SUPPORTED_TASKS[0] in ListedTasks(c);
    assert DefinedTasks(c) == {};
  }
}
