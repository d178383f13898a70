/** The worklist and `doJob`: the eligible quests are held in one mutable
    list, `doJob` pops the last one, resolves its task and starts the matching
    strategy, and only a strategy's success path calls `doJob` again. */
module Orchestrator {
  import opened Wrappers
  import opened Quests
  import VideoStrategy
  import ActivityStrategy
  import DesktopStrategy

  /** The inputs one strategy run sees: clock readings and replies for the
      video loop, replies for the heartbeat loop, and for the desktop
      strategies whether the application metadata was found and the events. */
  datatype Env = Env(
    clock: seq<int>,
    videoReplies: seq<VideoStrategy.VideoReply>,
    heartbeatReplies: seq<ActivityStrategy.HeartbeatReply>,
    metadataFound: bool,
    events: seq<DesktopStrategy.HeartbeatEvent>)

  /** The inputs of the k-th strategy run; none beyond those given. */
  function EnvAt(envs: seq<Env>, k: nat): Env {
    if k < |envs| then envs[k] else Env([], [], [], false, [])
  }

  /** The strategy `doJob` starts for a quest and how it ends. A quest whose
      task cannot be resolved makes `doJob` throw and the worklist stop; the
      error is caught and logged unless that `doJob` was called from a desktop
      heartbeat handler.
      A video quest without a readable enrolment date never passes `Live`;
      it is given `Abandoned` here only so that every quest has an outcome. */
  function Dispatch(q: Quest, isApp: bool, channelId: string, env: Env): Outcome {
    match ResolveTask(q)
    case None => Abandoned
    case Some(t) =>
      match t.task
      case WatchVideo | WatchVideoOnMobile =>
        if q.enrolledAt.None? then Abandoned
        else VideoStrategy.VideoStrategyRun(t, q.enrolledAt.value, env.clock, env.videoReplies).outcome
      case PlayOnDesktop =>
        DesktopStrategy.DesktopOutcome(isApp, env.metadataFound, q.configVersion, t.target, env.events)
      case StreamOnDesktop =>
        DesktopStrategy.DesktopOutcome(isApp, true, q.configVersion, t.target, env.events)
      case PlayActivity =>
        ActivityStrategy.ActivityLoop(t.target, ActivityStrategy.StreamKey(channelId), env.heartbeatReplies).outcome
  }

  /** An unresolvable task is abandoned, and the strategy run is left
      unresolved exactly when a desktop task is dispatched in the browser. */
  lemma DispatchOutcome(q: Quest, isApp: bool, channelId: string, env: Env)
    ensures ResolveTask(q).None? ==> Dispatch(q, isApp, channelId, env) == Abandoned
    ensures Dispatch(q, isApp, channelId, env) == Unresolved <==>
      !isApp && ResolveTask(q).Some? &&
      ResolveTask(q).value.task in {PlayOnDesktop, StreamOnDesktop}
  {
  }

  /** How the k-th strategy run of a session ends, for a quest. */
  type Runs = (Quest, nat) -> Outcome

  /** The runs of one session: the k-th sees `envs[k]`. */
  function SessionRuns(isApp: bool, channelId: string, envs: seq<Env>): Runs {
    (q: Quest, k: nat) => Dispatch(q, isApp, channelId, EnvAt(envs, k))
  }

  lemma SessionRunsAt(isApp: bool, channelId: string, envs: seq<Env>, q: Quest, k: nat)
    ensures SessionRuns(isApp, channelId, envs)(q, k) == Dispatch(q, isApp, channelId, EnvAt(envs, k))
  {
  }

  /** One dispatched quest and how its strategy ended. */
  datatype Job = Job(quest: Quest, outcome: Outcome)

  /** The chain of `doJob` calls from a worklist: the last quest first, and
      the next only after a strategy completed; the k-th run ends as `runs` says. */
  function Schedule(worklist: seq<Quest>, runs: Runs, k: nat): seq<Job>
    decreases |worklist|
  {
    if worklist == [] then []
    else
      var q := worklist[|worklist| - 1];
      var o := runs(q, k);
      [Job(q, o)] + (if o == Completed then Schedule(worklist[..|worklist| - 1], runs, k + 1) else [])
  }

  /** LIFO: the i-th dispatched quest is the i-th from the end of the worklist,
      and it is the i-th strategy run. */
  lemma {:induction false} ScheduleIsLifo(worklist: seq<Quest>, runs: Runs, k: nat)
    ensures var log := Schedule(worklist, runs, k);
      |log| <= |worklist| &&
      forall i :: 0 <= i < |log| ==>
        log[i].quest == worklist[|worklist| - 1 - i] && log[i].outcome == runs(log[i].quest, k + i)
    decreases |worklist|
  {
    if worklist != [] {
      var front := worklist[..|worklist| - 1];
      ScheduleIsLifo(front, runs, k + 1);
      var log := Schedule(worklist, runs, k);
      var q := worklist[|worklist| - 1];
      if runs(q, k) == Completed {
        var rest := Schedule(front, runs, k + 1);
        forall i | 1 <= i < |log|
          ensures log[i].quest == worklist[|worklist| - 1 - i]
          ensures log[i].outcome == runs(log[i].quest, k + i)
        {
          assert log[i] == rest[i - 1];
          assert front[|front| - 1 - (i - 1)] == worklist[|worklist| - 1 - i];
        }
      }
    }
  }

  /** The worklist advances only from a completed strategy: every dispatch but
      the last completed, and when quests remain, the last did not. */
  lemma {:induction false} AdvancesOnlyOnCompletion(worklist: seq<Quest>, runs: Runs, k: nat)
    ensures var log := Schedule(worklist, runs, k);
      (worklist != [] ==> |log| >= 1) &&
      (forall i :: 0 <= i < |log| - 1 ==> log[i].outcome == Completed) &&
      (|log| < |worklist| ==> log[|log| - 1].outcome != Completed) &&
      (|log| == 0 ==> worklist == [])
    decreases |worklist|
  {
    if worklist != [] {
      var front := worklist[..|worklist| - 1];
      AdvancesOnlyOnCompletion(front, runs, k + 1);
      var log := Schedule(worklist, runs, k);
      var q := worklist[|worklist| - 1];
      if runs(q, k) == Completed {
        var rest := Schedule(front, runs, k + 1);
        assert log[1..] == rest;
        forall i | 1 <= i < |log| - 1 ensures log[i].outcome == Completed {
          assert log[i] == rest[i - 1];
        }
        if |log| < |worklist| {
          assert log[|log| - 1] == rest[|rest| - 1];
        }
      }
    }
  }

  /** Discovery order [A, B, C], every strategy completing: dispatch order C, B, A. */
  lemma ThreeQuestsRunInReverse(a: Quest, b: Quest, c: Quest, runs: Runs)
    requires runs(c, 0) == Completed && runs(b, 1) == Completed && runs(a, 2) == Completed
    ensures var log := Schedule([a, b, c], runs, 0);
      |log| == 3 && log[0].quest == c && log[1].quest == b && log[2].quest == a
  {
    var w := [a, b, c];
    ScheduleIsLifo(w, runs, 0);
    AdvancesOnlyOnCompletion(w, runs, 0);
    var log := Schedule(w, runs, 0);
    assert w[2] == c && w[1] == b && w[0] == a;
    forall j | 0 <= j < |log| ensures log[j].outcome == Completed {
      assert log[j].quest == w[2 - j];
    }
  }

  /** A strategy run that does not complete is the last one dispatched. */
  lemma FirstRunStops(worklist: seq<Quest>, runs: Runs, k: nat)
    requires worklist != [] && runs(worklist[|worklist| - 1], k) != Completed
    ensures Schedule(worklist, runs, k) == [Job(worklist[|worklist| - 1], runs(worklist[|worklist| - 1], k))]
  {
    var q := worklist[|worklist| - 1];
    assert Schedule(worklist, runs, k) == [Job(q, runs(q, k))] + [];
  }

  /** A desktop quest dispatched in the browser stops the run: nothing after
      it is dispatched. */
  lemma BrowserDesktopQuestStops(worklist: seq<Quest>, channelId: string, envs: seq<Env>)
    requires worklist != []
    requires var t := ResolveTask(worklist[|worklist| - 1]);
      t.Some? && t.value.task in {PlayOnDesktop, StreamOnDesktop}
    ensures Schedule(worklist, SessionRuns(false, channelId, envs), 0) == [Job(worklist[|worklist| - 1], Unresolved)]
  {
    var q := worklist[|worklist| - 1];
    var runs := SessionRuns(false, channelId, envs);
    assert runs(q, 0) == Unresolved by {
      assert runs(q, 0) == Dispatch(q, false, channelId, EnvAt(envs, 0));
      DispatchOutcome(q, false, channelId, EnvAt(envs, 0));
    }
    FirstRunStops(worklist, runs, 0);
  }

  /** Runs the strategy of one quest, as `doJob` does after the pop. */
  method RunStrategy(q: Quest, isApp: bool, channelId: string, env: Env) returns (o: Outcome)
    ensures o == Dispatch(q, isApp, channelId, env)
  {
    var t := ResolveTask(q);
    if t.None? {
      return Abandoned;
    }
    var task := t.value;
    if task.task == WatchVideo || task.task == WatchVideoOnMobile {
      if q.enrolledAt.None? {
        return Abandoned;
      }
      var run := VideoStrategy.SimulateVideo(task.target, q.enrolledAt.value, task.secondsDone,
                                             env.clock, env.videoReplies);
      o := run.outcome;
    } else if task.task == PlayOnDesktop {
      o := DesktopStrategy.DesktopOutcome(isApp, env.metadataFound, q.configVersion, task.target, env.events);
    } else if task.task == StreamOnDesktop {
      o := DesktopStrategy.DesktopOutcome(isApp, true, q.configVersion, task.target, env.events);
    } else {
      var run := ActivityStrategy.SendHeartbeats(task.target, ActivityStrategy.StreamKey(channelId), env.heartbeatReplies);
      o := run.outcome;
    }
  }

  /** The shared `quests` array of `runSnippet` and the `doJob` closure over it. */
  class QuestRunner {
    var quests: seq<Quest>
    const isApp: bool
    const channelId: string

    constructor (worklist: seq<Quest>, isApp: bool, channelId: string)
      ensures quests == worklist && this.isApp == isApp && this.channelId == channelId
    {
      quests := worklist;
      this.isApp := isApp;
      this.channelId := channelId;
    }

    /** `quests.pop()`: removes and returns the last quest; nothing on an empty list. */
    method Pop() returns (q: Option<Quest>)
      modifies this
      ensures old(quests) == [] ==> q == None && quests == []
      ensures old(quests) != [] ==>
        q == Some(old(quests)[|old(quests)| - 1]) && quests == old(quests)[..|old(quests)| - 1]
    {
      if quests == [] {
        return None;
      }
      q := Some(quests[|quests| - 1]);
      quests := quests[..|quests| - 1];
    }

    /** One call of `doJob`: pop, and run the popped quest's strategy. */
    method DoJob(env: Env) returns (job: Option<Job>)
      modifies this
      ensures old(quests) == [] ==> job == None && quests == []
      ensures old(quests) != [] ==>
        var q := old(quests)[|old(quests)| - 1];
        job == Some(Job(q, Dispatch(q, isApp, channelId, env))) && quests == old(quests)[..|old(quests)| - 1]
    {
      var q := Pop();
      if q.None? {
        return None;
      }
      var outcome := RunStrategy(q.value, isApp, channelId, env);
      return Some(Job(q.value, outcome));
    }

    /** `doJob()` and the further calls the strategies make on success. */
    method Run(envs: seq<Env>) returns (log: seq<Job>)
      modifies this
      ensures log == Schedule(old(quests), SessionRuns(isApp, channelId, envs), 0)
      ensures |log| <= |old(quests)| && quests == old(quests)[..|old(quests)| - |log|]
    {
      ghost var w0 := quests;
      ghost var runs := SessionRuns(isApp, channelId, envs);
      log := [];
      while true
        invariant |log| <= |w0| && quests == w0[..|w0| - |log|]
        invariant Schedule(w0, runs, 0) == log + Schedule(quests, runs, |log|)
        decreases |quests|
      {
        ghost var before, done := quests, log;
        var job := DoJob(EnvAt(envs, |log|));
        if job.None? {
          assert log + [] == log;
          return;
        }
        SessionRunsAt(isApp, channelId, envs, before[|before| - 1], |done|);
        RunStep(w0, runs, done, before, job.value);
        log := log + [job.value];
        if job.value.outcome != Completed {
          assert log + [] == log;
          return;
        }
      }
    }
  }

  /** Dropping the last of the first `|w| - n` quests leaves the first `|w| - (n + 1)`. */
  lemma DropLast(w: seq<Quest>, n: nat)
    requires n < |w|
    ensures w[..|w| - n][..|w| - n - 1] == w[..|w| - (n + 1)]
  {
  }

  /** One turn of `Run`: after the job for the last quest is logged, the
      rest of the schedule is the schedule of the shorter worklist, or
      nothing when that job did not complete. */
  lemma RunStep(w0: seq<Quest>, runs: Runs, done: seq<Job>, before: seq<Quest>, job: Job)
    requires |done| <= |w0| && before == w0[..|w0| - |done|] && before != []
    requires job == Job(before[|before| - 1], runs(before[|before| - 1], |done|))
    requires Schedule(w0, runs, 0) == done + Schedule(before, runs, |done|)
    ensures |done| + 1 <= |w0| && before[..|before| - 1] == w0[..|w0| - (|done| + 1)]
    ensures Schedule(w0, runs, 0) == (done + [job]) +
      (if job.outcome == Completed then Schedule(before[..|before| - 1], runs, |done| + 1) else [])
  {
    DropLast(w0, |done|);
    ScheduleStep(Schedule(w0, runs, 0), done, before, job, runs);
  }

  /** The schedule of a non-empty worklist starts with the job for its last quest. */
  lemma ScheduleStep(target: seq<Job>, done: seq<Job>, before: seq<Quest>, job: Job, runs: Runs)
    requires before != []
    requires job == Job(before[|before| - 1], runs(before[|before| - 1], |done|))
    requires target == done + Schedule(before, runs, |done|)
    ensures target == (done + [job]) +
      (if job.outcome == Completed then Schedule(before[..|before| - 1], runs, |done| + 1) else [])
  {
    var rest := if job.outcome == Completed then Schedule(before[..|before| - 1], runs, |done| + 1) else [];
    assert Schedule(before, runs, |done|) == [job] + rest;
    assert done + ([job] + rest) == (done + [job]) + rest;
  }


  /** `runSnippet` once the host's objects are found: filter the store's
      quests, and, unless the filter threw or found nothing, start `doJob`. */
  method Start(catalog: seq<Quest>, now: int, isApp: bool, channelId: string, envs: seq<Env>)
    returns (log: Option<seq<Job>>)
    ensures EligibleQuests(catalog, now).None? ==> log == None
    ensures EligibleQuests(catalog, now).Some? ==>
      log == Some(Schedule(EligibleQuests(catalog, now).value, SessionRuns(isApp, channelId, envs), 0))
  {
    var worklist := EligibleQuests(catalog, now);
    if worklist.None? {
      return None;
    }
    if worklist.value == [] {
      return Some([]);
    }
    var runner := new QuestRunner(worklist.value, isApp, channelId);
    var jobs := runner.Run(envs);
    return Some(jobs);
  }
}
