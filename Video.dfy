/** The WATCH_VIDEO / WATCH_VIDEO_ON_MOBILE strategy: a loop that reports
    watch progress no faster than the time elapsed since enrolment allows,
    then one final report at the target unless the server already said the
    quest is complete. The clock readings and the server's replies are inputs. */
module VideoStrategy {
  import opened Wrappers
  import opened Quests

  /** Seconds of progress that may run ahead of the time since enrolment. */
  const MAX_FUTURE := 10
  /** Seconds of progress added by one report. */
  const SPEED := 7

  /** `Math.floor((now - enrolledAt) / 1000) + maxFuture`, on milliseconds. */
  function MaxAllowed(now: int, enrolledAt: int): (m: int)
    ensures (m - MAX_FUTURE) * 1000 <= now - enrolledAt < (m - MAX_FUTURE + 1) * 1000
  {
    (now - enrolledAt) / 1000 + MAX_FUTURE
  }

  function Min(a: int, b: int): int {
    if a <= b then a else b
  }

  /** The reply to a `/video-progress` post: whether the body carries
      `completed_at`, or a failed request. */
  datatype VideoReply = VideoAck(completed: bool) | VideoError

  /** One pass of the loop: the clock reading, `secondsDone` at the start of
      the pass, and the timestamp posted in it, if any. */
  datatype Tick = Tick(now: int, before: int, report: Option<int>)

  /** Everything the loop did: its passes, the final report at the target (if
      sent), the last values of `secondsDone` and `completed`, and the outcome. */
  datatype VideoRun = VideoRun(ticks: seq<Tick>, final: Option<int>, secondsDone: int,
                               completed: bool, outcome: Outcome)

  /** The loop was left through its `break`, so the final stage was reached. */
  predicate Exited(r: VideoRun) {
    r.outcome == Completed || r.final.Some?
  }

  function Prepend(t: Tick, r: VideoRun): VideoRun {
    r.(ticks := [t] + r.ticks)
  }

  /** The final stage after the loop: post the target unless completed. */
  function VideoFinish(target: int, done: int, completed: bool, replies: seq<VideoReply>): VideoRun {
    if completed then VideoRun([], None, done, completed, Completed)
    else if replies == [] then VideoRun([], Some(target), done, completed, Suspended)
    else if replies[0].VideoError? then VideoRun([], Some(target), done, completed, Abandoned)
    else VideoRun([], Some(target), done, completed, Completed)
  }

  /** The `while (true)` loop from a state (`done`, `completed`), one pass per clock
      reading; each post consumes one reply. */
  function VideoLoop(target: int, enrolledAt: int, done: int, completed: bool,
                     clock: seq<int>, replies: seq<VideoReply>): (r: VideoRun)
    ensures r.outcome != Unresolved
    decreases |clock|
  {
    if clock == [] then VideoRun([], None, done, completed, Suspended)
    else
      var now := clock[0];
      var timestamp := done + SPEED;
      if MaxAllowed(now, enrolledAt) - done >= SPEED then
        var tick := Tick(now, done, Some(Min(target, timestamp)));
        if replies == [] then VideoRun([tick], None, done, completed, Suspended)
        else if replies[0].VideoError? then VideoRun([tick], None, done, completed, Abandoned)
        else
          var done' := Min(target, timestamp);
          if timestamp >= target then Prepend(tick, VideoFinish(target, done', replies[0].completed, replies[1..]))
          else Prepend(tick, VideoLoop(target, enrolledAt, done', replies[0].completed, clock[1..], replies[1..]))
      else
        var tick := Tick(now, done, None);
        if timestamp >= target then Prepend(tick, VideoFinish(target, done, completed, replies))
        else Prepend(tick, VideoLoop(target, enrolledAt, done, completed, clock[1..], replies))
  }

  /** The strategy as `doJob` starts it: `completed` is false at first. */
  function VideoStrategyRun(t: Resolved, enrolledAt: int, clock: seq<int>, replies: seq<VideoReply>): VideoRun {
    VideoLoop(t.target, enrolledAt, t.secondsDone, false, clock, replies)
  }

  function WithTicks(ticks: seq<Tick>, r: VideoRun): VideoRun {
    r.(ticks := ticks + r.ticks)
  }

  /** A pass that posts, is acknowledged and stays below the target goes on
      with the loop from the posted progress. */
  lemma PostedPass(target: int, enrolledAt: int, done: int, completed: bool,
                   clock: seq<int>, replies: seq<VideoReply>)
    requires clock != [] && replies != [] && replies[0].VideoAck?
    requires MaxAllowed(clock[0], enrolledAt) - done >= SPEED && done + SPEED < target
    ensures VideoLoop(target, enrolledAt, done, completed, clock, replies)
      == Prepend(Tick(clock[0], done, Some(Min(target, done + SPEED))),
                 VideoLoop(target, enrolledAt, Min(target, done + SPEED), replies[0].completed, clock[1..], replies[1..]))
  {
  }

  /** A pass that may not post yet and stays below the target goes on with
      the loop unchanged. */
  lemma IdlePass(target: int, enrolledAt: int, done: int, completed: bool,
                 clock: seq<int>, replies: seq<VideoReply>)
    requires clock != []
    requires MaxAllowed(clock[0], enrolledAt) - done < SPEED && done + SPEED < target
    ensures VideoLoop(target, enrolledAt, done, completed, clock, replies)
      == Prepend(Tick(clock[0], done, None), VideoLoop(target, enrolledAt, done, completed, clock[1..], replies))
  {
  }

  /** A pass whose post fails, or finds no reply, ends the strategy there. */
  lemma PostedStops(target: int, enrolledAt: int, done: int, completed: bool,
                    clock: seq<int>, replies: seq<VideoReply>)
    requires clock != [] && (replies == [] || replies[0].VideoError?)
    requires MaxAllowed(clock[0], enrolledAt) - done >= SPEED
    ensures VideoLoop(target, enrolledAt, done, completed, clock, replies)
      == VideoRun([Tick(clock[0], done, Some(Min(target, done + SPEED)))], None, done, completed,
                  if replies == [] then Suspended else Abandoned)
  {
  }

  /** A pass that posts, is acknowledged and reaches the target is followed
      by the final stage. */
  lemma PostedExit(target: int, enrolledAt: int, done: int, completed: bool,
                   clock: seq<int>, replies: seq<VideoReply>)
    requires clock != [] && replies != [] && replies[0].VideoAck?
    requires MaxAllowed(clock[0], enrolledAt) - done >= SPEED && done + SPEED >= target
    ensures VideoLoop(target, enrolledAt, done, completed, clock, replies)
      == Prepend(Tick(clock[0], done, Some(Min(target, done + SPEED))),
                 VideoFinish(target, Min(target, done + SPEED), replies[0].completed, replies[1..]))
  {
  }

  /** A pass that may not post but reaches the target is followed by the
      final stage. */
  lemma IdleExit(target: int, enrolledAt: int, done: int, completed: bool,
                 clock: seq<int>, replies: seq<VideoReply>)
    requires clock != []
    requires MaxAllowed(clock[0], enrolledAt) - done < SPEED && done + SPEED >= target
    ensures VideoLoop(target, enrolledAt, done, completed, clock, replies)
      == Prepend(Tick(clock[0], done, None), VideoFinish(target, done, completed, replies))
  {
  }

  lemma WithTicksPrepend(ticks: seq<Tick>, t: Tick, r: VideoRun)
    ensures WithTicks(ticks, Prepend(t, r)) == WithTicks(ticks + [t], r)
  {
    assert ticks + ([t] + r.ticks) == (ticks + [t]) + r.ticks;
  }

  /** The loop of the strategy, step by step as the source runs it. */
  method SimulateVideo(target: int, enrolledAt: int, progress: int, clock: seq<int>, replies: seq<VideoReply>)
    returns (run: VideoRun)
    ensures run == VideoLoop(target, enrolledAt, progress, false, clock, replies)
  {
    var secondsDone, completed := progress, false;
    var ticks: seq<Tick> := [];
    var i, j := 0, 0;
    while i < |clock|
      invariant 0 <= i <= |clock| && 0 <= j <= |replies|
      invariant VideoLoop(target, enrolledAt, progress, false, clock, replies)
        == WithTicks(ticks, VideoLoop(target, enrolledAt, secondsDone, completed, clock[i..], replies[j..]))
    {
      ghost var c, rs := clock[i..], replies[j..];
      ghost var done0, completed0, ticks0 := secondsDone, completed, ticks;
      assert c[0] == clock[i] && c[1..] == clock[i + 1..];
      assert j < |replies| ==> rs[0] == replies[j] && rs[1..] == replies[j + 1..];
      var maxAllowed := MaxAllowed(clock[i], enrolledAt);
      var diff := maxAllowed - secondsDone;
      var timestamp := secondsDone + SPEED;
      var tick;
      if diff >= SPEED {
        tick := Tick(clock[i], secondsDone, Some(Min(target, timestamp)));
        ticks := ticks + [tick];
        if j == |replies| || replies[j].VideoError? {
          PostedStops(target, enrolledAt, done0, completed0, c, rs);
        }
        if j == |replies| {
          return VideoRun(ticks, None, secondsDone, completed, Suspended);
        }
        if replies[j].VideoError? {
          return VideoRun(ticks, None, secondsDone, completed, Abandoned);
        }
        completed := replies[j].completed;
        secondsDone := Min(target, timestamp);
        j := j + 1;
      } else {
        tick := Tick(clock[i], secondsDone, None);
        ticks := ticks + [tick];
      }
      if timestamp >= target {
        if diff >= SPEED {
          PostedExit(target, enrolledAt, done0, completed0, c, rs);
        } else {
          IdleExit(target, enrolledAt, done0, completed0, c, rs);
        }
        WithTicksPrepend(ticks0, tick, VideoFinish(target, secondsDone, completed, replies[j..]));
        if completed {
          return VideoRun(ticks, None, secondsDone, completed, Completed);
        }
        if j == |replies| {
          return VideoRun(ticks, Some(target), secondsDone, completed, Suspended);
        }
        if replies[j].VideoError? {
          return VideoRun(ticks, Some(target), secondsDone, completed, Abandoned);
        }
        return VideoRun(ticks, Some(target), secondsDone, completed, Completed);
      }
      if diff >= SPEED {
        PostedPass(target, enrolledAt, done0, completed0, c, rs);
      } else {
        IdlePass(target, enrolledAt, done0, completed0, c, rs);
      }
      WithTicksPrepend(ticks0, tick, VideoLoop(target, enrolledAt, secondsDone, completed, clock[i + 1..], replies[j..]));
      i := i + 1;
    }
    return VideoRun(ticks, None, secondsDone, completed, Suspended);
  }

  /** The passes follow the clock: pass i reads the i-th clock reading. */
  lemma {:induction false} TicksFollowClock(target: int, enrolledAt: int, done: int, completed: bool,
                                            clock: seq<int>, replies: seq<VideoReply>)
    ensures var r := VideoLoop(target, enrolledAt, done, completed, clock, replies);
      |r.ticks| <= |clock| && (clock != [] ==> |r.ticks| >= 1) &&
      forall i :: 0 <= i < |r.ticks| ==> r.ticks[i].now == clock[i]
    decreases |clock|
  {
    if clock != [] {
      var timestamp := done + SPEED;
      if MaxAllowed(clock[0], enrolledAt) - done >= SPEED {
        if replies != [] && replies[0].VideoAck? && timestamp < target {
          TicksFollowClock(target, enrolledAt, Min(target, timestamp), replies[0].completed, clock[1..], replies[1..]);
        }
      } else if timestamp < target {
        TicksFollowClock(target, enrolledAt, done, completed, clock[1..], replies);
      }
    }
  }

  /** A pass is paced: it posts exactly when `maxAllowed - secondsDone >= speed`,
      and what it posts is `secondsDone + speed` clamped to the target, which
      never runs ahead of the time since enrolment plus the slack. */
  predicate PacedTick(t: Tick, target: int, enrolledAt: int) {
    (t.report.Some? <==> MaxAllowed(t.now, enrolledAt) - t.before >= SPEED) &&
    (t.report.Some? ==>
       t.report.value == Min(target, t.before + SPEED) &&
       t.report.value <= target && t.report.value <= MaxAllowed(t.now, enrolledAt))
  }

  predicate AllPaced(ticks: seq<Tick>, target: int, enrolledAt: int) {
    forall i :: 0 <= i < |ticks| ==> PacedTick(ticks[i], target, enrolledAt)
  }

  /** Every pass of the loop is paced. */
  lemma {:induction false} ReportsArePaced(target: int, enrolledAt: int, done: int, completed: bool,
                                           clock: seq<int>, replies: seq<VideoReply>)
    ensures AllPaced(VideoLoop(target, enrolledAt, done, completed, clock, replies).ticks, target, enrolledAt)
    decreases |clock|
  {
    if clock != [] {
      var r := VideoLoop(target, enrolledAt, done, completed, clock, replies);
      var timestamp := done + SPEED;
      var paced := MaxAllowed(clock[0], enrolledAt) - done >= SPEED;
      if paced && replies != [] && replies[0].VideoAck? && timestamp < target {
        var rest := VideoLoop(target, enrolledAt, Min(target, timestamp), replies[0].completed, clock[1..], replies[1..]);
        ReportsArePaced(target, enrolledAt, Min(target, timestamp), replies[0].completed, clock[1..], replies[1..]);
        forall i | 1 <= i < |r.ticks| ensures PacedTick(r.ticks[i], target, enrolledAt) {
          assert r.ticks[i] == rest.ticks[i - 1];
        }
      } else if !paced && timestamp < target {
        var rest := VideoLoop(target, enrolledAt, done, completed, clock[1..], replies);
        ReportsArePaced(target, enrolledAt, done, completed, clock[1..], replies);
        forall i | 1 <= i < |r.ticks| ensures PacedTick(r.ticks[i], target, enrolledAt) {
          assert r.ticks[i] == rest.ticks[i - 1];
        }
      }
    }
  }

  /** From a start within the target, `secondsDone` never decreases and never
      exceeds the target. */
  lemma {:induction false} ProgressMonotoneAndClamped(target: int, enrolledAt: int, done: int, completed: bool,
                                                      clock: seq<int>, replies: seq<VideoReply>)
    requires done <= target
    ensures var r := VideoLoop(target, enrolledAt, done, completed, clock, replies);
      done <= r.secondsDone <= target &&
      (forall i :: 0 <= i < |r.ticks| ==> done <= r.ticks[i].before <= r.secondsDone) &&
      (forall i, k :: 0 <= i <= k < |r.ticks| ==> r.ticks[i].before <= r.ticks[k].before)
    decreases |clock|
  {
    if clock != [] {
      var timestamp := done + SPEED;
      if MaxAllowed(clock[0], enrolledAt) - done >= SPEED {
        if replies != [] && replies[0].VideoAck? && timestamp < target {
          ProgressMonotoneAndClamped(target, enrolledAt, Min(target, timestamp), replies[0].completed, clock[1..], replies[1..]);
        }
      } else if timestamp < target {
        ProgressMonotoneAndClamped(target, enrolledAt, done, completed, clock[1..], replies);
      }
    }
  }

  /** The loop runs on only while `secondsDone + speed < target`, and it is
      left through the final stage only from a pass where that no longer holds. */
  lemma {:induction false} ExitsAsSoonAsTargetInReach(target: int, enrolledAt: int, done: int, completed: bool,
                                                      clock: seq<int>, replies: seq<VideoReply>)
    ensures var r := VideoLoop(target, enrolledAt, done, completed, clock, replies);
      (forall i :: 0 <= i < |r.ticks| - 1 ==> r.ticks[i].before + SPEED < target) &&
      (Exited(r) ==> |r.ticks| > 0 && r.ticks[|r.ticks| - 1].before + SPEED >= target)
    decreases |clock|
  {
    if clock != [] {
      var timestamp := done + SPEED;
      if MaxAllowed(clock[0], enrolledAt) - done >= SPEED {
        if replies != [] && replies[0].VideoAck? && timestamp < target {
          ExitsAsSoonAsTargetInReach(target, enrolledAt, Min(target, timestamp), replies[0].completed, clock[1..], replies[1..]);
        }
      } else if timestamp < target {
        ExitsAsSoonAsTargetInReach(target, enrolledAt, done, completed, clock[1..], replies);
      }
    }
  }

  /** After the loop, one final report exactly at the target is sent if and only
      if the last reply of the loop did not report completion (each reply
      overwrites the flag, so an earlier completed reply followed by one that
      is not still leads to the final report); completion can only have been
      reported in reply to a post of the loop. */
  lemma {:induction false} FinalReportUnlessCompleted(target: int, enrolledAt: int, done: int, completed: bool,
                                                      clock: seq<int>, replies: seq<VideoReply>)
    ensures var r := VideoLoop(target, enrolledAt, done, completed, clock, replies);
      (r.final.Some? ==> r.final.value == target) &&
      (Exited(r) ==> (r.final.Some? <==> !r.completed)) &&
      (r.outcome == Completed && !r.completed ==> r.final == Some(target)) &&
      (r.completed && !completed ==> exists i :: 0 <= i < |r.ticks| && r.ticks[i].report.Some?)
    decreases |clock|
  {
    if clock != [] {
      var r := VideoLoop(target, enrolledAt, done, completed, clock, replies);
      var timestamp := done + SPEED;
      if MaxAllowed(clock[0], enrolledAt) - done >= SPEED {
        if replies != [] && replies[0].VideoAck? {
          if timestamp < target {
            FinalReportUnlessCompleted(target, enrolledAt, Min(target, timestamp), replies[0].completed, clock[1..], replies[1..]);
          }
          if r.completed && !completed {
            assert r.ticks[0].report.Some?;
          }
        }
      } else if timestamp < target {
        FinalReportUnlessCompleted(target, enrolledAt, done, completed, clock[1..], replies);
        var rest := VideoLoop(target, enrolledAt, done, completed, clock[1..], replies);
        if r.completed && !completed {
          var i :| 0 <= i < |rest.ticks| && rest.ticks[i].report.Some?;
          assert r.ticks[i + 1] == rest.ticks[i];
        }
      }
    }
  }

  /** Every timestamp the strategy posts, in the loop or after it, is at most the target. */
  lemma EveryReportAtMostTarget(target: int, enrolledAt: int, done: int, completed: bool,
                                clock: seq<int>, replies: seq<VideoReply>)
    ensures var r := VideoLoop(target, enrolledAt, done, completed, clock, replies);
      (forall i :: 0 <= i < |r.ticks| && r.ticks[i].report.Some? ==> r.ticks[i].report.value <= target) &&
      (r.final.Some? ==> r.final.value <= target)
  {
    ReportsArePaced(target, enrolledAt, done, completed, clock, replies);
    FinalReportUnlessCompleted(target, enrolledAt, done, completed, clock, replies);
  }

  /** A 14-second video watched from the moment of enrolment, with a tick at 0 s
      and at 1 s: the loop posts 7, then leaves because 7 + 7 reaches 14, and
      the final post of 14 follows although only 11 seconds are allowed then:
      the final report is not held to the pacing window. */
  lemma ShortVideoFromEnrolment()
    ensures var r := VideoLoop(14, 0, 0, false, [0, 1000], [VideoAck(false), VideoAck(false)]);
      r.ticks == [Tick(0, 0, Some(7)), Tick(1000, 7, None)] &&
      r.final == Some(14) && r.outcome == Completed &&
      MaxAllowed(1000, 0) == 11
  {
    assert [0, 1000][1..] == [1000];
    assert [VideoAck(false), VideoAck(false)][1..] == [VideoAck(false)];
    assert VideoLoop(14, 0, 7, false, [1000], [VideoAck(false)])
        == VideoRun([Tick(1000, 7, None)], Some(14), 7, false, Completed);
  }
}
