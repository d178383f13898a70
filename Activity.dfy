/** The PLAY_ACTIVITY strategy: non-terminal heartbeats until a reply shows
    the target reached, then exactly one terminal heartbeat. The server's
    replies are inputs; the choice of voice channel is not modelled. */
module ActivityStrategy {
  import opened Quests

  /** The body of a `/heartbeat` post. */
  datatype Heartbeat = Heartbeat(streamKey: string, terminal: bool)

  /** The reply to a heartbeat: `progress.PLAY_ACTIVITY.value`, or a failed request. */
  datatype HeartbeatReply = HeartbeatAck(progress: int) | HeartbeatError

  /** The heartbeats sent, in order, and how the strategy ended. */
  datatype ActivityRun = ActivityRun(heartbeats: seq<Heartbeat>, outcome: Outcome)

  /** `call:${channelId}:1`. */
  function StreamKey(channelId: string): string {
    "call:" + channelId + ":1"
  }

  /** A stream key names its channel: the id sits between the "call:" prefix
      and the ":1" suffix, so two channels never share a key. */
  lemma StreamKeyNamesChannel(a: string, b: string)
    ensures |StreamKey(a)| == |a| + 7 && StreamKey(a)[..5] == "call:"
    ensures StreamKey(a)[5..|a| + 5] == a && StreamKey(a)[|a| + 5..] == ":1"
    ensures StreamKey(a) == StreamKey(b) ==> a == b
  {
    var ka, kb := StreamKey(a), StreamKey(b);
    assert ka[5..|a| + 5] == a;
    assert kb[5..|b| + 5] == b;
    if ka == kb {
      assert |a| == |b|;
    }
  }

  /** The `while (true)` loop; heartbeat i is answered by `replies[i]`. */
  function ActivityLoop(target: int, key: string, replies: seq<HeartbeatReply>): (r: ActivityRun)
    ensures r.outcome != Unresolved
    decreases |replies|
  {
    var beat := Heartbeat(key, false);
    if replies == [] then ActivityRun([beat], Suspended)
    else if replies[0].HeartbeatError? then ActivityRun([beat], Abandoned)
    else if replies[0].progress >= target then
      var last := Heartbeat(key, true);
      if |replies| == 1 then ActivityRun([beat, last], Suspended)
      else if replies[1].HeartbeatError? then ActivityRun([beat, last], Abandoned)
      else ActivityRun([beat, last], Completed)
    else
      WithBeats([beat], ActivityLoop(target, key, replies[1..]))
  }

  function WithBeats(beats: seq<Heartbeat>, r: ActivityRun): ActivityRun {
    r.(heartbeats := beats + r.heartbeats)
  }

  /** The number of terminal heartbeats in a sequence. */
  function TerminalCount(beats: seq<Heartbeat>): nat {
    if beats == [] then 0 else (if beats[0].terminal then 1 else 0) + TerminalCount(beats[1..])
  }

  /** A reply below the target leads to the next heartbeat. */
  lemma BelowTargetGoesOn(target: int, key: string, replies: seq<HeartbeatReply>)
    requires replies != [] && replies[0].HeartbeatAck? && replies[0].progress < target
    ensures ActivityLoop(target, key, replies) == WithBeats([Heartbeat(key, false)], ActivityLoop(target, key, replies[1..]))
  {
  }

  lemma WithBeatsAppend(sent: seq<Heartbeat>, beat: Heartbeat, r: ActivityRun)
    ensures WithBeats(sent, WithBeats([beat], r)) == WithBeats(sent + [beat], r)
  {
    assert sent + ([beat] + r.heartbeats) == (sent + [beat]) + r.heartbeats;
  }

  /** The loop of the strategy, step by step as the source runs it. */
  method SendHeartbeats(target: int, key: string, replies: seq<HeartbeatReply>) returns (run: ActivityRun)
    ensures run == ActivityLoop(target, key, replies)
  {
    var sent: seq<Heartbeat> := [];
    var i := 0;
    while true
      invariant 0 <= i <= |replies|
      invariant ActivityLoop(target, key, replies)
        == WithBeats(sent, ActivityLoop(target, key, replies[i..]))
      decreases |replies| - i
    {
      assert i < |replies| ==> replies[i..][0] == replies[i] && replies[i..][1..] == replies[i + 1..];
      assert i + 1 < |replies| ==> replies[i..][1] == replies[i + 1];
      sent := sent + [Heartbeat(key, false)];
      if i == |replies| {
        return ActivityRun(sent, Suspended);
      }
      if replies[i].HeartbeatError? {
        return ActivityRun(sent, Abandoned);
      }
      var progress := replies[i].progress;
      // the 20-second wait happens here
      if progress < target {
        BelowTargetGoesOn(target, key, replies[i..]);
        WithBeatsAppend(sent[..|sent| - 1], Heartbeat(key, false), ActivityLoop(target, key, replies[i + 1..]));
        assert sent[..|sent| - 1] + [Heartbeat(key, false)] == sent;
      }
      if progress >= target {
        sent := sent + [Heartbeat(key, true)];
        if i + 1 == |replies| {
          return ActivityRun(sent, Suspended);
        }
        if replies[i + 1].HeartbeatError? {
          return ActivityRun(sent, Abandoned);
        }
        return ActivityRun(sent, Completed);
      }
      i := i + 1;
    }
  }

  /** Every heartbeat carries the stream key of the chosen channel. */
  lemma {:induction false} OneStreamKey(target: int, key: string, replies: seq<HeartbeatReply>)
    ensures forall b :: b in ActivityLoop(target, key, replies).heartbeats ==> b.streamKey == key
    decreases |replies|
  {
    if replies != [] && replies[0].HeartbeatAck? && replies[0].progress < target {
      OneStreamKey(target, key, replies[1..]);
    }
  }

  /** Reply `k` is the first to show the target reached, and each reply
      before it was a success below the target. */
  predicate FirstReachedAt(replies: seq<HeartbeatReply>, target: int, k: int) {
    0 <= k < |replies| && replies[k].HeartbeatAck? && replies[k].progress >= target &&
    forall i :: 0 <= i < k ==> replies[i].HeartbeatAck? && replies[i].progress < target
  }

  lemma ShiftFirstReached(replies: seq<HeartbeatReply>, target: int, k: int)
    requires replies != [] && replies[0].HeartbeatAck? && replies[0].progress < target
    ensures FirstReachedAt(replies, target, k + 1) <==> FirstReachedAt(replies[1..], target, k)
  {
    if FirstReachedAt(replies[1..], target, k) {
      forall i | 0 <= i < k + 1 ensures replies[i].HeartbeatAck? && replies[i].progress < target {
        if i > 0 { assert replies[i] == replies[1..][i - 1]; }
      }
    }
  }

  /** No heartbeat follows a terminal one. */
  predicate TerminalOnlyLast(beats: seq<Heartbeat>) {
    forall i :: 0 <= i < |beats| - 1 ==> !beats[i].terminal
  }

  /** Only the last heartbeat can be terminal, so none follows the terminal
      one and there is at most one; a run that completes ends with it. */
  lemma {:induction false} TerminalIsLast(target: int, key: string, replies: seq<HeartbeatReply>)
    ensures |ActivityLoop(target, key, replies).heartbeats| >= 1
    ensures TerminalOnlyLast(ActivityLoop(target, key, replies).heartbeats)
    ensures TerminalCount(ActivityLoop(target, key, replies).heartbeats) <= 1
    ensures ActivityLoop(target, key, replies).outcome == Completed ==>
      var beats := ActivityLoop(target, key, replies).heartbeats;
      beats[|beats| - 1].terminal && TerminalCount(beats) == 1
    decreases |replies|
  {
    var r := ActivityLoop(target, key, replies);
    if replies == [] || replies[0].HeartbeatError? {
      assert r.heartbeats[1..] == [];
    } else if replies[0].progress >= target {
      assert r.heartbeats[1..] == [Heartbeat(key, true)];
      assert r.heartbeats[1..][1..] == [];
      assert TerminalCount([Heartbeat(key, true)]) == 1 + TerminalCount([]);
    } else {
      var rest := ActivityLoop(target, key, replies[1..]);
      TerminalIsLast(target, key, replies[1..]);
      assert r.heartbeats[1..] == rest.heartbeats;
      forall i | 1 <= i < |r.heartbeats| - 1 ensures !r.heartbeats[i].terminal {
        assert r.heartbeats[i] == rest.heartbeats[i - 1];
      }
    }
  }

  /** Exactly one terminal heartbeat is sent iff some reply reaches the
      target, whatever the reply to the terminal heartbeat is; otherwise
      none is sent. */
  lemma {:induction false} TerminalSentIffReached(target: int, key: string, replies: seq<HeartbeatReply>)
    ensures TerminalCount(ActivityLoop(target, key, replies).heartbeats) == 1 <==>
      exists k :: FirstReachedAt(replies, target, k)
    ensures TerminalCount(ActivityLoop(target, key, replies).heartbeats) == 0 <==>
      forall k :: !FirstReachedAt(replies, target, k)
    decreases |replies|
  {
    var r := ActivityLoop(target, key, replies);
    if replies == [] || replies[0].HeartbeatError? {
      assert r.heartbeats[1..] == [];
      forall k ensures !FirstReachedAt(replies, target, k) {
        if replies != [] && 0 < k { assert replies[0].HeartbeatError?; }
      }
    } else if replies[0].progress >= target {
      assert FirstReachedAt(replies, target, 0);
      assert r.heartbeats[1..] == [Heartbeat(key, true)];
      assert r.heartbeats[1..][1..] == [];
      assert TerminalCount([Heartbeat(key, true)]) == 1 + TerminalCount([]);
    } else {
      var rest := ActivityLoop(target, key, replies[1..]);
      TerminalSentIffReached(target, key, replies[1..]);
      assert r.heartbeats[1..] == rest.heartbeats;
      forall k ensures FirstReachedAt(replies, target, k) <==> k > 0 && FirstReachedAt(replies[1..], target, k - 1) {
        if k > 0 { ShiftFirstReached(replies, target, k - 1); }
      }
      if exists k :: FirstReachedAt(replies[1..], target, k) {
        var k :| FirstReachedAt(replies[1..], target, k);
        assert FirstReachedAt(replies, target, k + 1);
      }
    }
  }

  /** The terminal heartbeat is sent only after the reply to the non-terminal
      heartbeat just before it is the first to show the target reached. */
  lemma {:induction false} TerminalOnlyAtTarget(target: int, key: string, replies: seq<HeartbeatReply>)
    ensures forall k :: 0 <= k < |ActivityLoop(target, key, replies).heartbeats| &&
                        ActivityLoop(target, key, replies).heartbeats[k].terminal ==>
              FirstReachedAt(replies, target, k - 1)
    decreases |replies|
  {
    var r := ActivityLoop(target, key, replies);
    if replies != [] && replies[0].HeartbeatAck? && replies[0].progress < target {
      var rest := ActivityLoop(target, key, replies[1..]);
      TerminalOnlyAtTarget(target, key, replies[1..]);
      forall k | 0 <= k < |r.heartbeats| && r.heartbeats[k].terminal
        ensures FirstReachedAt(replies, target, k - 1)
      {
        assert r.heartbeats[k] == rest.heartbeats[k - 1];
        ShiftFirstReached(replies, target, k - 2);
      }
    } else if replies != [] && replies[0].HeartbeatAck? {
      assert FirstReachedAt(replies, target, 0);
    }
  }

  /** The strategy completes exactly when some reply is the first to show the
      target reached and the terminal heartbeat after it is acknowledged. */
  lemma {:induction false} CompletesIffTargetReached(target: int, key: string, replies: seq<HeartbeatReply>)
    ensures ActivityLoop(target, key, replies).outcome == Completed <==>
      exists k :: FirstReachedAt(replies, target, k) && k + 1 < |replies| && replies[k + 1].HeartbeatAck?
    decreases |replies|
  {
    if replies != [] && replies[0].HeartbeatAck? && replies[0].progress < target {
      var tail := replies[1..];
      CompletesIffTargetReached(target, key, tail);
      if ActivityLoop(target, key, replies).outcome == Completed {
        var k :| FirstReachedAt(tail, target, k) && k + 1 < |tail| && tail[k + 1].HeartbeatAck?;
        ShiftFirstReached(replies, target, k);
        assert replies[k + 2] == tail[k + 1];
      } else {
        forall k | FirstReachedAt(replies, target, k) && k + 1 < |replies|
          ensures !replies[k + 1].HeartbeatAck?
        {
          ShiftFirstReached(replies, target, k - 1);
          assert tail[k] == replies[k + 1];
        }
      }
    } else if replies != [] && replies[0].HeartbeatAck? {
      assert FirstReachedAt(replies, target, 0);
      forall k | FirstReachedAt(replies, target, k) ensures k == 0 { }
    } else {
      assert forall k :: FirstReachedAt(replies, target, k) ==> replies[0].HeartbeatAck?;
    }
  }
}
