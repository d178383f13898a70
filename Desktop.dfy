/** What is modelled of the PLAY_ON_DESKTOP and STREAM_ON_DESKTOP strategies:
    the browser guard, the lookup of the application's metadata, and the
    handler of the host's heartbeat-success events that reads the live
    progress and unsubscribes at the first event reaching the target. The
    replacement of the host's store accessors is not modelled. */
module DesktopStrategy {
  import opened Wrappers
  import opened Quests

  /** The part of a `QUESTS_SEND_HEARTBEAT_SUCCESS` payload the handler reads:
      `userStatus.streamProgressSeconds` and `userStatus.progress[task].value`. */
  datatype HeartbeatEvent = HeartbeatEvent(streamProgressSeconds: int, taskProgress: real)

  /** Live progress as the handler reads it, by configuration version. */
  function EventProgress(configVersion: int, e: HeartbeatEvent): int {
    if configVersion == 1 then e.streamProgressSeconds else e.taskProgress.Floor
  }

  /** The position of the event at which the handler restores the accessors,
      unsubscribes and calls doJob: the first whose progress reaches the target. */
  function CompletionEvent(configVersion: int, events: seq<HeartbeatEvent>, target: int, from: nat := 0)
    : (r: Option<nat>)
    requires from <= |events|
    ensures r.Some? ==> from <= r.value < |events| && EventProgress(configVersion, events[r.value]) >= target
    ensures r.Some? ==> forall i :: from <= i < r.value ==> EventProgress(configVersion, events[i]) < target
    ensures r.None? ==> forall i :: from <= i < |events| ==> EventProgress(configVersion, events[i]) < target
    decreases |events| - from
  {
    if from == |events| then None
    else if EventProgress(configVersion, events[from]) >= target then Some(from)
    else CompletionEvent(configVersion, events, target, from + 1)
  }

  /** How a desktop strategy ends: nothing in the browser; a failed metadata
      lookup is caught and logged; otherwise it completes at the first event
      reaching the target and waits while there is none. */
  function DesktopOutcome(isApp: bool, metadataFound: bool, configVersion: int, target: int,
                          events: seq<HeartbeatEvent>): (o: Outcome)
    ensures o == Unresolved <==> !isApp
    ensures o == Abandoned <==> isApp && !metadataFound
    ensures o == Completed <==>
      isApp && metadataFound && exists i :: 0 <= i < |events| && EventProgress(configVersion, events[i]) >= target
  {
    if !isApp then Unresolved
    else if !metadataFound then Abandoned
    else if CompletionEvent(configVersion, events, target).Some? then Completed
    else Suspended
  }
}
