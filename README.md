# DiscordQuests, modelled in Dafny

This project models the sequential core of the BetterDiscord plugin
`DiscordQuests.plugin.js`. The plugin completes a user's Discord quests when
a keyboard shortcut is pressed. Its core has four parts:

- **Self-update check.** It reads the `@version` tag of the fetched plugin
  source and compares dotted version strings numerically. It installs the
  fetched source only when that version is strictly newer than the installed
  one.
- **Shortcut matcher.** `handleKeyDown` decides from the configured key and
  modifier name whether a key-down event starts a run.
- **Worklist.** `runSnippet` filters the quest store down to the eligible
  quests. `doJob` pops the last quest, resolves the task that drives it, and
  starts a strategy. Only a strategy's success path calls `doJob` again.
- **Strategies.** The video strategy is a paced progress loop. The activity
  strategy is a heartbeat loop. The two desktop strategies are modelled as a
  browser guard and a progress-event handler.

Clock readings, server replies and host events are finite input sequences.
A strategy that runs out of inputs ends as `Suspended`. A failed request is
caught and logged by the plugin; it ends as `Abandoned` and the worklist
stops.

Modules:

| module | file | contents |
|---|---|---|
| `Wrappers` | Wrappers.dfy | `Option` |
| `Text` | Text.dfy | digits, JavaScript white space, ASCII lower-casing |
| `Versions` | Versions.dfy | `split`, `parseInt`, `compareVersions` (a method with its loop), the `@version` scanner, the update gate |
| `Shortcut` | Shortcut.dfy | `handleKeyDown` (a method over the `switch`), with a declarative `Triggers` beside it |
| `Quests` | Quests.dfy | quest records, the eligibility filter, task resolution |
| `VideoStrategy` | Video.dfy | the pacing loop, as a function and as a method with a `while` loop |
| `ActivityStrategy` | Activity.dfy | the heartbeat loop, as a function and as a method with a `while` loop |
| `DesktopStrategy` | Desktop.dfy | PLAY_ON_DESKTOP / STREAM_ON_DESKTOP: browser guard, metadata lookup, completion event |
| `Orchestrator` | Orchestrator.dfy | `Dispatch`, `Schedule`, and the class `QuestRunner` holding the mutable worklist |

Each imperative piece of the source has two forms in the model:

- a function that states the piece's behaviour;
- a method that runs it step by step, with loops, locals and `pop()`.

The method's `ensures` ties it to the function. The lemmas are proved about
the function.

Three behaviours of the source are stated as they are, not as findings:

- The filter only checks that a supported task *key* is listed. It keeps a
  quest whose only supported key has a null value. `doJob` then cannot
  resolve a task for it; it throws and the worklist stops
  (`Quests.NullTaskPassesFilter`).
- Every error inside a job stops the worklist, since only a completed job
  calls `doJob` again. An error is caught and logged when it arises in the
  video or activity loop, in the metadata lookup, or in the first `doJob`
  call. One in a `doJob` called from a desktop event handler
  (DiscordQuests.plugin.js:297, 328) is not caught.
- The final video report at the target is not held to the pacing window
  (`VideoStrategy.ShortVideoFromEnrolment`).

## Model

| member | source | states |
|---|---|---|
| `Versions.SplitJoin` | DiscordQuests.plugin.js:104-105 | `split(".")` undoes `join(".")` on dot-free pieces |
| `Versions.SplitAtDot` | DiscordQuests.plugin.js:104-105 | splitting `a + "." + c` gives the pieces of `a` followed by the pieces of `c` |
| `Versions.ParseIntOrZero` | DiscordQuests.plugin.js:104-105 | `parseInt(n, 10) \|\| 0`: no digits after white space and sign gives 0; a string of digits gives its decimal value |
| `Versions.ParseIntOrZeroOfPrefix` | DiscordQuests.plugin.js:104-105 | white space, an optional sign, digits, then anything not starting with a digit reads as the signed value of the digits ("3-beta" is 3, " -2" is -2) |
| `Versions.Cmp` | DiscordQuests.plugin.js:106-113 | the comparison is always -1, 0 or 1 |
| `Versions.CompareVersions` | DiscordQuests.plugin.js:102-114 | the `for` loop over `max(len)` with `?? 0` padding returns the zero-padded component-wise comparison |
| `Versions.CmpMeaning` | DiscordQuests.plugin.js:102-114 | 0 iff every zero-padded component agrees; 1 (or -1) iff the first disagreeing component is larger (or smaller) in the first version |
| `Versions.CmpReflexive` | DiscordQuests.plugin.js:102-114 | every version compares equal to itself |
| `Versions.CmpAntisymmetric` | DiscordQuests.plugin.js:102-114 | swapping the arguments negates the result |
| `Versions.CmpTransitive` | DiscordQuests.plugin.js:102-114 | "not newer than" is transitive |
| `Versions.CmpTrailingZero` | DiscordQuests.plugin.js:108-109 | a trailing 0 component changes no comparison |
| `Versions.MissingComponentIsZero` | DiscordQuests.plugin.js:104-109 | appending a component that reads as 0 (`.0`, or a non-number) leaves a version equal to the original |
| `Versions.NonNumericComponentIsZero` | DiscordQuests.plugin.js:104-105 | a last component without a dot that starts with anything but a digit, white space or a sign reads as 0, so a version with it ("1.2.beta") equals the version without it ("1.2") |
| `Versions.ComponentsOfJoin` | DiscordQuests.plugin.js:104-105 | the components of pieces of digits joined with dots are the decimal values of the pieces, in order |
| `Versions.NumericNotLexicographic` | DiscordQuests.plugin.js:104-111 | components compare as numbers: "1.10" is newer than "1.9" |
| `Versions.ParseVersionFromSource` | DiscordQuests.plugin.js:97-100 | the leftmost case-insensitive `@version`, white space, then 1 to 4 dot-separated digit runs; a result starts with a digit and every dot in it is followed by a digit |
| `Versions.ParseVersionInContext` | DiscordQuests.plugin.js:97-100 | in a source with no `@version` before it, the tag, non-empty white space, one to four dot-separated digit runs `v`, then anything not starting with a digit or a dot, yields `v` |
| `Versions.ParseVersionRoundTrip` | DiscordQuests.plugin.js:97-100 | `"@version " + v` alone yields `v` back, for every `v` of one to four digit runs |
| `Versions.CheckForUpdates` | DiscordQuests.plugin.js:119-135 | a non-ok or failed fetch fails the check; an unreadable version returns early; it installs iff the remote version is strictly newer, and then installs exactly the fetched text; otherwise it is up to date |
| `Versions.OwnHeaderVersion` | DiscordQuests.plugin.js:6 | the header line ` * @version 3.0.0`, with its line end, parses to 3.0.0 |
| `Versions.WrittenVersionIsOlder` | DiscordQuests.plugin.js:6-25 | the constructor's "2.2.3" compares as older than the header's 3.0.0 |
| `Versions.OwnReleaseLooksNewerAsWritten` | DiscordQuests.plugin.js:25 | with the constructor's "2.2.3", the plugin's own release (3.0.0) compares as newer |
| `Versions.SameVersionIsUpToDate` | DiscordQuests.plugin.js:130-133 | a fetched source that declares exactly the installed version compares equal, so it is never installed |
| `Versions.OwnReleaseUpToDate` | DiscordQuests.plugin.js:6 | with the installed version taken from the header, the own release is up to date |
| `Shortcut.HandleKeyDown` | DiscordQuests.plugin.js:38-89 | the `switch` table plus the key test fires exactly when `Triggers` holds: the keys are equal ignoring case, and the held chord is the one the modifier names (Ctrl alone for an unknown name) |
| `Shortcut.ChordNameOfRequired` | DiscordQuests.plugin.js:41-76 | each of the seven modifier names names exactly one chord |
| `Shortcut.TriggersIffRequiredChord` | DiscordQuests.plugin.js:41-85 | fires iff the key matches and the held (ctrl-or-meta, shift, alt) flags equal the ones the setting requires |
| `Shortcut.UnknownModifierActsAsCtrl` | DiscordQuests.plugin.js:77-81 | an unknown modifier name behaves exactly like "ctrl" |
| `Shortcut.CtrlModeIsExact` | DiscordQuests.plugin.js:42-46 | in "ctrl" mode, Shift or Alt held, or neither Ctrl nor Meta held, blocks the shortcut |
| `Shortcut.MetaActsAsCtrl` | DiscordQuests.plugin.js:43 | Meta and Ctrl are interchangeable |
| `Shortcut.OneModifierSettingPerEvent` | DiscordQuests.plugin.js:41-85 | an event fires under at most one known modifier setting |
| `Shortcut.DefaultShortcut` | DiscordQuests.plugin.js:15-18 | Ctrl+Q and Cmd+Q (either case) fire the default settings; Ctrl+Shift+Q does not |
| `Text.Lower` | DiscordQuests.plugin.js:83 | lower-casing keeps the length and folds each character |
| `Quests.FirstIn` | DiscordQuests.plugin.js:220 | the position of the earliest task of the list that is present; None iff no task of the list is present |
| `Quests.EligibleQuests` | DiscordQuests.plugin.js:199-205 | None iff some live quest has no task configuration (the filter throws); otherwise every kept quest is eligible and from the store, and no eligible quest is dropped |
| `Quests.EligibleQuestsKeepOrder` | DiscordQuests.plugin.js:200-205 | filtering a concatenation concatenates the filtered parts, so the store's order is kept |
| `Quests.EligibleQuestsOfOne` | DiscordQuests.plugin.js:200-205 | a single quest is kept iff it is eligible |
| `Quests.ResolveTask` | DiscordQuests.plugin.js:219-222 | None iff no configuration or no supported task with a non-null value; otherwise the earliest such task in list order, its target, and its recorded progress or 0 |
| `Quests.ResolveMatchesFilter` | DiscordQuests.plugin.js:199-222 | when no listed task is null, an eligible quest resolves to the very task the filter found |
| `Quests.NullTaskPassesFilter` | DiscordQuests.plugin.js:199-222 | a quest whose only supported key is null is kept by the filter and resolves to no task |
| `VideoStrategy.MaxAllowed` | DiscordQuests.plugin.js:232 | `floor((now - enrolledAt) / 1000) + 10`, as bounds on the elapsed milliseconds |
| `VideoStrategy.VideoLoop` | DiscordQuests.plugin.js:224-247 | a video run never ends as `Unresolved` |
| `VideoStrategy.SimulateVideo` | DiscordQuests.plugin.js:228-247 | the `while (true)` loop over `secondsDone` and `completed` produces exactly the run `VideoLoop` describes |
| `VideoStrategy.TicksFollowClock` | DiscordQuests.plugin.js:231-244 | pass i reads the i-th clock reading; no more passes than readings |
| `VideoStrategy.ReportsArePaced` | DiscordQuests.plugin.js:232-237 | a pass posts iff `maxAllowed - secondsDone >= 7`; what it posts is `min(target, secondsDone + 7)`, at most the target and at most `maxAllowed` |
| `VideoStrategy.ProgressMonotoneAndClamped` | DiscordQuests.plugin.js:237 | from a start within the target, `secondsDone` never decreases and never exceeds the target |
| `VideoStrategy.ExitsAsSoonAsTargetInReach` | DiscordQuests.plugin.js:240-242 | every pass but the last has `secondsDone + 7 < target`; a loop that is left has `secondsDone + 7 >= target` on its last pass |
| `VideoStrategy.FinalReportUnlessCompleted` | DiscordQuests.plugin.js:244-246 | after the loop, one final report exactly at the target is sent iff the last reply of the loop did not report completion (each reply overwrites the flag); a completed video run without it was completed by the server |
| `VideoStrategy.EveryReportAtMostTarget` | DiscordQuests.plugin.js:235-245 | every timestamp posted, in the loop or after it, is at most the target |
| `VideoStrategy.ShortVideoFromEnrolment` | DiscordQuests.plugin.js:232-245 | a 14-second video from enrolment posts 7, then the final 14 at 1 s, where only 11 are allowed |
| `ActivityStrategy.ActivityLoop` | DiscordQuests.plugin.js:340-359 | an activity run never ends as `Unresolved` |
| `ActivityStrategy.SendHeartbeats` | DiscordQuests.plugin.js:344-355 | the `while (true)` loop sends exactly the heartbeats, and ends as, `ActivityLoop` says |
| `ActivityStrategy.OneStreamKey` | DiscordQuests.plugin.js:338-352 | every heartbeat carries the stream key of the chosen channel |
| `ActivityStrategy.StreamKeyNamesChannel` | DiscordQuests.plugin.js:337-338 | the key is `call:` + the channel id + `:1`, so distinct channels give distinct keys |
| `ActivityStrategy.ShiftFirstReached` | DiscordQuests.plugin.js:344-355 | dropping a below-target success reply shifts the first reply that reaches the target by one |
| `ActivityStrategy.TerminalIsLast` | DiscordQuests.plugin.js:344-355 | at least one heartbeat; only the last can be terminal, so at most one is; a completed run ends with exactly one terminal heartbeat |
| `ActivityStrategy.TerminalSentIffReached` | DiscordQuests.plugin.js:344-352 | exactly one terminal heartbeat is sent iff some reply reaches the target, whatever the terminal reply is; otherwise none is sent |
| `ActivityStrategy.TerminalOnlyAtTarget` | DiscordQuests.plugin.js:345-352 | a terminal heartbeat follows the non-terminal one whose reply is the first to reach the target |
| `ActivityStrategy.CompletesIffTargetReached` | DiscordQuests.plugin.js:344-359 | the strategy completes iff some reply first reaches the target and the terminal heartbeat after it is acknowledged |
| `DesktopStrategy.CompletionEvent` | DiscordQuests.plugin.js:286-299 | the first heartbeat event whose progress (seconds for config version 1, otherwise the floor of the task value) reaches the target |
| `DesktopStrategy.DesktopOutcome` | DiscordQuests.plugin.js:256-335 | nothing is done in the browser; a failed metadata lookup is abandoned; otherwise it completes iff some event reaches the target |
| `Orchestrator.DispatchOutcome` | DiscordQuests.plugin.js:218-363 | an unresolvable task is abandoned; the outcome of `Dispatch` is `Unresolved` iff a desktop task runs in the browser |
| `Orchestrator.RunStrategy` | DiscordQuests.plugin.js:218-363 | runs the strategy of the resolved task with the loop methods and gets exactly the outcome `Dispatch` gives |
| `Orchestrator.ScheduleIsLifo` | DiscordQuests.plugin.js:211-213 | the i-th dispatched quest is the i-th from the end of the worklist, and it is the i-th strategy run |
| `Orchestrator.AdvancesOnlyOnCompletion` | DiscordQuests.plugin.js:249 | every dispatch but the last completed; when quests remain, the last did not complete |
| `Orchestrator.ThreeQuestsRunInReverse` | DiscordQuests.plugin.js:211-213 | discovery order [A, B, C], all completing, is dispatched as C, B, A |
| `Orchestrator.FirstRunStops` | DiscordQuests.plugin.js:211-213 | a first strategy run that does not complete is the only job dispatched |
| `Orchestrator.BrowserDesktopQuestStops` | DiscordQuests.plugin.js:256-259 | a desktop quest popped in the browser is the only one dispatched |
| `Orchestrator.QuestRunner.constructor` | DiscordQuests.plugin.js:200 | the runner holds the filtered worklist |
| `Orchestrator.QuestRunner.Pop` | DiscordQuests.plugin.js:212-213 | `pop()` returns and removes the last quest; on an empty list it returns nothing and leaves the list unchanged |
| `Orchestrator.QuestRunner.DoJob` | DiscordQuests.plugin.js:211-363 | one `doJob`: removes the last quest and records it with its dispatch outcome; a no-op on an empty list |
| `Orchestrator.QuestRunner.Run` | DiscordQuests.plugin.js:211-366 | the chain of `doJob` calls produces exactly `Schedule` of the initial worklist, and leaves the undispatched prefix of the worklist |
| `Orchestrator.Start` | DiscordQuests.plugin.js:199-366 | nothing runs when the filter throws; otherwise the jobs are `Schedule` of the filtered worklist |

## Left out

- Host module discovery and the webpack introspection (DiscordQuests.plugin.js:164-197) are foreign objects. The quest store becomes the `catalog` parameter of `Orchestrator.Start`.
- The DOM listener registration in `start`/`stop` (DiscordQuests.plugin.js:28-36) and the call of `runSnippet` from the handler are I/O. `Shortcut.HandleKeyDown` returns whether the snippet would run.
- `fetch`, `res.text()` and `fs.writeFileSync` are network and file I/O. The fetch result is the `Response` input, and the write is the `Install` decision.
- The `showUpToDateToast` argument only decides whether a toast is shown, so it is not modelled.
- Settings load/save and the settings panel (DiscordQuests.plugin.js:20, 373-421) are persistence and UI. The settings are a parameter.
- Logging and toasts are side channels.
- Replacing the host's store accessors, dispatching `RUNNING_GAMES_CHANGE`, and subscribing to and unsubscribing from Flux events (DiscordQuests.plugin.js:256-335) mutate objects outside the model. The desktop strategies keep only these parts:
  - the browser guard;
  - whether the PLAY_ON_DESKTOP metadata lookup fails (a missing win32 executable counts as a failure);
  - the completion test on the progress events.
- The `Math.random` pid (215) and the random jitter added to each video timestamp (235) are random and floating-point. The timestamp is modelled as the clamped integer `min(target, secondsDone + 7)`.
- `setTimeout` waits, async scheduling and the real `api.post` / `api.get` calls are runtime mechanics. They become the clock and reply sequences, and each request consumes one reply.
- Channel selection for activities (337) depends on the shapes of host stores. The chosen channel id is a parameter, and the stream key is built from it as line 338 does. A missing channel would throw inside `doJob`; that is not modelled.
- `toLowerCase` is modelled on ASCII letters only; no Unicode case mapping.
- `parseInt` is modelled on exact integers, without the float rounding of very long digit strings.
- Task configurations and progress records are maps keyed by the five supported task names (`Quests.TaskKind`). The core reads no other key, so other keys are not represented.
- Timestamps are integers in milliseconds. An `expiresAt` or `enrolledAt` that does not parse (`getTime()` is NaN) is `None`, the same as a missing one. `completedAt` is never parsed: a quest records only whether it is truthy, as the filter tests it (202).
- `Quests.Live` drops a quest whose enrolment date is present but does not parse. The source's filter (201) tests only that `enrolledAt` is truthy, so it keeps that quest. The model does not represent this case. In the source that quest's video loop never posts inside the loop: `maxAllowed` is NaN, so `diff >= speed` is false (231-234). If `secondsDone + 7` already reaches the target, the loop ends at once (240-242), the final report is posted (245-247) and `doJob` goes on (249). Otherwise the loop waits without end.
- `Orchestrator.Dispatch` returns `Abandoned` for a video quest without an enrolment date. `Quests.Live` never keeps such a quest, so `Orchestrator.Start` never reaches this branch. It is a placeholder, not the source's behaviour.
- Progress values are integers: the `progress` map of a `Quests.Quest`, the progress of a `HeartbeatAck`, `secondsDone` and the targets. The source's values are JavaScript numbers and may be fractional (222, 235, 346). Only the desktop events keep the task value as a `real`, which they floor as the source does (286, 319). A fractional progress elsewhere is not represented.
- `VideoStrategy.VideoLoop` and `ActivityStrategy.ActivityLoop` promise only that the outcome is not `Unresolved`. What they do is stated by the lemmas beside them and by their methods.
- `Versions.ParseVersionFromSource` states the shape of what it returns. The four-component cap is in its definition, and its round trip is proved for one to four components only; reading five components back as four is not stated by a lemma.
- A lemma stating that "1.2.0" equals "1.2" with literal strings is not included. `Versions.CmpTrailingZero` and `Versions.MissingComponentIsZero` state it for every version.

## Findings

| source | as written | input that shows it | evidently intended | confidence | as-written member | corrected member |
|---|---|---|---|---|---|---|
| DiscordQuests.plugin.js:25 | `CURRENT_VERSION = "2.2.3"`, while the header (line 6) declares `@version 3.0.0` | the update URL serves this same release, whose header reads `@version 3.0.0` | the installed version equals the header version, so the own release is up to date and is not reinstalled | high that the two values disagree; not executed | `Versions.OwnReleaseLooksNewerAsWritten` | `Versions.OwnReleaseUpToDate` |
