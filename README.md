# YouTube gesture controller: detection core in Dafny

The demo page of the YouTube gesture controller plays and pauses an embedded
YouTube video based on the hand it sees in the webcam. This project models the
decision logic behind that page and proves properties of it:

- **Gesture classification** (`Gestures`): `detectGesture` turns the 21 hand
  landmarks into `play`, `pause` or nothing. Play means the index fingertip is
  the highest tip (smallest y) and sits more than 30 px above the runner-up.
  Pause means all five tips are more than 30 px above the wrist. Play is
  checked first. The model keeps the source's own steps: `Math.min`, a sorted
  copy of the tips, the second-smallest tip, and `every`.
- **Command dispatch** (`Player`): an accepted gesture becomes `playVideo` or
  `pauseVideo`. The call goes to the IFrame API player when it exposes
  `getPlayerState`. Otherwise it is posted as a JSON message to the iframe's
  window with target origin `*`. When neither is available, nothing is sent.
- **Debounce** (`Debounce`): one detection tick as a pure transition over the
  state it reads and writes. A detected gesture is accepted only if it differs
  from the last accepted gesture and more than 200 ms have passed since the last
  acceptance. A hand with no gesture clears the display only 500 ms after the
  last acceptance. No hand clears it at once. A failed estimation sets the
  error banner. Runs of ticks are modelled too, with lemmas about them.
- **The detection loop object** (`DetectLoop.Detector`): the component's
  state and refs as fields of a class. The tick is split in two around the
  asynchronous `estimateHands` call. `BeginTick` checks and sets the
  `isProcessing` flag. `CompleteTick` updates the fields step by step, as the
  source does, and is proved equal to the pure `Tick`.
- **Embed URL** (`YouTubeUrl`): `getYouTubeEmbedUrl`. The model captures the
  video id with an explicit search that mirrors how a backtracking regex
  engine evaluates `^.*(?:youtu.be\/|v\/|u\/\w\/|embed\/|watch\?v=|&v=)([^#&?]*).*`.
  The greedy `.*` means the marker found is the one that starts last on the
  first line, since `.` does not match a line terminator. The id is the
  longest run of characters other than `#`, `&` and `?` after that marker. It
  is accepted only when it is exactly 11 characters long.

Points where the code's behaviour is easy to misread:

- The release window (500 ms) and the cooldown (200 ms) are both measured from
  `lastGestureTime` (frontend/src/components/Demo.tsx:196, :228). That is the
  time of the last *accepted* gesture. A suppressed detection does not refresh
  it.
- A hand with fewer than 21 landmarks never reaches `detectGesture`'s length
  check from the tick: `drawHand` runs first (line 191), reads a missing
  landmark and throws, and the `catch` block sets the error banner. The tick
  model treats such a hand as a failure, not as "no gesture".
- `lastGestureTime` starts at 0 (`useRef(0)`, line 113). So the first gesture
  is accepted only when the clock reads more than 200.
- `lastGesture` is read through a closure created once at mount. The effect's
  only dependency, `cooldown`, never changes. So at run time the tick always
  reads `lastGesture` as `null`. `Debounce.Tick` and the class model the
  evidently intended debounce. `Debounce.MountedTick` models the tick as the
  closure runs it (see Findings).
- The same stale closure reads `isProcessing` as `false`. The
  `requestAnimationFrame` chain never runs two ticks at once, so the guard
  never matters. `DetectLoop.Detector.BeginTick` models the guard as written.
  That includes the `return` inside `try`: it runs the `finally` block, which
  clears the flag.

## Model

| member | source | states |
|---|---|---|
| Gestures.DetectGesture | frontend/src/components/Demo.tsx:69-70 | Fewer than 21 landmarks gives no gesture |
| Gestures.ClassifyTips | frontend/src/components/Demo.tsx:73-95 | Play when the index y is the smallest tip and the second-smallest exceeds it by more than 30; otherwise Pause when every tip is above wristY - 30; otherwise none. `PlayIff`, `PauseIff` and `NoGestureIff` state this three-way result on `DetectGesture` |
| Gestures.Min | frontend/src/components/Demo.tsx:78 | `Math.min(...tips)`: the result is one of the tips and no tip is smaller |
| Gestures.SortAscending | frontend/src/components/Demo.tsx:79 | The sorted copy is in ascending order and is a permutation of the tips |
| Gestures.TipYs | frontend/src/components/Demo.tsx:73-74 | The five fingertip y values, with the index tip's y second |
| Gestures.SortSplitsOffMin | frontend/src/components/Demo.tsx:78-80 | Sorting puts a minimal tip first, followed by a sorted permutation of the others |
| Gestures.RunnerUpBoundsOthers | frontend/src/components/Demo.tsx:80-83 | If the index tip is the minimum and the second-smallest tip is more than 30 above it, so is every other tip |
| Gestures.OthersBoundRunnerUp | frontend/src/components/Demo.tsx:80-83 | If every other tip is more than 30 px below the index tip, the index tip is the minimum and the second-smallest is more than 30 above it |
| Gestures.ClassifyTipsPlay | frontend/src/components/Demo.tsx:81-87 | On five tips, Play exactly when the index y is the minimum and the runner-up exceeds it by more than 30 |
| Gestures.ClearImpliesPlay | frontend/src/components/Demo.tsx:73-87 | A hand whose index tip is more than 30 px above each other tip is Play |
| Gestures.PlayImpliesClear | frontend/src/components/Demo.tsx:73-87 | A hand classified Play has its index tip more than 30 px above each other tip |
| Gestures.PlayIff | frontend/src/components/Demo.tsx:70-87 | Play if and only if there are 21 landmarks and the index tip is more than 30 px above each of the four other tips |
| Gestures.PalmAboveWristOnTips | frontend/src/components/Demo.tsx:90 | `tips.every(y => y < wristY - 30)` holds exactly when each named fingertip is more than 30 px above the wrist |
| Gestures.PauseIff | frontend/src/components/Demo.tsx:81-93 | Pause if and only if there are 21 landmarks, the Play condition fails, and all five tips are more than 30 px above the wrist |
| Gestures.NoGestureIff | frontend/src/components/Demo.tsx:70-95 | No gesture if and only if there are too few landmarks, or neither the Play nor the Pause condition holds |
| Gestures.TieNeverPlays | frontend/src/components/Demo.tsx:81-84 | If any other tip is level with or above the index tip, the result is never Play |
| Gestures.PlayBeatsPause | frontend/src/components/Demo.tsx:81-93 | When both conditions hold the result is Play |
| Gestures.HandAt | frontend/src/components/Demo.tsx:73-75 | A 21-landmark hand with the given wrist and fingertip heights |
| Gestures.IndexAt100IsPlay | frontend/src/components/Demo.tsx:81-87 | An index tip at y=100 with every other tip at 131 or lower on screen is Play |
| Gestures.OpenPalmIsPause | frontend/src/components/Demo.tsx:89-93 | Five level tips more than 30 px above the wrist give Pause |
| Gestures.Every | frontend/src/components/Demo.tsx:90 | `tips.every(y => y < bound)` |
| Gestures.Label | frontend/src/components/Demo.tsx:15-18 | `GESTURE_MAP`: play is shown as "Play", pause as "Pause" |
| Player.CommandFor | frontend/src/components/Demo.tsx:211-214 | play gives playVideo and pause gives pauseVideo |
| Player.FuncName | frontend/src/components/Demo.tsx:214 | The player method names are "playVideo" and "pauseVideo" |
| Player.Dispatch | frontend/src/components/Demo.tsx:210-219 | A call is made exactly when the API player is ready or the iframe has a window. It is a direct API call exactly when the player is ready, never both. A posted message targets origin "*" |
| Player.CommandMessage | frontend/src/components/Demo.tsx:215-216 | The `JSON.stringify` text of the command message, which is non-empty |
| Player.CommandMessageInjective | frontend/src/components/Demo.tsx:214-216 | The posted JSON for playVideo and for pauseVideo differ |
| Player.DispatchCarriesCommand | frontend/src/components/Demo.tsx:210-219 | On either channel, the call made for a gesture carries that gesture's command |
| Debounce.Observe | frontend/src/components/Demo.tsx:188-192 | A hand with all 21 landmarks is classified with detectGesture. A thrown estimation, or a shorter hand on which `drawHand` throws, becomes the failure case. No prediction is the empty case |
| Debounce.Initial | frontend/src/components/Demo.tsx:101-113 | The initial values: no last gesture, time 0, no label, no overlay, no error |
| Debounce.Accepts | frontend/src/components/Demo.tsx:196 | The acceptance test: a gesture was detected, it differs from the last one, and more than 200 ms have passed |
| Debounce.Cleared | frontend/src/components/Demo.tsx:229-230 | Clearing hides the label and overlay and changes nothing else |
| Debounce.Tick | frontend/src/components/Demo.tsx:190-239 | Accepts exactly a detected gesture that differs from the last one, more than 200 ms after the last acceptance. On acceptance it records the gesture and `now` and dispatches. Otherwise the last gesture and its time are unchanged and nothing is dispatched. Consistency is preserved |
| Debounce.AcceptedTick | frontend/src/components/Demo.tsx:196-219 | An accepted gesture sets the last gesture and its time, the label "Play"/"Pause" and the overlay, and issues the dispatch |
| Debounce.ShortHandTick | frontend/src/components/Demo.tsx:190-191 | A hand with fewer than 21 landmarks only sets the error message: drawing it throws before it is classified |
| Debounce.SuppressedTick | frontend/src/components/Demo.tsx:196 | A detected gesture that is not accepted changes no state and dispatches nothing |
| Debounce.ReleaseTick | frontend/src/components/Demo.tsx:226-232 | A hand with no gesture clears the display only after more than 500 ms since the last acceptance, and dispatches nothing |
| Debounce.NoHandTick | frontend/src/components/Demo.tsx:233-236 | No hand clears the display unconditionally and dispatches nothing |
| Debounce.FailedTick | frontend/src/components/Demo.tsx:237-239 | A failed estimation only sets the error message |
| Debounce.SameGestureNeverReaccepted | frontend/src/components/Demo.tsx:195-196 | The gesture last accepted is never accepted again by itself, whatever the time |
| Debounce.MountedTick | frontend/src/components/Demo.tsx:196 | As the mounted closure runs it: any detected gesture is accepted once 200 ms have passed, even a repeat of the last one |
| Debounce.MountedTickRepeatsHeldGesture | frontend/src/components/Demo.tsx:196 | Play held at 1000 and 1201 ms is accepted twice by the mounted closure and once by the intended debounce |
| Debounce.CallsFor | frontend/src/components/Demo.tsx:210-219 | At most one call per acceptance, and exactly one per acceptance when a channel is available |
| Debounce.Run | frontend/src/components/Demo.tsx:179-245 | A run of ticks accepts at most one gesture per tick |
| Debounce.RunCallsAreDispatches | frontend/src/components/Demo.tsx:196-219 | The calls of any run are exactly the dispatches of its accepted gestures, in order |
| Debounce.RunAcceptancesAlternate | frontend/src/components/Demo.tsx:196-199 | Consecutive acceptances alternate between play and pause and are more than 200 ms apart. The first differs from the starting last gesture and comes more than 200 ms after its time |
| Debounce.RunRecordsLastAcceptance | frontend/src/components/Demo.tsx:198-199 | After a run, the last gesture and its time are those of the last acceptance, or unchanged if there was none |
| Debounce.RunStaysConsistent | frontend/src/components/Demo.tsx:190-236 | Every state reached from a consistent state is consistent: the label shown is empty or that of the last accepted gesture, the overlay is shown only with a label, and the last gesture and its time are set together |
| Debounce.RunLastTimeMonotone | frontend/src/components/Demo.tsx:199 | `lastGestureTime` never decreases over a run |
| Debounce.HoldingNeverRedispatches | frontend/src/components/Demo.tsx:195-196 | Holding the last accepted gesture, with gaps, empty frames or failures in between, never dispatches again |
| Debounce.RunCallsUnfold | frontend/src/components/Demo.tsx:179-245 | The calls of a run are those of its first tick followed by those of the rest |
| Debounce.PlayPlayPauseScenario | frontend/src/components/Demo.tsx:196-212 | Play at 1000 ms, Play at 1050 ms and Pause at 1260 ms call exactly playVideo then pauseVideo |
| DetectLoop.Detector.State | frontend/src/components/Demo.tsx:101-113 | The debounce-visible fields as one value |
| DetectLoop.Detector.constructor | frontend/src/components/Demo.tsx:101-113 | The initial values of the state and refs |
| DetectLoop.Detector.BeginTick | frontend/src/components/Demo.tsx:181-241 | A tick starts exactly when no tick is in flight. One that finds the flag set returns and, through `finally`, clears it |
| DetectLoop.Detector.CompleteTick | frontend/src/components/Demo.tsx:188-241 | The step-by-step field updates produce exactly the state and call of `Debounce.Tick` on the observed frame (a short hand sets the error, as the throw in `drawHand` does), keep the consistency invariant, and clear the in-flight flag |
| DetectLoop.Detector.Decide | frontend/src/components/Demo.tsx:196-232 | The accept, suppress and release branches on a classified hand update the fields to exactly the state of `Debounce.Tick`, return its call, and keep the consistency invariant |
| DetectLoop.Detector.Step | frontend/src/components/Demo.tsx:180-245 | A whole tick: it does nothing if a tick is in flight, and otherwise does what `Debounce.Tick` says on the observed frame, including the error for a short hand |
| DetectLoop.Detector.OverlayTimerFires | frontend/src/components/Demo.tsx:222-225 | The timer hides the overlay and the label and keeps the state consistent |
| DetectLoop.HeldPlaySession | frontend/src/components/Demo.tsx:196-211 | On a fresh detector, a Play hand at 1000 ms calls playVideo, and the same hand at 1050 ms calls nothing |
| YouTubeUrl.IsLineTerminator | frontend/src/components/Demo.tsx:10 | The characters `.` does not match: line feed, carriage return, U+2028 and U+2029 |
| YouTubeUrl.IsWordChar | frontend/src/components/Demo.tsx:10 | `\w`: ASCII letters, digits and `_` |
| YouTubeUrl.IsIdChar | frontend/src/components/Demo.tsx:10 | `[^#&?]` |
| YouTubeUrl.MarkerAt | frontend/src/components/Demo.tsx:10 | A marker alternative that matches fits inside the string and has one of the six alternative lengths |
| YouTubeUrl.LineEnd | frontend/src/components/Demo.tsx:10 | The end of the line `.*` can span: no line terminator before it, and a terminator or the end of the string at it |
| YouTubeUrl.LastMarkerFrom | frontend/src/components/Demo.tsx:10 | The backtracking of `^.*` finds the marker with the greatest start at or before the given position, or none |
| YouTubeUrl.IdRun | frontend/src/components/Demo.tsx:10 | The capture `([^#&?]*)` is the maximal run of characters other than `#`, `&` and `?` |
| YouTubeUrl.CapturedId | frontend/src/components/Demo.tsx:10-11 | The pattern fails exactly when no marker starts on the first line. The captured id holds no `#`, `&` or `?` |
| YouTubeUrl.EmbedUrl | frontend/src/components/Demo.tsx:8-13 | Null exactly when there is no match or the id is not 11 characters. Otherwise the result is the embed prefix, then the id (without `#&?`), then `?enablejsapi=1` |
| YouTubeUrl.VideoIdOf | frontend/src/components/Demo.tsx:12 | The 11-character id an embed URL carries |
| YouTubeUrl.LastMarkerIs | frontend/src/components/Demo.tsx:10 | The search stops at the last marker at or before its start position |
| YouTubeUrl.CapturedAfterLastMarker | frontend/src/components/Demo.tsx:10-11 | The captured id is the run after the last marker on the first line |
| YouTubeUrl.IdRunIsMaximalRun | frontend/src/components/Demo.tsx:10 | Any maximal run of id characters at a position is the captured run |
| YouTubeUrl.MarkerHasDelimiter | frontend/src/components/Demo.tsx:10 | Every marker alternative contains `/`, `?` or `&` |
| YouTubeUrl.MarkerWithinLine | frontend/src/components/Demo.tsx:10 | A marker contains no line terminator |
| YouTubeUrl.MarkerTransfer | frontend/src/components/Demo.tsx:10 | Whether a marker matches depends only on the characters it spans |
| YouTubeUrl.MarkerStopsBeforeQuery | frontend/src/components/Demo.tsx:10 | No marker runs across a following "?e" |
| YouTubeUrl.ShortLinkRoundTrip | frontend/src/components/Demo.tsx:8-13 | `https://youtu.be/<id>` with an 11-character plain id gives the embed URL of that id |
| YouTubeUrl.WatchLinkRoundTrip | frontend/src/components/Demo.tsx:8-13 | `https://www.youtube.com/watch?v=<id>` with an 11-character plain id gives the embed URL of that id |
| YouTubeUrl.CapturedIdIsMarkerFree | frontend/src/components/Demo.tsx:10-11 | A captured id contains no marker on its first line |
| YouTubeUrl.EmbedCapturesId | frontend/src/components/Demo.tsx:8-13 | The embed URL for an id with no marker on its first line captures that same id |
| YouTubeUrl.EmbedUrlIdempotent | frontend/src/components/Demo.tsx:8-13 | An embed URL maps to itself, and the id it carries is the one captured from the original URL |

## Left out

- `drawHand` and the clearing and redrawing of the canvas at lines 185-186: rendering, except that `drawHand` throws on a hand with fewer than 21 landmarks, which the model keeps (`Debounce.Observe`).
- Model loading, the WebGL backend, `getUserMedia` and `video.play()` (lines 150-177, 248-253): foreign asynchronous calls and hardware. What `estimateHands` returns is an input to the tick (`Debounce.Frame`).
- The checks on `isMounted`, `running` and the canvas and video elements (line 180), `requestAnimationFrame` scheduling, and the cleanup closure (lines 242-244, 258-271): host event loop and teardown.
- `Date.now()`: the clock reading is a parameter of each tick.
- Debounce.Run: a run keeps one player environment for all its ticks, so the run lemmas cover a session whose channel never changes. The source re-reads the player and iframe refs at each acceptance (lines 210, 213), and the player can become ready mid-session (lines 127-133). `DetectLoop.Detector.Step` takes the environment per tick and covers that case.
- The 300 ms overlay timer: the delay and `clearTimeout` of a pending timer are not modelled. `DetectLoop.Detector.OverlayTimerFires` is what its callback does, at whatever time it runs.
- Loading the YouTube IFrame API script and constructing `YT.Player` (lines 119-140): browser library code. Whether the player is ready is the `apiReady` input of `Player.PlayerEnv`.
- `handleSetVideo`, the JSX and the `console.log`/`console.error` calls: presentation. The null check on the landmarks is done by the caller at line 190, so `DetectGesture` takes a landmark list that is present.
- Landmark coordinates are integers. The x and z coordinates are carried but unused, as in the source. Floating point (NaN, rounding) is not modelled.
- Strings are sequences of Unicode scalar values. JavaScript strings are UTF-16 code units, so a surrogate pair counts as two characters towards the 11-character id length in the source and as one here. Likewise the `.` in `youtu.be` matches one UTF-16 code unit in the source (the pattern has no `u` flag), so a character outside the Basic Multilingual Plane at that position does not match there but does match here.
- `\w` is modelled as ASCII letters, digits and `_`, as JavaScript defines it without the `u` flag.
- Player.CommandMessage: states only that the message is non-empty. Its exact text, the `JSON.stringify` output, is fixed by the function itself, and `Player.CommandMessageInjective` states that the two messages differ.
- The Documentation, HowItWorks, Gestures and Footer components and App: static presentation with no logic.

## Findings

| source | as written | input that shows it | evidently intended | confidence | as-written member | corrected member |
|---|---|---|---|---|---|---|
| frontend/src/components/Demo.tsx:196 | The tick closure is created once at mount (the effect depends only on `cooldown`, which never changes), so `detected !== lastGesture` compares against the `lastGesture` of the first render, which is `null` | Play held, seen at 1000 ms and again at 1201 ms: the second sighting is accepted and `playVideo` is called again; a held gesture re-fires every 200 ms | A gesture is accepted only when it differs from the last accepted one, as the comment on line 195 says | not executed; high | Debounce.MountedTick, Debounce.MountedTickRepeatsHeldGesture | Debounce.Tick, Debounce.SameGestureNeverReaccepted, Debounce.HoldingNeverRedispatches |
