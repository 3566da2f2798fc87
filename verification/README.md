# Video player controls, modelled in Dafny

A model of the decision logic inside the `VideoPlayer` React component
(`src/VideoPlayer.jsx`). The component puts playback controls over a native
video element. This model covers the parts of it that decide something:

- the time display: `formatDuration` and the guard that shows `00:00` for a
  value that is not a finite number;
- the play/pause toggle;
- relative seeking (`seek`, wired to the ±10 s buttons);
- click-to-seek on the progress bar (`updateProgressOnClick`);
- the two media-element listeners (`loadedmetadata`, `timeupdate`) that copy
  duration, current time and progress into component state;
- the fullscreen button's fallback over four vendor spellings of the
  fullscreen API.

The DOM and React are replaced by immutable records. `Player.Media` is the
native element: `paused`, `currentTime` and `duration`. `Player.Bar` is the
progress bar's bounding box. `Player.Player` is the component state together
with the two refs, and a ref whose `current` is null is `None`.
`Fullscreen.Env` holds what the fullscreen handler reads: the container, the
unprefixed `document.fullscreenElement`, and the document's exit methods.

Files:

- `wrappers.dfy`: `Option`.
- `decimal.dfy`: ASCII decimal rendering (`Show`, `PadTwo`) and its reading
  back (`ValueOf`).
- `time_format.dfy`: the clock split, `FormatDuration`, the display guard
  and the `current / total` label. It also holds `ParseClock` and
  `ParseLabel`, which read a display back and serve as the reference the
  renderings are proved against.
- `player.dfy`: play/pause, seek, click-to-seek, the listeners, and
  `Dispatch` over the wired handlers.
- `fullscreen.dfy`: the fullscreen fallback, with a scan of the priority
  list (`FirstPresent`) as its reference definition.

Points where the code behaves differently from what a reader might expect.
The model follows the first, second and fourth; the third is excluded by a
precondition (see "Left out"):

- The component's `currentTime` state starts as the string `"00:00"`, not a
  number. `Number.isFinite` is false for it, so the guard shows `00:00`.
  It is modelled as `Num.NonFinite`.
- Click-to-seek scales by the component's stored `duration`, not by the
  element's. The `timeupdate` listener divides by the element's `duration`.
- With a zero duration, `timeupdate` does not leave progress at its last
  value. It stores `0/0` or `x/0`, which is not a finite number. The model
  requires a positive duration there; see "Left out".
- Whether anything is fullscreen is read only from the unprefixed
  `document.fullscreenElement`. On a browser that offers only prefixed APIs,
  that property is absent, so the handler always takes the request branch,
  and the prefixed exit calls can run only where the unprefixed property
  exists. `Fullscreen.Env.fullscreenElement` is exactly that property.

## Model

| member | source | states |
|---|---|---|
| Decimal.Show | src/VideoPlayer.jsx:118 | hours are rendered as a plain decimal: at least one ASCII digit, no leading zero unless the value is 0, and a single digit exactly when the value is below 10 |
| Decimal.PadTwo | src/VideoPlayer.jsx:105-107 | the two-digit formatter yields exactly two ASCII digits whose value is the input |
| Decimal.ValueOfShow | src/VideoPlayer.jsx:118 | reading the unpadded rendering back gives the number rendered |
| Decimal.ShowValueOf | src/VideoPlayer.jsx:118 | every canonical digit string is the rendering of its value, so rendering is a bijection onto canonical strings |
| Decimal.ShowInjective | src/VideoPlayer.jsx:118 | distinct hour counts render differently |
| TimeFormat.DecomposeSound | src/VideoPlayer.jsx:110-112 | minutes and seconds are in 0..59 and `hours*3600 + minutes*60 + seconds` equals the whole seconds split |
| TimeFormat.DecomposeTotal | src/VideoPlayer.jsx:110-112 | the split is the only valid reading of a number of seconds: splitting the total of a valid reading gives that reading back |
| TimeFormat.SourceFieldsOfFloor | src/VideoPlayer.jsx:110-112 | for a non-negative real input, the source's fields (JavaScript truncating `%`, `Math.floor`) equal the split of its floor, so only the fraction is lost |
| TimeFormat.FormatDuration | src/VideoPlayer.jsx:108-122 | with zero hours the output is `MM:SS`, five characters with both fields zero-padded; otherwise it is unpadded hours then `:MM:SS`; it is five characters long exactly when the input is below 3600 |
| TimeFormat.FormatDurationParses | src/VideoPlayer.jsx:113-121 | every display reads back as the number of seconds it was made from |
| TimeFormat.FormatDurationInjective | src/VideoPlayer.jsx:113-121 | distinct numbers of whole seconds give distinct displays |
| TimeFormat.FormatDurationZero | src/VideoPlayer.jsx:113-116 | 0 seconds displays as `00:00` |
| TimeFormat.FormatDurationShortExample | src/VideoPlayer.jsx:113-116 | 65 seconds displays as `01:05` |
| TimeFormat.FormatDurationLongExample | src/VideoPlayer.jsx:117-120 | 3661 seconds displays as `1:01:01` |
| TimeFormat.DisplayTime | src/VideoPlayer.jsx:167-170 | a value that is not a finite number shows `00:00`; a finite value shows `formatDuration` of its whole seconds; either display reads back as the floor of a finite value, or 0 |
| TimeFormat.TimeLabel | src/VideoPlayer.jsx:166-172 | the label is the guarded current time, ` / `, and the guarded total, each side guarded on its own; it splits back at ` / ` into the whole seconds of each finite side, and into 0 for each side that is not a finite number |
| TimeFormat.InitialLabel | src/VideoPlayer.jsx:18-19 | with the initial state (duration 0, current time the string `"00:00"`) the label reads `00:00 / 00:00` |
| Player.Mount | src/VideoPlayer.jsx:17-22 | on mount the player is not playing, progress is 0, the time label reads `00:00 / 00:00`, and with a paused element (no `autoplay`) the icon agrees with the element |
| Player.RunKeepsSync | src/VideoPlayer.jsx:132-214 | agreement between `isPlaying` and the element's `paused` flag survives any sequence of the component's handlers |
| Player.MountedPlayerStaysInSync | src/VideoPlayer.jsx:152-156 | from a freshly mounted paused element, every state the handlers reach is in agreement, so toggling twice there restores the whole state |
| Player.PlayAndPause | src/VideoPlayer.jsx:28-41 | with an element, its `paused` flag flips and `isPlaying` becomes the old `paused` value, so the two agree afterwards; nothing else changes; without an element nothing changes |
| Player.PlayAndPauseTwice | src/VideoPlayer.jsx:28-41 | toggling twice restores the element always, and the whole state exactly when `isPlaying` agreed with the element before |
| Player.Seek | src/VideoPlayer.jsx:87-94 | with an element, its current time moves by exactly `delta` with no clamping and nothing else changes; without one nothing changes |
| Player.SeekCompose | src/VideoPlayer.jsx:190-214 | seeks add up, and a step forward undoes a step back |
| Player.SeekIsUnclamped | src/VideoPlayer.jsx:93 | stepping back 10 s from 5 s gives -5 s |
| Player.UpdateProgressOnClick | src/VideoPlayer.jsx:74-85 | with both elements, the new current time times the bar width equals the click offset times the stored duration; nothing else changes; with either element missing nothing changes |
| Player.ClickMapsBarOntoTimeline | src/VideoPlayer.jsx:81-84 | the left edge maps to 0, the right edge to the duration, a click inside the bar lands inside `[0, duration]`, and the mapping is monotone |
| Player.TimeUpdate | src/VideoPlayer.jsx:138-141 | the stored current time becomes the element's, and progress times the element's duration equals 100 times its current time |
| Player.ProgressWithinBounds | src/VideoPlayer.jsx:138-141 | while the current time lies within the duration, progress lies within 0..100; 30 s of 120 s is 25 |
| Player.LoadedMetadata | src/VideoPlayer.jsx:132-134 | the stored duration becomes the element's duration and nothing else changes |
| Player.ClickThenTimeUpdateFillsToClick | src/VideoPlayer.jsx:81-84 | after metadata has loaded, a click followed by the next time update fills the bar to the clicked fraction of its width |
| Player.Dispatch | src/VideoPlayer.jsx:132-214 | every wired handler keeps `isPlaying` in agreement with the element, only the toggle changes `isPlaying`, and the toggle always leaves them in agreement |
| Fullscreen.Pick | src/VideoPlayer.jsx:51-59 | the chosen spelling is present and every spelling ahead of it in the order standard, moz, webkit, ms is absent; nothing is chosen exactly when none is present |
| Fullscreen.FirstPresent | src/VideoPlayer.jsx:49-71 | the scan's answer is a present spelling from the list, and it finds nothing exactly when no listed spelling is present |
| Fullscreen.FirstPresentIsFirst | src/VideoPlayer.jsx:49-71 | every spelling ahead of the scan's answer is absent |
| Fullscreen.PickIsFirstPresent | src/VideoPlayer.jsx:49-71 | the written-out chain equals the scan of the priority list |
| Fullscreen.Fullscreen | src/VideoPlayer.jsx:43-72 | with nothing fullscreen the first present request method is invoked, otherwise the first present exit method; nothing is invoked exactly when the container is missing or no method of the needed kind is present |
| Fullscreen.SameFallbackBothWays | src/VideoPlayer.jsx:49-71 | given the same spellings, request and exit pick the same one |
| Fullscreen.NeverSkipsAPresentApi | src/VideoPlayer.jsx:49-71 | the invoked spelling never ranks below another present one |

## Left out

- Rendering: JSX layout, icons, CSS classes, the progress fill's width style, and `disableRightClick`. These are presentation.
- The volume slider and `volumeControl`. The slider's string value goes straight to state and to the element, so there is no decision to state. The slider's visibility toggle and the muted/active volume icon are presentation.
- Subscribing and unsubscribing the listeners in `useEffect`. Only the two handlers are modelled; the React lifecycle is not.
- The `console.log` in `formatDuration`, which is output only.
- Decimal.PadTwo: defined only below 100. The locale formatter it stands for also renders locale-specific digits and adds group separators from 1000 up. Minutes and seconds never reach 60, so the bound holds, and the model assumes ASCII digits.
- Decimal.Show: does not model JavaScript's switch to exponent notation for numbers of 1e21 and above.
- TimeFormat.FormatDuration: takes whole non-negative seconds. The step from a non-negative real is proved separately. Negative inputs are not modelled, because the element never reports a negative time or duration.
- TimeFormat.DisplayTime: requires a finite value to be non-negative, for the same reason.
- TimeFormat.TimeLabel: requires each finite side to be non-negative, for the same reason. Because the model leaves out the platform's clamping, a state reachable through `Player.Dispatch` can fall outside this domain: an unclamped step back followed by a time update can store a negative current time.
- Player.UpdateProgressOnClick: requires a positive bar width and a finite stored duration. A zero width or a non-finite duration yields NaN or an infinity, and IEEE floating point is not modelled.
- Player.TimeUpdate: requires a positive element duration. Dividing by a zero or NaN duration yields a non-finite progress, which is not modelled.
- Time arithmetic is over exact reals, so floating-point rounding is not modelled.
- The results of `play()` and of the fullscreen requests are asynchronous and never observed. The platform also restarts an ended video on `play()`. Neither is modelled.
- The platform's clamping of an assigned `currentTime`. It belongs to the element, not the component, so `Seek` is deliberately unclamped.
- The platform pausing the element on its own, for example when playback ends. That can leave `isPlaying` out of agreement with the element; `Player.Dispatch` states that no handler of the component does so.
