# Media accent colour registry of `SysuiColorExtractor`

SystemUI's `SysuiColorExtractor` holds, next to its wallpaper colours, a
"media background colour": a single Java `int` that the media player sets and
UI components read. Interested components register a
`MediaAccentColorListener` and receive `onMediaAccentColorUpdated(color)`
each time the colour is set, unless a listener earlier in the list throws.

This project models that part of the class as a small sequential state
machine, `Extractor(mediaColor, listeners)`, with four pure transitions:

- `SetMediaBackgroundColor`: stores the colour, then calls the registered
  listeners in list order, up to and including the first whose callback
  throws. It returns the new state and the deliveries made.
- `GetMediaBackgroundColor`: reads the stored colour.
- `AddListener`: appends a handle. A handle that is already registered is
  rejected, and the rejection is only logged.
- `RemoveListener`: deletes a handle. A handle that is not registered is
  rejected, and the rejection is only logged.

Listeners are opaque handles (`ListenerId`). A callback is reduced to its
outcome for the call (`Returns` or `Throws`), given as a function from
handle to outcome. On a duplicate-free list, which every reachable state is
(`Traces.RunValid`), a listener is called at most once per set, so one
outcome per handle is enough.

The model follows the code where it differs from the class's own comment
(lines 162-163), which promises iteration over a copy:

- The copy of the list made at line 164 is never used. The loop at line 166
  walks the live list, so `Notify` iterates `e.listeners` itself.
- The `try` at lines 165-171 wraps the whole loop. The first listener that
  throws is the last one called. The exception is swallowed and the caller
  never sees it. A failing listener therefore does stop delivery to the
  listeners after it.

Files:

- `listener_list.dfy` (module `ListenerList`): sequence operations behind
  `ArrayList`. These are duplicate-freedom, first-occurrence index,
  `remove(Object)` as `RemoveFirst`, and a filter `Without` used as the
  reference definition of deletion.
- `color_extractor.dfy` (module `SysuiColorExtractor`): the state, the initial
  state, the four operations and `Notify`.
- `delivery.dfy` (module `Deliveries`): independent descriptions of what a set
  delivers, and the lemmas linking them to `Notify`.
- `traces.dfy` (module `Traces`): runs of calls and the properties that
  hold across every run.

## Model

| member | source | states |
|---|---|---|
| SysuiColorExtractor.Init | packages/SystemUI/src/com/android/systemui/colorextraction/SysuiColorExtractor.java:54-89 | A fresh extractor has colour 0 (field initialiser, line 54), an empty listener list (line 89), and satisfies the no-duplicates invariant |
| Traces.InitialColor | packages/SystemUI/src/com/android/systemui/colorextraction/SysuiColorExtractor.java:54 | Starting from a fresh extractor, any run with no set call reports colour 0 |
| SysuiColorExtractor.SetMediaBackgroundColor | packages/SystemUI/src/com/android/systemui/colorextraction/SysuiColorExtractor.java:160-172 | Whatever each callback returns or throws, the new colour is stored and the listener list is unchanged; listeners are called in list order, each with the new colour, up to and including the first that throws, and every one called before the last returned |
| SysuiColorExtractor.Notify | packages/SystemUI/src/com/android/systemui/colorextraction/SysuiColorExtractor.java:165-171 | Deliveries go in list order; every listener called before the last one returned; if delivery stopped early, the last listener called threw |
| SysuiColorExtractor.AddListener | packages/SystemUI/src/com/android/systemui/colorextraction/SysuiColorExtractor.java:188-194 | Colour unchanged; afterwards the handle is registered and the members are the old ones plus it; a duplicate add changes nothing; a new handle goes at the end; no duplicates is preserved |
| SysuiColorExtractor.RemoveListener | packages/SystemUI/src/com/android/systemui/colorextraction/SysuiColorExtractor.java:201-207 | Colour unchanged; removing an absent handle changes nothing; removing a present one shortens the list by one and keeps every other member; on a duplicate-free list the handle is gone and the rest keep their relative order |
| ListenerList.IndexOf | packages/SystemUI/src/com/android/systemui/colorextraction/SysuiColorExtractor.java:206 | The index found holds the handle and no earlier position does, so `remove(Object)` deletes the first occurrence |
| ListenerList.RemoveFirst | packages/SystemUI/src/com/android/systemui/colorextraction/SysuiColorExtractor.java:206 | `remove(Object)` leaves a list without the handle unchanged, and otherwise splices out exactly its first occurrence |
| ListenerList.RemoveFirstIsWithout | packages/SystemUI/src/com/android/systemui/colorextraction/SysuiColorExtractor.java:201-207 | On a duplicate-free list, removal equals the order-preserving filter of the handle |
| ListenerList.RemoveFirstKeepsOthers | packages/SystemUI/src/com/android/systemui/colorextraction/SysuiColorExtractor.java:206 | Removal neither adds nor loses any handle other than the one removed |
| ListenerList.RemoveFirstNoDup | packages/SystemUI/src/com/android/systemui/colorextraction/SysuiColorExtractor.java:206 | On a duplicate-free list, removal deletes every occurrence and keeps the list duplicate-free |
| ListenerList.RemoveFirstAppended | packages/SystemUI/src/com/android/systemui/colorextraction/SysuiColorExtractor.java:193-206 | Appending an absent handle and removing it again gives back the original list |
| ListenerList.WithoutMembership | packages/SystemUI/src/com/android/systemui/colorextraction/SysuiColorExtractor.java:201-207 | The filtered list holds exactly the handles of the original other than the removed one |
| ListenerList.WithoutNoDup | packages/SystemUI/src/com/android/systemui/colorextraction/SysuiColorExtractor.java:201-207 | Filtering a duplicate-free list keeps it duplicate-free |
| ListenerList.WithoutAbsent | packages/SystemUI/src/com/android/systemui/colorextraction/SysuiColorExtractor.java:202-204 | Filtering out a handle that is not in the list leaves the list unchanged |
| Deliveries.Broadcast | packages/SystemUI/src/com/android/systemui/colorextraction/SysuiColorExtractor.java:166-168 | Reference delivery with no failures: one delivery per listener, at the same position, with the set colour |
| Deliveries.FirstThrow | packages/SystemUI/src/com/android/systemui/colorextraction/SysuiColorExtractor.java:165-171 | The position found is the first listener whose callback throws (or the list length): all before it return |
| Deliveries.NotifyIsTruncatedBroadcast | packages/SystemUI/src/com/android/systemui/colorextraction/SysuiColorExtractor.java:165-171 | Notification is exactly the broadcast to the listeners up to and including the first that throws, and to nobody after it |
| Deliveries.NotifyAllReturn | packages/SystemUI/src/com/android/systemui/colorextraction/SysuiColorExtractor.java:166-168 | If no callback throws, every registered listener receives the colour, in list order |
| Deliveries.NotifyStopsAtThrow | packages/SystemUI/src/com/android/systemui/colorextraction/SysuiColorExtractor.java:165-171 | If the k-th listener is the first to throw, the deliveries are exactly those to listeners 0..k, the failing call included |
| Deliveries.NotifyReaches | packages/SystemUI/src/com/android/systemui/colorextraction/SysuiColorExtractor.java:165-171 | The listener at a position is called if and only if every listener before it returned |
| Deliveries.DeliveredExactlyOnce | packages/SystemUI/src/com/android/systemui/colorextraction/SysuiColorExtractor.java:166-168 | On a duplicate-free list with no failing callback, each registered handle gets exactly one delivery and any other handle gets none |
| Traces.RunSnoc | packages/SystemUI/src/com/android/systemui/colorextraction/SysuiColorExtractor.java:160-207 | Running one more call after a run is one more step |
| Traces.StepValid | packages/SystemUI/src/com/android/systemui/colorextraction/SysuiColorExtractor.java:160-207 | Every public call keeps the listener list duplicate-free |
| Traces.RunValid | packages/SystemUI/src/com/android/systemui/colorextraction/SysuiColorExtractor.java:188-207 | Every run of calls from a duplicate-free state, in particular from a fresh extractor, keeps the list duplicate-free |
| Traces.RunColor | packages/SystemUI/src/com/android/systemui/colorextraction/SysuiColorExtractor.java:160-181 | After any run, the getter returns the colour of the last set call, or the starting colour if there was none; adds and removes never change it |
| Traces.GetReturnsLastSet | packages/SystemUI/src/com/android/systemui/colorextraction/SysuiColorExtractor.java:179-181 | `getMediaBackgroundColor` returns the value passed to the most recent set call, whatever calls came before it and whatever calls without a set came after it |
| Traces.LastSetWins | packages/SystemUI/src/com/android/systemui/colorextraction/SysuiColorExtractor.java:179-207 | Add, remove and get calls after a trace leave its last colour set unchanged |
| Traces.NoSetKeepsColor | packages/SystemUI/src/com/android/systemui/colorextraction/SysuiColorExtractor.java:179-207 | With no set call in a run, the last colour set is the starting colour |
| Traces.RunMembership | packages/SystemUI/src/com/android/systemui/colorextraction/SysuiColorExtractor.java:188-207 | After any run from a duplicate-free state (in particular from `Init()`), a handle is registered exactly when the last add or remove naming it was an add, or, if there was none, when it was registered at the start |
| Traces.SetThenGet | packages/SystemUI/src/com/android/systemui/colorextraction/SysuiColorExtractor.java:160-181 | The getter returns the colour just set, whatever each callback returns or throws |
| Traces.AddThenRemove | packages/SystemUI/src/com/android/systemui/colorextraction/SysuiColorExtractor.java:188-207 | Adding an unregistered handle and then removing it restores the original state |
| Traces.AddIdempotent | packages/SystemUI/src/com/android/systemui/colorextraction/SysuiColorExtractor.java:188-194 | A second add of the same handle changes nothing |
| Traces.RemoveIdempotent | packages/SystemUI/src/com/android/systemui/colorextraction/SysuiColorExtractor.java:201-207 | On a duplicate-free list, a second remove of the same handle changes nothing |
| Traces.TwoListenerScenario | packages/SystemUI/src/com/android/systemui/colorextraction/SysuiColorExtractor.java:160-194 | Register A, B and A again, then set 0xFF0000. A and B each receive it once, in that order, and the getter returns it |

## Left out

- Wallpaper colour handling (`extractWallpaperColors`, `onColorsChanged`, `onUiModeChanged`, `getNeutralColors`, lines 100-137). It delegates to the platform `ColorExtractor` base class and `Tonal`, which are not part of this model.
- Constructors, dependency injection, and the configuration, dump and wallpaper-manager registrations (lines 58-97). This is platform plumbing. Only the initial values of the two modelled fields (lines 54 and 89) are kept.
- `dump` and the `Log.e` calls (lines 139-153, 170, 190, 203). These are I/O. Each logged rejection is modelled as "no state change".
- SysuiColorExtractor.SetMediaBackgroundColor: callbacks are assumed not to call back into set, add or remove. A callback that does would change the state: a nested set at lines 166-167 runs line 161 again and overwrites the stored colour, and a listener that removes itself changes the list. Its contract, and `Traces.Step`, therefore hold for what each callback returns or throws, not for arbitrary callback side effects.
- Re-entrant mutation of the list from inside a callback. In Java, the live-list iteration would then stop early or throw `ConcurrentModificationException`. The `catch` would swallow that exception. Such a callback can be modelled as one whose outcome is `Throws`. The model has no snapshot and no re-entrancy.
- Throwables that are not `Exception`s (`Error`s). The `catch` at line 169 does not catch them, so they would reach the caller of `setMediaBackgroundColor`. `Outcome` only covers returning and throwing an `Exception`.
- Thread safety. The class has none, and the model is sequential.
- Listener equality. `contains` and `remove` use `equals`. The model uses handle equality, which matches the default identity `equals` of listener objects.
- `getThemeAccentColor` in core/java/com/android/internal/util/custom/Utils.java (lines 62-66). It is a one-line wrapper over Android theme attribute resolution.
