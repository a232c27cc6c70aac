# Search history of the map app, in Dafny

The app keeps a Redux slice named `search` holding `history`, the ordered log
of places the user has picked from the search box, and `latest`, the most
recent pick. Two reducers change it: `addSearch` appends the payload and makes
it `latest`; `clearHistory` empties the log and sets `latest` to `null`.
Redux Toolkit applies the reducers through Immer, so they are modelled as pure
functions from state to state (`SearchSlice`).

Around the slice the model also covers the one place that dispatches
`addSearch`, the suggestion handler of the search box (`SearchInput`), with the
details request's outcome as a parameter, and two of the parts of the main
screen that read the slice, the marker and the history list (`MainScreen`).

`latest` has three values, not two. The initial state has no `latest` key
(JavaScript `undefined`), `clearHistory` stores `null`, and `addSearch` stores a
place. The screen treats the first two alike, but they are different states:
clearing the initial state does not give the initial state back
(`SearchSlice.ClearOfInitial`). Treating `undefined` and `null` as one "none"
value would lose this difference.

The central results are that `latest` is present exactly when the log is
non-empty, and then equals its last entry; that this invariant characterises
precisely the states reachable from the initial state; and that after any
sequence of actions the log equals the payloads added since the last clear.

Files: `wrappers.dfy` (an `Option` type), `search_slice.dfy`,
`search_input.dfy`, `main_screen.dfy`.

## Model

| member | source | states |
|---|---|---|
| SearchSlice.InitialIsEmpty | src/redux/searchSlice.js:3-5 | the initial log is empty and `latest` is absent (undefined), not a place; the initial state satisfies the invariant |
| SearchSlice.AddSearch | src/redux/searchSlice.js:11-14 | the log grows by exactly one, every earlier entry is unchanged and in place, the new last entry is the payload, and `latest` is the payload |
| SearchSlice.AddSearchEstablishesInv | src/redux/searchSlice.js:11-14 | from any state, `addSearch` leaves `latest` present and equal to the last entry, and the old log as a prefix |
| SearchSlice.AddSearchKeepsDuplicates | src/redux/searchSlice.js:12 | adding the same payload twice appends two equal entries: the log is not deduplicated |
| SearchSlice.ClearHistory | src/redux/searchSlice.js:15-18 | from any state the log becomes empty and `latest` becomes null |
| SearchSlice.Reduce | src/redux/searchSlice.js:7-20 | the slice reducer routes `addSearch` to an append that keeps the old log as a prefix and makes the payload `latest`, and `clearHistory` to an empty log with null `latest`; either way the result satisfies the invariant |
| SearchSlice.ClearHistoryResets | src/redux/searchSlice.js:15-18 | from any state the log becomes empty and `latest` null, which satisfies the invariant; clearing twice equals clearing once |
| SearchSlice.ClearOfInitial | src/redux/searchSlice.js:3-18 | clearing the initial state changes `latest` from undefined to null and nothing else, so it is not the initial state |
| SearchSlice.RunPreservesInv | src/redux/searchSlice.js:3-18 | from a state satisfying the invariant, every sequence of dispatched actions ends in a state satisfying it |
| SearchSlice.RunFromInitial | src/redux/searchSlice.js:3-18 | after any sequence of actions from the initial state, the log is the payloads of the `addSearch` actions since the last `clearHistory`, in order, and `latest` is the last of them, else null if a clear happened, else undefined |
| SearchSlice.ActionsReachingReaches | src/redux/searchSlice.js:3-18 | every state satisfying the invariant is reached from the initial state by an explicit action sequence |
| SearchSlice.ReachableIffInv | src/redux/searchSlice.js:3-18 | a state is reachable from the initial state exactly when it satisfies the invariant |
| SearchInput.LocationOf | src/components/SearchInput.js:36-45 | a location is obtained exactly when the fetch and JSON decoding succeed and `result`, `geometry` and `location` are all present, and it is then the reply's `result.geometry.location` |
| SearchInput.HandleSelect | src/components/SearchInput.js:34-55 | an error is logged exactly when no location is obtained, and then the store is unchanged; otherwise one entry carrying the suggestion's description and the resolved latitude and longitude (the payload of lines 43-47) is appended and becomes `latest` |
| SearchInput.HandleSelectPreservesInv | src/components/SearchInput.js:34-55 | choosing a suggestion keeps the store invariant whatever the details reply |
| SearchInput.FailedSelectChangesNothing | src/components/SearchInput.js:35-54 | a network failure, a malformed body or a missing `result` leaves the store exactly as it was and logs an error |
| SearchInput.LateReplyRefillsClearedLog | src/components/SearchInput.js:34-48 | a details reply handled after the history was cleared leaves a one-entry log holding that place, which is `latest` |
| SearchInput.RepliesLoggedInArrivalOrder | src/components/SearchInput.js:34-48 | two selections whose replies are both usable are appended in the order their replies are handled |
| SearchInput.KualaLumpurSelection | src/components/SearchInput.js:42-48 | choosing "Kuala Lumpur, Malaysia" resolving to (3.139, 101.6869) on an empty store gives a one-entry log with that place as `latest` |
| MainScreen.MarkerOf | src/screens/MainScreen.js:107-112 | a marker is rendered exactly when `latest` is a place (not undefined or null), at that place's coordinates and titled with its description |
| MainScreen.HistoryRows | src/screens/MainScreen.js:129-138 | the history list shows one row per log entry, the entry's description, in log order, and nothing when the log is empty |
| MainScreen.ClearButtonShown | src/screens/MainScreen.js:129-143 | the clear button is shown exactly when the history list has rows |
| MainScreen.HandleClear | src/screens/MainScreen.js:74-79 | pressing the clear button leaves an empty log and a null `latest` |
| MainScreen.ScreenConsistent | src/screens/MainScreen.js:107-143 | in every reachable state the marker is drawn exactly when the history list and clear button are, and it marks the last entry of the list |
| MainScreen.HandleClearHidesAll | src/screens/MainScreen.js:74-79 | after the clear button is pressed no marker, no history rows and no clear button are shown |

## Left out

- Manual zoom (`handleZoom`, src/screens/MainScreen.js:24-58): floating-point span arithmetic, a promise from the map widget's `getCamera`, and a branch on the host platform; nothing of it touches the slice.
- Recentering on a new `latest` and the map-ready animation (src/screens/MainScreen.js:60-72, 97-105): side-effecting calls into the map widget.
- The autocomplete request and its three-character gate (`handleSearch`, src/components/SearchInput.js:19-32): network I/O; out-of-order responses are an artefact of the asynchronous handlers.
- The search box's own text and suggestion list (`setInput`, `setResults`, `clearInput`, src/components/SearchInput.js:50-51, 57-62): local component state that the slice never sees.
- SearchInput.HandleSelect: `s` is the store at the moment the details reply is handled, not when the suggestion was tapped. The handler awaits `fetch` and `json()` (src/components/SearchInput.js:36-39) before it dispatches, and `handleClear` or another selection can dispatch in that gap. So a reply that arrives after the history is cleared puts its place into the emptied log (`SearchInput.LateReplyRefillsClearedLog`), and overlapping selections are logged in reply order, not tap order (`SearchInput.RepliesLoggedInArrivalOrder`). The interleaving itself is not modelled.
- The details request itself: its outcome is the `DetailReply` parameter. A response whose `location` lacks `lat` or `lng` (which the source would store as `undefined`) is not modelled; coordinates are always numbers here, as `real` since they are only copied.
- Actions of any other type: the slice reducer returns the state unchanged for them. Redux's own init action reaches the reducer with an `undefined` state and gets `initialState` back, which is why every run in the model starts at `Initial`.
- `App.js`, the store wiring and the style sheets: bootstrap and styling.
