/**
  What the main screen renders from the store: a marker for `latest` and, when
  the log is non-empty, the history list with its clear button.
 */
module MainScreen {
  import opened Wrappers
  import opened SearchSlice

  datatype Marker = Marker(latitude: real, longitude: real, title: string)

  /** JavaScript truthiness of `latest`: `undefined` and `null` are falsy, a
      payload object is truthy. */
  predicate Truthy(l: Latest)
  {
    l.Present?
  }

  /** The marker rendered by `{latest && <Marker .../>}`. */
  function MarkerOf(s: State): (m: Option<Marker>)
    ensures m.Some? <==> s.latest.Present?
    ensures m.Some? ==> m.value.title == s.latest.place.description
    ensures m.Some? ==> m.value.latitude == s.latest.place.lat && m.value.longitude == s.latest.place.lng
  {
    if Truthy(s.latest) then
      Some(Marker(s.latest.place.lat, s.latest.place.lng, s.latest.place.description))
    else None
  }

  /** The rows of the history list, rendered only when `history.length > 0`;
      the clear button sits in the same conditional block. */
  function HistoryRows(s: State): (rows: seq<string>)
    ensures |rows| == |s.history|
    ensures forall i :: 0 <= i < |rows| ==> rows[i] == s.history[i].description
  {
    seq(|s.history|, i requires 0 <= i < |s.history| => s.history[i].description)
  }

  /** The clear button is rendered in the same block as the history list. */
  function ClearButtonShown(s: State): (shown: bool)
    ensures shown <==> HistoryRows(s) != []
  {
    |s.history| > 0
  }

  /** `handleClear`: dispatches `clearHistory` (the search box reset is UI state). */
  function HandleClear(s: State): (r: State)
    ensures r.history == [] && r.latest == Null
  {
    ClearHistory(s)
  }

  /** In every reachable state the two conditional parts of the screen agree:
      a marker is drawn exactly when the history list is, and it marks the last
      place in the list. */
  lemma ScreenConsistent(acts: seq<Action>)
    ensures var s := Run(Initial, acts);
      && (MarkerOf(s).Some? <==> |HistoryRows(s)| > 0)
      && (MarkerOf(s).Some? <==> ClearButtonShown(s))
      && (MarkerOf(s).Some? ==>
            && MarkerOf(s).value.title == HistoryRows(s)[|HistoryRows(s)| - 1]
            && MarkerOf(s).value.latitude == s.history[|s.history| - 1].lat
            && MarkerOf(s).value.longitude == s.history[|s.history| - 1].lng)
  {
    InitialIsEmpty();
    RunPreservesInv(Initial, acts);
  }

  /** After the clear button is pressed neither the marker nor the list (nor
      the button itself) is shown, whatever was shown before. */
  lemma HandleClearHidesAll(s: State)
    ensures MarkerOf(HandleClear(s)) == None
    ensures HistoryRows(HandleClear(s)) == []
    ensures !ClearButtonShown(HandleClear(s))
  {
  }
}
