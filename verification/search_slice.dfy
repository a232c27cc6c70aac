/**
  The `search` slice of the Redux store: a log of the places the user has
  selected (`history`) and the most recent selection (`latest`).

  Redux Toolkit runs the slice's reducers through Immer, so the mutating
  statements of the source (`push`, assignment) produce a fresh state and leave
  the old one untouched. Here every reducer is a pure function `State -> State`.
 */
module SearchSlice {

  /** The payload of `addSearch`: the record built when a suggestion is chosen. */
  datatype Place = Place(description: string, lat: real, lng: real)

  /** The `latest` field. The initial state has no `latest` key at all (it reads
      as `undefined`); `clearHistory` stores `null`; `addSearch` stores the payload. */
  datatype Latest = Undefined | Null | Present(place: Place)

  datatype State = State(history: seq<Place>, latest: Latest)

  /** The two actions the slice defines, as their action creators build them. */
  datatype Action = Add(payload: Place) | Clear

  /** The slice's `initialState`: an empty log and no `latest` key. */
  const Initial: State := State([], Undefined)

  /** The `addSearch` reducer. */
  function AddSearch(s: State, p: Place): (r: State)
    ensures |r.history| == |s.history| + 1
    ensures forall i :: 0 <= i < |s.history| ==> r.history[i] == s.history[i]
    ensures r.history[|s.history|] == p
    ensures r.latest == Present(p)
  {
    State(s.history + [p], Present(p))
  }

  /** The `clearHistory` reducer. */
  function ClearHistory(s: State): (r: State)
    ensures r.history == [] && r.latest == Null
  {
    State([], Null)
  }

  /** The slice reducer: routes an action to its case reducer. Whatever the
      action, the result satisfies the invariant. */
  function Reduce(s: State, a: Action): (r: State)
    ensures Inv(r)
    ensures a.Add? ==> |r.history| == |s.history| + 1 && r.history[..|s.history|] == s.history
    ensures a.Add? ==> r.history[|s.history|] == a.payload && r.latest == Present(a.payload)
    ensures a.Clear? ==> r.history == [] && r.latest == Null
  {
    match a
    case Add(p) => AddSearch(s, p)
    case Clear => ClearHistory(s)
  }

  /** Dispatches the actions one after another, first action first. */
  function Run(s: State, acts: seq<Action>): State
    decreases |acts|
  {
    if acts == [] then s else Run(Reduce(s, acts[0]), acts[1..])
  }

  /** The state invariant the screen relies on: a `latest` place is present
      exactly when the log is non-empty, and then it is the last entry. */
  ghost predicate Inv(s: State)
  {
    && (s.latest.Present? <==> |s.history| > 0)
    && (s.latest.Present? ==> s.latest.place == s.history[|s.history| - 1])
  }

  ghost predicate Reachable(s: State)
  {
    exists acts :: Run(Initial, acts) == s
  }

  /** Reference definition of the log: the payloads of the `addSearch` actions
      after the last `clearHistory` (or from the start), in dispatch order. */
  function SinceLastClear(acts: seq<Action>): seq<Place>
    decreases |acts|
  {
    if acts == [] then []
    else
      match acts[|acts| - 1]
      case Clear => []
      case Add(p) => SinceLastClear(acts[..|acts| - 1]) + [p]
  }

  /** One `addSearch` per entry of `h`, in order. */
  function AddsOf(h: seq<Place>): (acts: seq<Action>)
    ensures |acts| == |h|
    ensures forall i :: 0 <= i < |h| ==> acts[i] == Add(h[i])
  {
    seq(|h|, i requires 0 <= i < |h| => Add(h[i]))
  }

  /** A sequence of actions that leads from the initial state to `s`. */
  function ActionsReaching(s: State): seq<Action>
  {
    match s.latest
    case Undefined => []
    case Null => [Clear]
    case Present(_) => AddsOf(s.history)
  }

  // ---------------------------------------------------------------------------
  // Properties of the single reducers
  // ---------------------------------------------------------------------------

  /** The initial state satisfies the invariant and has no `latest` key. */
  lemma InitialIsEmpty()
    ensures Inv(Initial)
    ensures Initial.history == [] && Initial.latest == Undefined
  {
  }

  /** `addSearch` establishes the invariant from any state: the new payload is
      both the last entry and `latest`. */
  lemma AddSearchEstablishesInv(s: State, p: Place)
    ensures Inv(AddSearch(s, p))
    ensures AddSearch(s, p).history[..|s.history|] == s.history
  {
  }

  /** `addSearch` does not deduplicate: the same payload twice gives two
      equal entries at the end of the log. */
  lemma AddSearchKeepsDuplicates(s: State, p: Place)
    ensures AddSearch(AddSearch(s, p), p).history == s.history + [p, p]
  {
    assert AddSearch(AddSearch(s, p), p).history == (s.history + [p]) + [p];
  }

  /** `clearHistory` empties the log and nulls `latest` from any state, and so
      establishes the invariant; a second clear changes nothing. */
  lemma ClearHistoryResets(s: State)
    ensures ClearHistory(s).history == [] && ClearHistory(s).latest == Null
    ensures Inv(ClearHistory(s))
    ensures ClearHistory(ClearHistory(s)) == ClearHistory(s)
  {
  }

  /** Clearing the initial state is not the initial state: `latest` turns from
      `undefined` into `null`. The two differ only there. */
  lemma ClearOfInitial()
    ensures ClearHistory(Initial) != Initial
    ensures ClearHistory(Initial).history == Initial.history
  {
  }

  // ---------------------------------------------------------------------------
  // Properties of action sequences
  // ---------------------------------------------------------------------------

  /** Dispatching one more action after a sequence. */
  lemma {:induction false} RunSnoc(s: State, acts: seq<Action>, a: Action)
    ensures Run(s, acts + [a]) == Reduce(Run(s, acts), a)
    decreases |acts|
  {
    if acts == [] {
      assert acts + [a] == [a];
      assert [a][1..] == [];
    } else {
      assert (acts + [a])[0] == acts[0];
      assert (acts + [a])[1..] == acts[1..] + [a];
      RunSnoc(Reduce(s, acts[0]), acts[1..], a);
    }
  }

  /** Every action establishes the invariant and none breaks it, so it holds
      after any sequence of actions from any state satisfying it. */
  lemma {:induction false} RunPreservesInv(s: State, acts: seq<Action>)
    requires Inv(s)
    ensures Inv(Run(s, acts))
    decreases |acts|
  {
    if acts != [] {
      var s' := Reduce(s, acts[0]);
      match acts[0] {
        case Add(p) => AddSearchEstablishesInv(s, p);
        case Clear => ClearHistoryResets(s);
      }
      RunPreservesInv(s', acts[1..]);
    }
  }

  /** After any sequence of actions from the initial state, the log is exactly
      the payloads added since the last clear, in order; `latest` is the last of
      them, or `null` if the log is empty after a clear, or still `undefined` if
      nothing has been dispatched that sets it. */
  lemma {:induction false} RunFromInitial(acts: seq<Action>)
    ensures Run(Initial, acts).history == SinceLastClear(acts)
    ensures var h := SinceLastClear(acts);
            Run(Initial, acts).latest ==
              if |h| > 0 then Present(h[|h| - 1])
              else if Clear in acts then Null
              else Undefined
    decreases |acts|
  {
    if acts != [] {
      var prefix, last := acts[..|acts| - 1], acts[|acts| - 1];
      assert acts == prefix + [last];
      RunSnoc(Initial, prefix, last);
      RunFromInitial(prefix);
      assert Clear in acts <==> Clear in prefix || last == Clear;
    }
  }

  /** The reference log of a run of `addSearch` actions is their payloads. */
  lemma {:induction false} SinceLastClearOfAdds(h: seq<Place>)
    ensures SinceLastClear(AddsOf(h)) == h
    decreases |h|
  {
    if h != [] {
      var acts := AddsOf(h);
      assert acts[..|acts| - 1] == AddsOf(h[..|h| - 1]);
      SinceLastClearOfAdds(h[..|h| - 1]);
      assert h == h[..|h| - 1] + [h[|h| - 1]];
    }
  }

  /** Every state satisfying the invariant is reached by `ActionsReaching`. */
  lemma ActionsReachingReaches(s: State)
    requires Inv(s)
    ensures Run(Initial, ActionsReaching(s)) == s
  {
    match s.latest
    case Undefined =>
    case Null =>
      assert Run(Initial, [Clear]) == Run(ClearHistory(Initial), []);
    case Present(_) =>
      RunFromInitial(AddsOf(s.history));
      SinceLastClearOfAdds(s.history);
  }

  /** The invariant characterises exactly the states reachable from the
      initial state. */
  lemma ReachableIffInv(s: State)
    ensures Reachable(s) <==> Inv(s)
  {
    if Reachable(s) {
      var acts :| Run(Initial, acts) == s;
      InitialIsEmpty();
      RunPreservesInv(Initial, acts);
    }
    if Inv(s) {
      ActionsReachingReaches(s);
    }
  }
}
