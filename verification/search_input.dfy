/**
  The part of the search box that writes to the store: choosing a suggestion
  fetches the place's details and dispatches `addSearch` with a payload built
  from the suggestion's description and the returned coordinates.

  The HTTP request is not modelled; its outcome is a parameter (`DetailReply`).
 */
module SearchInput {
  import opened Wrappers
  import opened SearchSlice

  /** An autocomplete suggestion, as listed under the search box. */
  datatype Prediction = Prediction(placeId: string, description: string)

  /** The shape of the details response that the handler reads:
      `result.geometry.location.{lat, lng}`; any link may be missing. */
  datatype Location = Location(lat: real, lng: real)
  datatype Geometry = Geometry(location: Option<Location>)
  datatype DetailResult = DetailResult(geometry: Option<Geometry>)

  /** What the details request yields: a transport failure, a body that is not
      JSON, or the decoded body with an optional `result`. */
  datatype DetailReply = NetworkError | MalformedJson | Json(result: Option<DetailResult>)

  /** The handler's effect: the store after the call, and whether the failure
      branch logged an error. */
  datatype Selection = Selection(store: State, errorLogged: bool)

  /** Follows `detailData.result.geometry.location`; `None` wherever the source
      throws before dispatching: a failed fetch, a failed `json()`, a missing
      `result` or `geometry` (reading through it), or a missing `location`
      (reading its `lat` while building the payload). */
  function LocationOf(reply: DetailReply): (r: Option<Location>)
    ensures r.Some? <==>
      && reply.Json?
      && reply.result.Some?
      && reply.result.value.geometry.Some?
      && reply.result.value.geometry.value.location.Some?
    ensures r.Some? ==> r.value == reply.result.value.geometry.value.location.value
  {
    match reply
    case NetworkError => None
    case MalformedJson => None
    case Json(result) =>
      match result
      case None => None
      case Some(res) =>
        match res.geometry
        case None => None
        case Some(g) => g.location
  }

  /** `handleSelect`: on a usable reply the payload (the suggestion's text and
      the resolved coordinates) is dispatched; otherwise the error is caught
      and logged and the store is left as it was. */
  function HandleSelect(s: State, c: Prediction, reply: DetailReply): (r: Selection)
    ensures r.errorLogged <==> LocationOf(reply).None?
    ensures r.errorLogged ==> r.store == s
    ensures !r.errorLogged ==>
      && |r.store.history| == |s.history| + 1
      && r.store.history[..|s.history|] == s.history
      && r.store.history[|s.history|].description == c.description
      && r.store.latest == Present(r.store.history[|s.history|])
      && r.store.latest.place.lat == LocationOf(reply).value.lat
      && r.store.latest.place.lng == LocationOf(reply).value.lng
  {
    match LocationOf(reply)
    case None => Selection(s, true)
    case Some(loc) => Selection(AddSearch(s, Place(c.description, loc.lat, loc.lng)), false)
  }

  /** Selecting a suggestion keeps the store invariant whatever the reply. */
  lemma HandleSelectPreservesInv(s: State, c: Prediction, reply: DetailReply)
    requires Inv(s)
    ensures Inv(HandleSelect(s, c, reply).store)
  {
    match LocationOf(reply)
    case None =>
    case Some(loc) => AddSearchEstablishesInv(s, Place(c.description, loc.lat, loc.lng));
  }

  /** Every failure mode leaves the store untouched: no partial entry. */
  lemma FailedSelectChangesNothing(s: State, c: Prediction, reply: DetailReply)
    requires reply.NetworkError? || reply.MalformedJson? || (reply.Json? && reply.result.None?)
    ensures HandleSelect(s, c, reply) == Selection(s, true)
  {
  }

  /** Selecting "Kuala Lumpur, Malaysia" whose details resolve to
      (3.139, 101.6869) on an empty store logs that one place and makes it
      `latest`. */
  lemma KualaLumpurSelection()
    ensures
      var c := Prediction("abc", "Kuala Lumpur, Malaysia");
      var reply := Json(Some(DetailResult(Some(Geometry(Some(Location(3.139, 101.6869)))))));
      var kl := Place("Kuala Lumpur, Malaysia", 3.139, 101.6869);
      HandleSelect(Initial, c, reply) == Selection(State([kl], Present(kl)), false)
  {
  }

  /** The store a reply is handled against is the store when the reply
      arrives. A reply that arrives after the history was cleared puts its
      place into the emptied log. */
  lemma LateReplyRefillsClearedLog(s: State, c: Prediction, reply: DetailReply)
    requires LocationOf(reply).Some?
    ensures var loc := LocationOf(reply).value;
      HandleSelect(ClearHistory(s), c, reply).store ==
        State([Place(c.description, loc.lat, loc.lng)], Present(Place(c.description, loc.lat, loc.lng)))
  {
  }

  /** Two overlapping selections are logged in the order their replies are
      handled, whatever order they were tapped in. */
  lemma RepliesLoggedInArrivalOrder(s: State, first: Prediction, r1: DetailReply, second: Prediction, r2: DetailReply)
    requires LocationOf(r1).Some? && LocationOf(r2).Some?
    ensures var l1, l2 := LocationOf(r1).value, LocationOf(r2).value;
      HandleSelect(HandleSelect(s, first, r1).store, second, r2).store.history ==
        s.history + [Place(first.description, l1.lat, l1.lng), Place(second.description, l2.lat, l2.lng)]
  {
    var l1, l2 := LocationOf(r1).value, LocationOf(r2).value;
    assert HandleSelect(HandleSelect(s, first, r1).store, second, r2).store.history ==
      (s.history + [Place(first.description, l1.lat, l1.lng)]) + [Place(second.description, l2.lat, l2.lng)];
  }
}
