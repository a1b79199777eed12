/** The knowledge-map endpoint: it checks that a user is signed in and that
    the date pair makes sense before asking the service for the map. */
module KnowledgeMapController {
  import opened Wrappers
  import opened Entities
  import opened KnowledgeMapService
  import opened JwtAuthFilter

  /** An HTTP response: its status and, for 200, its body. */
  datatype Response = Response(status: int, body: Option<KnowledgeMapResponse>)

  /** A pair of dates that is not usable: only one of them given, or the end
      before the start. */
  predicate BadRange(startDate: Option<Day>, endDate: Option<Day>) {
    startDate.None? != endDate.None?
    || (startDate.Some? && endDate.Some? && endDate.value < startDate.value)
  }

  /** `getKnowledgeMap` over the stored entries `store`: 401 without a user,
      400 for a bad date pair, otherwise 200 with what the service returns for
      the user and the same dates. The service is consulted only in that
      last case. */
  function GetKnowledgeMap(store: seq<StudyEntry>, user: Option<AuthenticatedUser>, startDate: Option<Day>, endDate: Option<Day>)
    : (r: Response)
    ensures r.status == 200 || r.status == 400 || r.status == 401
    ensures r.body.Some? <==> r.status == 200
    ensures r.status == 401 <==> user.None?
    ensures r.status == 400 <==> user.Some? && BadRange(startDate, endDate)
    ensures r.status == 200 ==> r.body.value == KnowledgeMap(store, user.value.userId, startDate, endDate)
  {
    if user.None? then
      Response(401, None)
    else if startDate.None? != endDate.None? then
      Response(400, None)
    else if startDate.Some? && endDate.Some? && endDate.value < startDate.value then
      Response(400, None)
    else
      Response(200, Some(KnowledgeMap(store, user.value.userId, startDate, endDate)))
  }

  /** A range of one day is accepted and echoed back in the response. */
  lemma SingleDayAccepted(store: seq<StudyEntry>, user: AuthenticatedUser, day: Day)
    ensures GetKnowledgeMap(store, Some(user), Some(day), Some(day)).status == 200
    ensures GetKnowledgeMap(store, Some(user), Some(day), Some(day)).body.value.dateRange == Some(DateRange(day, day))
  {
  }

  /** Without dates the map covers all of the user's entries and carries no
      range. */
  lemma NoDatesMeansAllTime(store: seq<StudyEntry>, user: AuthenticatedUser)
    ensures var r := GetKnowledgeMap(store, Some(user), None, None);
      && r.status == 200
      && r.body.value.dateRange == None
      && (forall e :: e in EntriesFor(store, user.userId, None, None) <==> e in store && e.user == Some(user.userId))
  {
  }
}
