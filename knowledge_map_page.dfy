/** The Knowledge Map page's state and the handlers that change it: loading a
    snapshot for the selected scope, applying and clearing a date range, and
    resetting the table controls. The server's answer to a request is a
    parameter. */
module KnowledgeMapPage {
  import opened Wrappers
  import opened Sorting
  import opened KnowledgeMapView

  /** Which data the page shows: all time, this week, or a date range. */
  datatype Mode = AllTime | ThisWeek | DateRange

  /** The request a load sends: the all-time map, the weekly report, or the
      map for a range of `yyyy-MM-dd` dates. */
  datatype Request = FetchAll | FetchWeek | FetchRange(startDate: string, endDate: string)

  /** What came back: a body, or a thrown error. */
  datatype Response = Body(snapshot: Snapshot) | Thrown

  const MissingDates: string := "Select both start and end dates"
  const LoadFailed: string := "Failed to load knowledge data"

  /** The request a load in `mode` sends, if any: none in range mode while a
      date is empty. */
  function RequestFor(mode: Mode, startDate: string, endDate: string): (r: Option<Request>)
    ensures r.None? <==> mode == DateRange && (startDate == "" || endDate == "")
    ensures r == Some(FetchAll) <==> mode == AllTime
    ensures r == Some(FetchWeek) <==> mode == ThisWeek
  {
    match mode
    case AllTime => Some(FetchAll)
    case ThisWeek => Some(FetchWeek)
    case DateRange =>
      if startDate == "" || endDate == "" then None else Some(FetchRange(startDate, endDate))
  }

  class Page {
    var mode: Mode
    var data: Option<Snapshot>
    var loading: bool
    var error: Option<string>
    var startDate: string
    var endDate: string
    var subjectFilter: string
    var search: string
    var sortBy: SortKey
    var compact: bool

    /** An error message is never shown beside a snapshot. */
    predicate Valid()
      reads this
    {
      error.Some? ==> data.None?
    }

    /** What a load that sent `sent` leaves behind: with nothing sent (a date
        missing in range mode) no snapshot and the prompt for both dates; after
        a thrown fetch no snapshot and the failure notice; otherwise the body
        as the snapshot and no error. */
    predicate Loaded(sent: Option<Request>, respond: Request -> Response)
      reads this
    {
      && (sent.None? ==> data.None? && error == Some(MissingDates))
      && (sent.Some? && respond(sent.value).Thrown? ==> data.None? && error == Some(LoadFailed))
      && (sent.Some? && respond(sent.value).Body? ==>
            data == Some(respond(sent.value).snapshot) && error.None?)
    }

    /** The table the page renders from its current state. */
    function Rows(): seq<Row>
      reads this
    {
      VisibleRows(data, subjectFilter, search, sortBy)
    }

    /** The initial state: all time, nothing loaded yet, default controls. */
    constructor ()
      ensures Valid()
      ensures mode == AllTime && data.None? && loading && error.None?
      ensures startDate == "" && endDate == ""
      ensures subjectFilter == AllSubjects && search == "" && sortBy == CountDesc && !compact
    {
      mode := AllTime;
      data := None;
      loading := true;
      error := None;
      startDate := "";
      endDate := "";
      subjectFilter := AllSubjects;
      search := "";
      sortBy := CountDesc;
      compact := false;
    }

    /** `load(currentMode)`. In range mode with a date missing nothing is
        fetched, the snapshot is dropped and the page asks for both dates; a
        thrown fetch also drops the snapshot; otherwise the body replaces it.
        Loading is over at the end either way. Returns the request sent. */
    method Load(currentMode: Mode, respond: Request -> Response) returns (sent: Option<Request>)
      modifies this
      ensures Valid()
      ensures sent == RequestFor(currentMode, startDate, endDate)
      ensures !loading && Loaded(sent, respond)
      ensures mode == old(mode) && startDate == old(startDate) && endDate == old(endDate)
      ensures subjectFilter == old(subjectFilter) && search == old(search)
      ensures sortBy == old(sortBy) && compact == old(compact)
    {
      loading := true;
      error := None;
      var res: Response;
      if currentMode == AllTime {
        sent := Some(FetchAll);
        res := respond(FetchAll);
      } else if currentMode == ThisWeek {
        sent := Some(FetchWeek);
        res := respond(FetchWeek);
      } else {
        if startDate == "" || endDate == "" {
          data := None;
          error := Some(MissingDates);
          loading := false;
          return None;
        }
        sent := Some(FetchRange(startDate, endDate));
        res := respond(FetchRange(startDate, endDate));
      }
      match res {
        case Body(snapshot) =>
          data := Some(snapshot);
        case Thrown =>
          error := Some(LoadFailed);
          data := None;
      }
      loading := false;
    }

    /** A mode button: the mode changes, and a change of mode runs the load
        the page's effect on `mode` triggers. The dates are left as they are. */
    method SelectMode(m: Mode, respond: Request -> Response) returns (sent: Option<Request>)
      modifies this
      ensures mode == m
      ensures old(mode) == m ==>
        sent.None? && data == old(data) && error == old(error) && loading == old(loading)
      ensures old(mode) != m ==>
        sent == RequestFor(m, startDate, endDate) && !loading && Loaded(sent, respond)
      ensures old(Valid()) ==> Valid()
      ensures startDate == old(startDate) && endDate == old(endDate)
      ensures subjectFilter == old(subjectFilter) && search == old(search)
      ensures sortBy == old(sortBy) && compact == old(compact)
    {
      var previous := mode;
      mode := m;
      sent := None;
      if previous != m {
        sent := Load(m, respond);
      }
    }

    /** "Apply": loads the range with the dates as they are now. */
    method ApplyRange(respond: Request -> Response) returns (sent: Option<Request>)
      modifies this
      ensures Valid() && !loading && Loaded(sent, respond)
      ensures sent == RequestFor(DateRange, startDate, endDate)
      ensures sent.None? <==> startDate == "" || endDate == ""
      ensures sent.Some? ==> sent.value == FetchRange(startDate, endDate)
      ensures mode == old(mode) && startDate == old(startDate) && endDate == old(endDate)
      ensures subjectFilter == old(subjectFilter) && search == old(search)
      ensures sortBy == old(sortBy) && compact == old(compact)
    {
      sent := Load(DateRange, respond);
    }

    /** "Clear": both dates emptied and the mode back to all time. When the
        mode was another one, that change runs the all-time load the page's
        effect on `mode` triggers; otherwise nothing is loaded. */
    method ClearRange(respond: Request -> Response) returns (sent: Option<Request>)
      modifies this
      ensures startDate == "" && endDate == "" && mode == AllTime
      ensures old(mode) == AllTime ==>
        sent.None? && data == old(data) && error == old(error) && loading == old(loading)
      ensures old(mode) != AllTime ==> sent == Some(FetchAll) && !loading && Loaded(sent, respond)
      ensures old(Valid()) ==> Valid()
      ensures subjectFilter == old(subjectFilter) && search == old(search)
      ensures sortBy == old(sortBy) && compact == old(compact)
    {
      startDate := "";
      endDate := "";
      sent := SelectMode(AllTime, respond);
    }

    /** "Reset filters": every table control back to its default, so the
        table shows every row of the snapshot, most studied first. */
    method ResetFilters()
      modifies this
      ensures subjectFilter == AllSubjects && search == "" && sortBy == CountDesc && !compact
      ensures Rows() == InsertionSort(Flatten(data), ByCountDesc)
      ensures data == old(data) && error == old(error) && mode == old(mode)
      ensures startDate == old(startDate) && endDate == old(endDate) && loading == old(loading)
    {
      subjectFilter := AllSubjects;
      search := "";
      sortBy := CountDesc;
      compact := false;
      DefaultFiltersKeepAll(Flatten(data));
    }
  }
}
