/** The weekly report: the user's entries of one ISO week, their topic links
    grouped by subject and then by topic name, a summary per topic and per
    subject, and the list of topics marked for urgent review. The calendar
    (current year and week, and the dates of a week) is a parameter. */
module ReportService {
  import opened Wrappers
  import opened Text
  import opened Seqs
  import opened Sorting
  import opened LinkedMaps
  import opened Entities

  /** The exception the report can end with: a `NullPointerException` from
      an unset link list, topic, subject or time. */
  datatype ReportError = NullReference

  /** `WeekUtil.WeekRange`: Monday and Sunday of a week. */
  datatype WeekRange = WeekRange(startDate: Day, endDate: Day)

  datatype ReportWeek = ReportWeek(year: int, weekNumber: int, startDate: Day, endDate: Day)

  datatype WeeklyReportResponse = WeeklyReportResponse(
    reportWeek: ReportWeek,
    subjects: seq<SubjectSummary>,
    urgentReviewTopics: seq<TopicSummary>)

  /** What the report reads from one topic link: the subject and topic names,
      the priority flag and the time of the link's entry. */
  datatype ReportLink = ReportLink(subject: string, topic: string, priority: bool, studiedAt: Instant)

  // ---------------------------------------------------------------------
  // Collecting the week's links

  /** Reading the link dereferences its topic, the topic's subject and (for
      the latest time) its entry's time. */
  predicate Readable(e: StudyEntry, l: StudyEntryTopic) {
    l.topic.Some? && l.topic.value.subject.Some? && e.studiedAt.Some?
  }

  function LinkOf(e: StudyEntry, l: StudyEntryTopic): ReportLink
    requires Readable(e, l)
  {
    ReportLink(l.topic.value.subject.value.name, l.topic.value.name, IsPriority(l), e.studiedAt.value)
  }

  /** The entry has a link list and every link on it can be read. */
  predicate Reportable(e: StudyEntry) {
    e.studyEntryTopics.Some? && forall l :: l in e.studyEntryTopics.value ==> Readable(e, l)
  }

  function LinkCount(e: StudyEntry): int {
    |e.studyEntryTopics.GetOr([])|
  }

  /** The links `ls` of the entry `e`, in order, or the failure of the first
      that cannot be read. */
  function EntryLinks(e: StudyEntry, ls: seq<StudyEntryTopic>): Result<seq<ReportLink>, ReportError> {
    if ls == [] then Success([])
    else match EntryLinks(e, ls[..|ls| - 1])
      case Failure(err) => Failure(err)
      case Success(xs) =>
        if Readable(e, ls[|ls| - 1]) then Success(xs + [LinkOf(e, ls[|ls| - 1])])
        else Failure(NullReference)
  }

  /** `entries.stream().flatMap(entry -> entry.getStudyEntryTopics().stream())`,
      together with the dereferences the grouping makes later. */
  function CollectLinks(es: seq<StudyEntry>): Result<seq<ReportLink>, ReportError> {
    if es == [] then Success([])
    else match CollectLinks(es[..|es| - 1])
      case Failure(err) => Failure(err)
      case Success(xs) =>
        var e := es[|es| - 1];
        if e.studyEntryTopics.None? then Failure(NullReference)
        else match EntryLinks(e, e.studyEntryTopics.value)
          case Failure(err) => Failure(err)
          case Success(ys) => Success(xs + ys)
  }

  /** `x` is the reading of some link of some entry of `es`. */
  ghost predicate IsLinkOf(es: seq<StudyEntry>, x: ReportLink) {
    exists e, l :: e in es && e.studyEntryTopics.Some? && l in e.studyEntryTopics.value
                   && Readable(e, l) && x == LinkOf(e, l)
  }

  /** Reading an entry's links succeeds exactly when every link can be read,
      and then gives one reading per link. */
  lemma {:induction false} EntryLinksFacts(e: StudyEntry, ls: seq<StudyEntryTopic>)
    ensures EntryLinks(e, ls).Success? <==> forall l :: l in ls ==> Readable(e, l)
    ensures EntryLinks(e, ls).Success? ==>
      |EntryLinks(e, ls).value| == |ls|
      && forall x :: x in EntryLinks(e, ls).value <==> exists l :: l in ls && Readable(e, l) && x == LinkOf(e, l)
  {
    if ls != [] {
      var p := ls[..|ls| - 1];
      var l := ls[|ls| - 1];
      EntryLinksFacts(e, p);
      assert ls == p + [l];
    }
  }

  /** Collecting succeeds exactly when every entry is reportable; then there
      is one reading per link, and the readings are those of the entries'
      links. */
  lemma {:induction false} CollectLinksFacts(es: seq<StudyEntry>)
    ensures CollectLinks(es).Success? <==> forall e :: e in es ==> Reportable(e)
    ensures CollectLinks(es).Success? ==>
      |CollectLinks(es).value| == SumOf(es, LinkCount)
      && forall x :: x in CollectLinks(es).value <==> IsLinkOf(es, x)
  {
    if es != [] {
      var p := es[..|es| - 1];
      var e := es[|es| - 1];
      CollectLinksFacts(p);
      assert es == p + [e];
      assert forall e' :: e' in es <==> e' in p || e' == e;
      if e.studyEntryTopics.Some? {
        EntryLinksFacts(e, e.studyEntryTopics.value);
        assert Reportable(e) <==> EntryLinks(e, e.studyEntryTopics.value).Success?;
      }
      assert CollectLinks(es).Success? <==> CollectLinks(p).Success? && Reportable(e);
      if CollectLinks(es).Success? {
        var ys := EntryLinks(e, e.studyEntryTopics.value).value;
        forall x ensures x in CollectLinks(es).value <==> IsLinkOf(es, x) {
          if IsLinkOf(es, x) {
            var e', l :| e' in es && e'.studyEntryTopics.Some? && l in e'.studyEntryTopics.value
                         && Readable(e', l) && x == LinkOf(e', l);
            if e' != e {
              assert e' in p;
              assert IsLinkOf(p, x);
            }
          }
          if x in ys {
            assert IsLinkOf(es, x);
          }
        }
      }
    }
  }

  // ---------------------------------------------------------------------
  // One topic's summary

  function SubjectKey(x: ReportLink): string { x.subject }

  function TopicKey(x: ReportLink): string { x.topic }

  /** `anyMatch(StudyEntryTopic::getIsPriority)`. */
  function AnyPriority(xs: seq<ReportLink>): (r: bool)
    ensures r <==> exists i :: 0 <= i < |xs| && xs[i].priority
  {
    if xs == [] then false
    else
      var p := AnyPriority(xs[..|xs| - 1]);
      assert forall i :: 0 <= i < |xs| - 1 ==> xs[..|xs| - 1][i] == xs[i];
      p || xs[|xs| - 1].priority
  }

  /** `max(LocalDateTime::compareTo).orElse(null)` over the entries' times. */
  function Latest(xs: seq<ReportLink>): (r: Option<Instant>)
    ensures r.None? <==> xs == []
    ensures r.Some? ==> (exists i :: 0 <= i < |xs| && xs[i].studiedAt == r.value)
                        && forall i :: 0 <= i < |xs| ==> xs[i].studiedAt <= r.value
  {
    if xs == [] then None
    else
      var t := xs[|xs| - 1].studiedAt;
      var p := Latest(xs[..|xs| - 1]);
      assert forall i :: 0 <= i < |xs| - 1 ==> xs[..|xs| - 1][i] == xs[i];
      match p
      case None => Some(t)
      case Some(m) => Some(if m >= t then m else t)
  }

  /** The summary of the links of one topic name. */
  function TopicReport(name: string, instances: seq<ReportLink>): TopicSummary {
    TopicSummary(name, |instances|, AnyPriority(instances), Latest(instances))
  }

  /** `subjectTopics.stream().collect(groupingBy(topic name))`. */
  function TopicGroups(w: seq<ReportLink>): LinkedMap<seq<ReportLink>> {
    GroupBy(w, TopicKey, AsList<ReportLink>)
  }

  /** One summary per key, in key order, as the inner loop adds them. */
  function ReportTopics(keys: seq<string>, g: LinkedMap<seq<ReportLink>>): (r: seq<TopicSummary>)
    ensures |r| == |keys|
    ensures forall i :: 0 <= i < |keys| ==> r[i] == TopicReport(keys[i], g.GetOr(keys[i], []))
  {
    if keys == [] then []
    else ReportTopics(keys[..|keys| - 1], g) + [TopicReport(keys[|keys| - 1], g.GetOr(keys[|keys| - 1], []))]
  }

  predicate IsUrgent(t: TopicSummary) {
    t.isPriority
  }

  // ---------------------------------------------------------------------
  // The three orders

  /** Count descending, then name (lines 94-97). */
  function ByCountThenName(a: TopicSummary, b: TopicSummary): int {
    var c := CompareInts(b.count, a.count);
    if c != 0 then c else CompareStrings(a.name, b.name)
  }

  predicate CountOrdered(a: TopicSummary, b: TopicSummary) {
    a.count > b.count || (a.count == b.count && CompareStrings(a.name, b.name) <= 0)
  }

  /** Total studies descending, nothing else (line 107). */
  function ByTotalOnly(a: SubjectSummary, b: SubjectSummary): int {
    CompareInts(b.totalStudies, a.totalStudies)
  }

  /** Latest first, unset times last (lines 110-115). */
  function ByLatest(a: TopicSummary, b: TopicSummary): int {
    match (a.lastStudiedAt, b.lastStudiedAt)
    case (None, None) => 0
    case (None, Some(_)) => 1
    case (Some(_), None) => -1
    case (Some(x), Some(y)) => CompareInts(y, x)
  }

  predicate LatestFirst(a: TopicSummary, b: TopicSummary) {
    match (a.lastStudiedAt, b.lastStudiedAt)
    case (None, Some(_)) => false
    case (Some(x), Some(y)) => x >= y
    case _ => true
  }

  /** Each comparator says "not after" exactly when the pair is in the order
      it names, and none puts each of two elements after the other. */
  lemma OrdersMeaning()
    ensures forall a, b :: ByCountThenName(a, b) <= 0 <==> CountOrdered(a, b)
    ensures Antisymmetric(ByCountThenName)
    ensures forall a, b :: ByTotalOnly(a, b) <= 0 <==> a.totalStudies >= b.totalStudies
    ensures Antisymmetric(ByTotalOnly)
    ensures forall a, b :: ByLatest(a, b) <= 0 <==> LatestFirst(a, b)
    ensures Antisymmetric(ByLatest)
  {
    forall a: TopicSummary, b: TopicSummary
      ensures ByCountThenName(a, b) <= 0 <==> CountOrdered(a, b)
      ensures ByCountThenName(a, b) > 0 ==> ByCountThenName(b, a) <= 0
    {
      CompareAntisymmetric(a.name, b.name);
    }
  }

  // ---------------------------------------------------------------------
  // Subjects

  /** One subject's summary: its topics sorted, and the number of its links. */
  function SubjectReport(subject: string, w: seq<ReportLink>): SubjectSummary {
    var g := TopicGroups(w);
    SubjectSummary(subject, InsertionSort(ReportTopics(g.keys, g), ByCountThenName), |w|)
  }

  /** The urgent topics one subject adds, in the inner loop's order. */
  function UrgentOf(w: seq<ReportLink>): seq<TopicSummary> {
    var g := TopicGroups(w);
    Filter(ReportTopics(g.keys, g), IsUrgent)
  }

  function SubjectGroups(links: seq<ReportLink>): LinkedMap<seq<ReportLink>> {
    GroupBy(links, SubjectKey, AsList<ReportLink>)
  }

  function SubjectReports(keys: seq<string>, m: LinkedMap<seq<ReportLink>>): (r: seq<SubjectSummary>)
    ensures |r| == |keys|
    ensures forall i :: 0 <= i < |keys| ==> r[i] == SubjectReport(keys[i], m.GetOr(keys[i], []))
  {
    if keys == [] then []
    else SubjectReports(keys[..|keys| - 1], m) + [SubjectReport(keys[|keys| - 1], m.GetOr(keys[|keys| - 1], []))]
  }

  function UrgentAll(keys: seq<string>, m: LinkedMap<seq<ReportLink>>): seq<TopicSummary> {
    if keys == [] then []
    else UrgentAll(keys[..|keys| - 1], m) + UrgentOf(m.GetOr(keys[|keys| - 1], []))
  }

  /** The report's subject list for the links `links`. */
  function ReportSubjects(links: seq<ReportLink>): seq<SubjectSummary> {
    var m := SubjectGroups(links);
    InsertionSort(SubjectReports(m.keys, m), ByTotalOnly)
  }

  /** The report's urgent-review list for the links `links`. */
  function ReportUrgent(links: seq<ReportLink>): seq<TopicSummary> {
    var m := SubjectGroups(links);
    InsertionSort(UrgentAll(m.keys, m), ByLatest)
  }

  /** The user's entries in the week: from the start of Monday to the last
      nanosecond of Sunday. */
  function WeekEntries(store: seq<StudyEntry>, userId: int, range: WeekRange): seq<StudyEntry> {
    StudiedBetween(store, userId, AtStartOfDay(range.startDate), AtEndOfDay(range.endDate))
  }

  /** What `generateWeeklyReport(userId, year, week)` returns or throws. */
  function WeeklyReport(store: seq<StudyEntry>, userId: int, year: Option<int>, week: Option<int>,
                        currentYear: int, currentWeek: int, weekRange: (int, int) -> WeekRange)
    : Result<WeeklyReportResponse, ReportError>
  {
    var y := year.GetOr(currentYear);
    var w := week.GetOr(currentWeek);
    var range := weekRange(y, w);
    match CollectLinks(WeekEntries(store, userId, range))
    case Failure(err) => Failure(err)
    case Success(links) =>
      Success(WeeklyReportResponse(ReportWeek(y, w, range.startDate, range.endDate),
                                   ReportSubjects(links), ReportUrgent(links)))
  }

  // ---------------------------------------------------------------------
  // The method

  /** `generateWeeklyReport`. */
  method GenerateWeeklyReport(store: seq<StudyEntry>, userId: int, year: Option<int>, week: Option<int>,
                              currentYear: int, currentWeek: int, weekRange: (int, int) -> WeekRange)
    returns (r: Result<WeeklyReportResponse, ReportError>)
    ensures r == WeeklyReport(store, userId, year, week, currentYear, currentWeek, weekRange)
  {
    var y := if year.None? then currentYear else year.value;
    var w := if week.None? then currentWeek else week.value;
    var range := weekRange(y, w);
    var entries := StudiedBetween(store, userId, AtStartOfDay(range.startDate), AtEndOfDay(range.endDate));
    var collected := CollectLinks(entries);
    if collected.Failure? {
      return Failure(collected.error);
    }
    var topicsBySubject := GroupBy(collected.value, SubjectKey, AsList<ReportLink>);
    var subjects, urgentTopics := SummarizeSubjects(topicsBySubject);
    subjects := SortList(subjects, ByTotalOnly);
    urgentTopics := SortList(urgentTopics, ByLatest);
    r := Success(WeeklyReportResponse(ReportWeek(y, w, range.startDate, range.endDate), subjects, urgentTopics));
  }

  /** The loop over the subjects (lines 55-104). */
  method SummarizeSubjects(m: LinkedMap<seq<ReportLink>>)
    returns (subjects: seq<SubjectSummary>, urgentTopics: seq<TopicSummary>)
    ensures subjects == SubjectReports(m.keys, m)
    ensures urgentTopics == UrgentAll(m.keys, m)
  {
    subjects := [];
    urgentTopics := [];
    var i := 0;
    while i < |m.keys|
      invariant 0 <= i <= |m.keys|
      invariant subjects == SubjectReports(m.keys[..i], m)
      invariant urgentTopics == UrgentAll(m.keys[..i], m)
    {
      var subjectName := m.keys[i];
      var subjectTopics := m.GetOr(subjectName, []);
      var topicGroups := GroupBy(subjectTopics, TopicKey, AsList<ReportLink>);
      var topicSummaries, urgentAdded := SummarizeTopics(topicGroups);
      urgentTopics := urgentTopics + urgentAdded;
      topicSummaries := SortList(topicSummaries, ByCountThenName);
      subjects := subjects + [SubjectSummary(subjectName, topicSummaries, |subjectTopics|)];
      assert m.keys[..i + 1][..i] == m.keys[..i];
      i := i + 1;
    }
    assert m.keys[..i] == m.keys;
  }

  /** The loop over one subject's topic groups (lines 67-91): a summary per
      group, and the same summary again on the urgent list when any link of
      the group was priority. */
  method SummarizeTopics(g: LinkedMap<seq<ReportLink>>)
    returns (topicSummaries: seq<TopicSummary>, urgentAdded: seq<TopicSummary>)
    ensures topicSummaries == ReportTopics(g.keys, g)
    ensures urgentAdded == Filter(ReportTopics(g.keys, g), IsUrgent)
  {
    topicSummaries := [];
    urgentAdded := [];
    var i := 0;
    while i < |g.keys|
      invariant 0 <= i <= |g.keys|
      invariant topicSummaries == ReportTopics(g.keys[..i], g)
      invariant urgentAdded == Filter(topicSummaries, IsUrgent)
    {
      var topicName := g.keys[i];
      var topicInstances := g.GetOr(topicName, []);
      var hasAnyPriority := AnyPriority(topicInstances);
      var lastStudied := Latest(topicInstances);
      var topicSummary := TopicSummary(topicName, |topicInstances|, hasAnyPriority, lastStudied);
      assert (topicSummaries + [topicSummary])[..|topicSummaries|] == topicSummaries;
      topicSummaries := topicSummaries + [topicSummary];
      if hasAnyPriority {
        urgentAdded := urgentAdded + [topicSummary];
      }
      assert g.keys[..i + 1][..i] == g.keys[..i];
      i := i + 1;
    }
    assert g.keys[..i] == g.keys;
  }

  // ---------------------------------------------------------------------
  // What the report promises

  /** The week's entries are the user's entries whose day lies between the
      week's first and last day, both included. */
  lemma WeekEntriesMembers(store: seq<StudyEntry>, userId: int, range: WeekRange)
    ensures forall e :: e in WeekEntries(store, userId, range) <==>
      e in store && e.user == Some(userId) && e.studiedAt.Some?
      && range.startDate <= DayOf(e.studiedAt.value) <= range.endDate
  {
    forall e: StudyEntry | e.studiedAt.Some? {
      DayWindow(e.studiedAt.value, range.startDate, range.endDate);
    }
  }

  /** The report fails exactly when an entry of the week has no link list, or
      a link without a topic or whose topic has no subject; the week's
      entries all have a time, so the latest-time step never fails. */
  lemma WeeklyReportFails(store: seq<StudyEntry>, userId: int, year: Option<int>, week: Option<int>,
                          currentYear: int, currentWeek: int, weekRange: (int, int) -> WeekRange)
    ensures var range := weekRange(year.GetOr(currentYear), week.GetOr(currentWeek));
      WeeklyReport(store, userId, year, week, currentYear, currentWeek, weekRange).Failure? <==>
        exists e :: e in WeekEntries(store, userId, range)
          && (e.studyEntryTopics.None?
              || exists l :: l in e.studyEntryTopics.value && (l.topic.None? || l.topic.value.subject.None?))
  {
    var range := weekRange(year.GetOr(currentYear), week.GetOr(currentWeek));
    var es := WeekEntries(store, userId, range);
    CollectLinksFacts(es);
  }

  /** A successful report is for the requested week, or the current one
      where none was given, and its dates are that week's. */
  lemma WeeklyReportWeek(store: seq<StudyEntry>, userId: int, year: Option<int>, week: Option<int>,
                         currentYear: int, currentWeek: int, weekRange: (int, int) -> WeekRange)
    ensures var r := WeeklyReport(store, userId, year, week, currentYear, currentWeek, weekRange);
      var y := if year.Some? then year.value else currentYear;
      var w := if week.Some? then week.value else currentWeek;
      r.Success? ==> r.value.reportWeek == ReportWeek(y, w, weekRange(y, w).startDate, weekRange(y, w).endDate)
  {
  }

  lemma SubjectLookup(links: seq<ReportLink>, k: string)
    ensures SubjectGroups(links).GetOr(k, []) == WithKey(links, SubjectKey, k)
  {
    GroupByFacts(links, SubjectKey, AsList<ReportLink>);
    assert AsList<ReportLink>([]) == [];
  }

  lemma TopicLookup(w: seq<ReportLink>, k: string)
    ensures TopicGroups(w).GetOr(k, []) == WithKey(w, TopicKey, k)
  {
    GroupByFacts(w, TopicKey, AsList<ReportLink>);
    assert AsList<ReportLink>([]) == [];
  }

  lemma {:induction false} ReportTopicsCount(keys: seq<string>, w: seq<ReportLink>)
    ensures SumOf(ReportTopics(keys, TopicGroups(w)), TopicCount) == SumSizes(keys, w, TopicKey)
  {
    if keys != [] {
      var p := keys[..|keys| - 1];
      var k := keys[|keys| - 1];
      ReportTopicsCount(p, w);
      TopicLookup(w, k);
      var e := ReportTopics(keys, TopicGroups(w));
      assert e[..|e| - 1] == ReportTopics(p, TopicGroups(w));
    }
  }

  /** A subject's total is the number of its links, and its topic counts add
      up to it. */
  lemma SubjectReportTotal(subject: string, w: seq<ReportLink>)
    ensures SubjectReport(subject, w).totalStudies == |w|
    ensures SumOf(SubjectReport(subject, w).topics, TopicCount) == |w|
  {
    var g := TopicGroups(w);
    var entries := ReportTopics(g.keys, g);
    InsertionSortCounts(entries, ByCountThenName);
    ReportTopicsCount(g.keys, w);
    PartitionCount(w, TopicKey);
    SumOfPermutation(entries, InsertionSort(entries, ByCountThenName), TopicCount);
  }

  lemma {:induction false} SubjectReportsTotal(keys: seq<string>, links: seq<ReportLink>)
    ensures SumOf(SubjectReports(keys, SubjectGroups(links)), TotalStudies) == SumSizes(keys, links, SubjectKey)
  {
    if keys != [] {
      var p := keys[..|keys| - 1];
      var k := keys[|keys| - 1];
      SubjectReportsTotal(p, links);
      SubjectLookup(links, k);
      var e := SubjectReports(keys, SubjectGroups(links));
      assert e[..|e| - 1] == SubjectReports(p, SubjectGroups(links));
    }
  }

  /** Summed over the subjects, the totals count every link of the week once. */
  lemma ReportTotals(links: seq<ReportLink>)
    ensures SumOf(ReportSubjects(links), TotalStudies) == |links|
  {
    var m := SubjectGroups(links);
    var entries := SubjectReports(m.keys, m);
    SubjectReportsTotal(m.keys, links);
    PartitionCount(links, SubjectKey);
    InsertionSortCounts(entries, ByTotalOnly);
    SumOfPermutation(entries, InsertionSort(entries, ByTotalOnly), TotalStudies);
  }

  /** Before sorting, a subject has one summary per topic name among its
      links, summarizing exactly the links with that name. */
  lemma ReportTopicsMembers(w: seq<ReportLink>)
    ensures var g := TopicGroups(w);
      && DistinctKeys(ReportTopics(g.keys, g), TopicName)
      && forall t :: t in ReportTopics(g.keys, g) <==>
           (exists x :: x in w && x.topic == t.name) && t == TopicReport(t.name, WithKey(w, TopicKey, t.name))
  {
    var g := TopicGroups(w);
    var entries := ReportTopics(g.keys, g);
    KeysInOrderFacts(w, TopicKey);
    forall t ensures t in entries <==>
      (exists x :: x in w && x.topic == t.name) && t == TopicReport(t.name, WithKey(w, TopicKey, t.name))
    {
      if t in entries {
        var i :| 0 <= i < |entries| && entries[i] == t;
        TopicLookup(w, g.keys[i]);
        assert g.keys[i] in KeysInOrder(w, TopicKey);
      }
      if (exists x :: x in w && x.topic == t.name) && t == TopicReport(t.name, WithKey(w, TopicKey, t.name)) {
        assert t.name in g.keys;
        var i :| 0 <= i < |g.keys| && g.keys[i] == t.name;
        TopicLookup(w, t.name);
        assert entries[i] == t;
      }
    }
  }

  /** A subject's topics appear once each, by count descending and then by
      name, and each summarizes exactly the links with its name. */
  lemma SubjectReportTopics(subject: string, w: seq<ReportLink>)
    ensures var x := SubjectReport(subject, w);
      && DistinctKeys(x.topics, TopicName)
      && (forall i :: 0 < i < |x.topics| ==> CountOrdered(x.topics[i - 1], x.topics[i]))
      && forall t :: t in x.topics <==>
           (exists q :: q in w && q.topic == t.name) && t == TopicReport(t.name, WithKey(w, TopicKey, t.name))
  {
    var g := TopicGroups(w);
    var entries := ReportTopics(g.keys, g);
    var sorted := InsertionSort(entries, ByCountThenName);
    ReportTopicsMembers(w);
    OrdersMeaning();
    InsertionSortFacts(entries, ByCountThenName);
    InsertionSortDistinctKeys(entries, ByCountThenName, TopicName);
    SortedMembers(entries, ByCountThenName);
    forall i | 0 < i < |sorted| ensures CountOrdered(sorted[i - 1], sorted[i]) {
      assert ByCountThenName(sorted[i - 1], sorted[i]) <= 0;
    }
  }

  /** The summary of the subject `subject` among the links `links`. */
  function SubjectFor(links: seq<ReportLink>, subject: string): SubjectSummary {
    SubjectReport(subject, WithKey(links, SubjectKey, subject))
  }

  lemma SubjectReportIsFor(links: seq<ReportLink>, x: SubjectSummary)
    requires x in SubjectReports(SubjectGroups(links).keys, SubjectGroups(links))
    ensures (exists q :: q in links && q.subject == x.subject) && x == SubjectFor(links, x.subject)
  {
    var m := SubjectGroups(links);
    var entries := SubjectReports(m.keys, m);
    var i :| 0 <= i < |entries| && entries[i] == x;
    var k := m.keys[i];
    SubjectLookup(links, k);
    assert x.subject == k;
    KeysInOrderFacts(links, SubjectKey);
    assert k in KeysInOrder(links, SubjectKey);
  }

  lemma SubjectForIsReport(links: seq<ReportLink>, subject: string)
    requires exists q :: q in links && q.subject == subject
    ensures SubjectFor(links, subject) in SubjectReports(SubjectGroups(links).keys, SubjectGroups(links))
  {
    var m := SubjectGroups(links);
    var entries := SubjectReports(m.keys, m);
    KeysInOrderFacts(links, SubjectKey);
    assert subject in m.keys;
    var i :| 0 <= i < |m.keys| && m.keys[i] == subject;
    SubjectLookup(links, subject);
    assert entries[i] == SubjectFor(links, subject);
  }

  /** Before sorting, there is one subject summary per subject among the
      links, built from exactly that subject's links. */
  lemma SubjectReportsMembers(links: seq<ReportLink>)
    ensures var m := SubjectGroups(links);
      && DistinctKeys(SubjectReports(m.keys, m), SubjectName)
      && forall x :: x in SubjectReports(m.keys, m) <==>
           (exists q :: q in links && q.subject == x.subject) && x == SubjectFor(links, x.subject)
  {
    var m := SubjectGroups(links);
    var entries := SubjectReports(m.keys, m);
    forall x ensures x in entries <==>
      (exists q :: q in links && q.subject == x.subject) && x == SubjectFor(links, x.subject)
    {
      if x in entries {
        SubjectReportIsFor(links, x);
      }
      if (exists q :: q in links && q.subject == x.subject) && x == SubjectFor(links, x.subject) {
        SubjectForIsReport(links, x.subject);
      }
    }
    KeysInOrderFacts(links, SubjectKey);
    forall i, j | 0 <= i < j < |entries| ensures entries[i].subject != entries[j].subject {
      assert entries[i].subject == m.keys[i] && entries[j].subject == m.keys[j];
    }
  }

  /** Subjects appear once each, and totals never increase down the list. */
  lemma ReportSubjectsOrder(links: seq<ReportLink>)
    ensures var subjects := ReportSubjects(links);
      && DistinctKeys(subjects, SubjectName)
      && forall i :: 0 < i < |subjects| ==> subjects[i - 1].totalStudies >= subjects[i].totalStudies
  {
    var m := SubjectGroups(links);
    var entries := SubjectReports(m.keys, m);
    var sorted := InsertionSort(entries, ByTotalOnly);
    SubjectReportsMembers(links);
    OrdersMeaning();
    InsertionSortSorted(entries, ByTotalOnly);
    InsertionSortDistinctKeys(entries, ByTotalOnly, SubjectName);
    forall i | 0 < i < |sorted| ensures sorted[i - 1].totalStudies >= sorted[i].totalStudies {
      assert ByTotalOnly(sorted[i - 1], sorted[i]) <= 0;
    }
  }

  /** Each subject among the week's links appears, with the summary of
      exactly its links, and no other subject appears. */
  lemma ReportSubjectsMembers(links: seq<ReportLink>)
    ensures forall x :: x in ReportSubjects(links) <==>
      (exists q :: q in links && q.subject == x.subject) && x == SubjectFor(links, x.subject)
  {
    var m := SubjectGroups(links);
    SubjectReportsMembers(links);
    SortedMembers(SubjectReports(m.keys, m), ByTotalOnly);
  }

  /** The links of one subject and topic name. */
  function PairLinks(links: seq<ReportLink>, subject: string, topic: string): (r: seq<ReportLink>)
    ensures forall q :: q in r <==> q in links && q.subject == subject && q.topic == topic
  {
    WithKeyMembers(links, SubjectKey, subject);
    WithKeyMembers(WithKey(links, SubjectKey, subject), TopicKey, topic);
    WithKey(WithKey(links, SubjectKey, subject), TopicKey, topic)
  }

  /** Every topic of every subject in the report stands for the links with
      that subject and topic name: there is at least one, the count is their
      number, the flag says whether any was priority, and the time is the
      latest among them. */
  lemma ReportTopicFacts(links: seq<ReportLink>, x: SubjectSummary, t: TopicSummary)
    requires x in ReportSubjects(links) && t in x.topics
    ensures var ps := PairLinks(links, x.subject, t.name);
      && ps != []
      && t.count == |ps|
      && (t.isPriority <==> exists i :: 0 <= i < |ps| && ps[i].priority)
      && t.lastStudiedAt.Some?
      && (exists i :: 0 <= i < |ps| && ps[i].studiedAt == t.lastStudiedAt.value)
      && forall i :: 0 <= i < |ps| ==> ps[i].studiedAt <= t.lastStudiedAt.value
  {
    TopicInReport(links, x, t);
  }

  /** A topic listed under a subject summarizes that pair's links, of which
      there is at least one. */
  lemma TopicInReport(links: seq<ReportLink>, x: SubjectSummary, t: TopicSummary)
    requires x in ReportSubjects(links) && t in x.topics
    ensures PairLinks(links, x.subject, t.name) != []
    ensures t == TopicReport(t.name, PairLinks(links, x.subject, t.name))
  {
    ReportSubjectsMembers(links);
    var w := WithKey(links, SubjectKey, x.subject);
    assert x == SubjectReport(x.subject, w);
    SubjectReportTopics(x.subject, w);
    var q :| q in w && q.topic == t.name;
    WithKeyMembers(w, TopicKey, t.name);
    assert q in PairLinks(links, x.subject, t.name);
  }

  // ---------------------------------------------------------------------
  // The urgent-review list

  function TopicsOfSubject(x: SubjectSummary): seq<TopicSummary> {
    x.topics
  }

  /** All topic summaries of a subject list, subject by subject. */
  function AllTopics(subjects: seq<SubjectSummary>): seq<TopicSummary> {
    FlatMap(subjects, TopicsOfSubject)
  }

  lemma {:induction false} UrgentAllCounts(keys: seq<string>, m: LinkedMap<seq<ReportLink>>)
    ensures multiset(UrgentAll(keys, m)) == multiset(Filter(AllTopics(SubjectReports(keys, m)), IsUrgent))
  {
    if keys != [] {
      var p := keys[..|keys| - 1];
      var k := keys[|keys| - 1];
      UrgentAllCounts(p, m);
      var w := m.GetOr(k, []);
      var g := TopicGroups(w);
      var entries := ReportTopics(g.keys, g);
      var x := SubjectReport(k, w);
      var sr := SubjectReports(keys, m);
      assert sr == SubjectReports(p, m) + [x];
      FlatMapConcat(SubjectReports(p, m), [x], TopicsOfSubject);
      assert FlatMap([x], TopicsOfSubject) == x.topics by { assert [x][..0] == []; }
      FilterConcat(AllTopics(SubjectReports(p, m)), x.topics, IsUrgent);
      InsertionSortCounts(entries, ByCountThenName);
      FilterPermutation(entries, x.topics, IsUrgent);
    }
  }

  /** The urgent list holds every priority topic of every subject, each as
      often as it is listed there and nothing else, latest first. */
  lemma ReportUrgentFacts(links: seq<ReportLink>)
    ensures multiset(ReportUrgent(links)) == multiset(Filter(AllTopics(ReportSubjects(links)), IsUrgent))
    ensures forall i :: 0 < i < |ReportUrgent(links)| ==> LatestFirst(ReportUrgent(links)[i - 1], ReportUrgent(links)[i])
  {
    var m := SubjectGroups(links);
    var entries := SubjectReports(m.keys, m);
    var urgent := UrgentAll(m.keys, m);
    UrgentAllCounts(m.keys, m);
    InsertionSortCounts(urgent, ByLatest);
    InsertionSortCounts(entries, ByTotalOnly);
    FlatMapPermutation(entries, ReportSubjects(links), TopicsOfSubject);
    FilterPermutation(AllTopics(entries), AllTopics(ReportSubjects(links)), IsUrgent);
    OrdersMeaning();
    InsertionSortSorted(urgent, ByLatest);
    var sorted := ReportUrgent(links);
    forall i | 0 < i < |sorted| ensures LatestFirst(sorted[i - 1], sorted[i]) {
      assert ByLatest(sorted[i - 1], sorted[i]) <= 0;
    }
  }
}
