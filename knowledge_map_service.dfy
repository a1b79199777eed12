/** The knowledge-map aggregation: a user's study entries (all of them, or
    those in a day range) are grouped by subject and topic name; every group
    counts its links, records whether any was marked priority and keeps the
    latest study time; topics are then sorted by recency and subjects by
    their total number of studies. */
module KnowledgeMapService {
  import opened Wrappers
  import opened Text
  import opened Seqs
  import opened Sorting
  import opened LinkedMaps
  import opened Entities

  // ---------------------------------------------------------------------
  // Which entries and links take part

  /** The entries the aggregation reads: with both days given, the user's
      entries from the start of `start` to the last nanosecond of `end`;
      otherwise every entry that belongs to the user. */
  function EntriesFor(store: seq<StudyEntry>, userId: int, start: Option<Day>, end: Option<Day>): (r: seq<StudyEntry>)
    ensures start.Some? && end.Some? ==>
      forall e :: e in r <==> e in store && e.user == Some(userId) && e.studiedAt.Some?
                              && start.value <= DayOf(e.studiedAt.value) <= end.value
    ensures !(start.Some? && end.Some?) ==>
      forall e :: e in r <==> e in store && e.user == Some(userId)
  {
    if start.Some? && end.Some? then
      var from := AtStartOfDay(start.value);
      var to := AtStartOfDay(end.value + 1) - 1;
      assert forall e: StudyEntry :: e.studiedAt.Some? ==>
        (from <= e.studiedAt.value <= to <==> start.value <= DayOf(e.studiedAt.value) <= end.value) by {
        forall e: StudyEntry | e.studiedAt.Some? {
          DayWindow(e.studiedAt.value, start.value, end.value);
        }
      }
      StudiedBetween(store, userId, from, to)
    else
      FilterCounts(store, (e: StudyEntry) => e.user == Some(userId));
      Filter(store, (e: StudyEntry) => e.user == Some(userId))
  }

  /** A link reaches the grouping only when its topic and the topic's subject are set. */
  predicate Qualifies(link: StudyEntryTopic) {
    link.topic.Some? && link.topic.value.subject.Some?
  }

  /** What the grouping keeps of a qualifying link: subject name, topic name,
      priority flag and the time of its entry. */
  datatype Qualified = Qualified(subject: string, topic: string, priority: bool, studiedAt: Option<Instant>)

  function QualifiedOf(link: StudyEntryTopic, studiedAt: Option<Instant>): Qualified
    requires Qualifies(link)
  {
    Qualified(link.topic.value.subject.value.name, link.topic.value.name, IsPriority(link), studiedAt)
  }

  /** The qualifying links of one entry's link list, in list order. */
  function LinksQualified(links: seq<StudyEntryTopic>, studiedAt: Option<Instant>): (r: seq<Qualified>)
    ensures forall q :: q in r <==> exists l :: l in links && Qualifies(l) && q == QualifiedOf(l, studiedAt)
  {
    if links == [] then []
    else
      var p := links[..|links| - 1];
      var l := links[|links| - 1];
      assert forall x :: x in links <==> x in p || x == l by { assert links == p + [l]; }
      LinksQualified(p, studiedAt) + (if Qualifies(l) then [QualifiedOf(l, studiedAt)] else [])
  }

  /** An entry without a link list contributes nothing. */
  function EntryQualified(e: StudyEntry): seq<Qualified> {
    match e.studyEntryTopics
    case None => []
    case Some(links) => LinksQualified(links, e.studiedAt)
  }

  /** The qualifying links of all entries, entry by entry. */
  function Qualifying(entries: seq<StudyEntry>): (r: seq<Qualified>)
    ensures forall q :: q in r <==> exists e :: e in entries && q in EntryQualified(e)
  {
    if entries == [] then []
    else
      var p := entries[..|entries| - 1];
      var e := entries[|entries| - 1];
      assert forall x :: x in entries <==> x in p || x == e by { assert entries == p + [e]; }
      Qualifying(p) + EntryQualified(e)
  }

  function SubjectOf(q: Qualified): string { q.subject }

  function TopicOf(q: Qualified): string { q.topic }

  // ---------------------------------------------------------------------
  // The per-topic accumulator

  /** The state of a `TopicAccumulator`. */
  datatype Acc = Acc(count: int, anyPriority: bool, lastStudiedAt: Option<Instant>)

  const NewAcc: Acc := Acc(0, false, None)

  /** One `accumulate` call: one more study, the priority flag or-ed in, and
      the latest time kept; an unset time changes nothing. */
  function AccStep(a: Acc, isPriority: bool, studiedAt: Option<Instant>): (r: Acc)
    ensures r.count == a.count + 1
    ensures a.anyPriority ==> r.anyPriority
    ensures studiedAt.None? ==> r.lastStudiedAt == a.lastStudiedAt
    ensures studiedAt.Some? ==> r.lastStudiedAt.Some?
    ensures r.lastStudiedAt == a.lastStudiedAt || r.lastStudiedAt == studiedAt
  {
    Acc(a.count + 1,
        a.anyPriority || isPriority,
        if studiedAt.Some? && (a.lastStudiedAt.None? || studiedAt.value > a.lastStudiedAt.value)
        then studiedAt else a.lastStudiedAt)
  }

  /** The accumulator after the links `qs`, in order. */
  function AccOf(qs: seq<Qualified>): Acc {
    if qs == [] then NewAcc
    else var q := qs[|qs| - 1]; AccStep(AccOf(qs[..|qs| - 1]), q.priority, q.studiedAt)
  }

  /** An accumulator over any links holds their number, whether any was
      priority, and the latest of their set times (none when no time is set). */
  lemma AccOfFacts(qs: seq<Qualified>)
    ensures AccOf(qs).count == |qs|
    ensures AccOf(qs).anyPriority <==> exists i :: 0 <= i < |qs| && qs[i].priority
    ensures AccOf(qs).lastStudiedAt.None? <==> forall i :: 0 <= i < |qs| ==> qs[i].studiedAt.None?
    ensures AccOf(qs).lastStudiedAt.Some? ==>
      (exists i :: 0 <= i < |qs| && qs[i].studiedAt == AccOf(qs).lastStudiedAt)
      && forall i :: 0 <= i < |qs| && qs[i].studiedAt.Some? ==> qs[i].studiedAt.value <= AccOf(qs).lastStudiedAt.value
  {
    AccCount(qs);
    AccPriority(qs);
    AccLatest(qs);
  }

  lemma {:induction false} AccCount(qs: seq<Qualified>)
    ensures AccOf(qs).count == |qs|
  {
    if qs != [] {
      AccCount(qs[..|qs| - 1]);
    }
  }

  lemma {:induction false} AccPriority(qs: seq<Qualified>)
    ensures AccOf(qs).anyPriority <==> exists i :: 0 <= i < |qs| && qs[i].priority
  {
    if qs != [] {
      var p := qs[..|qs| - 1];
      AccPriority(p);
      assert forall i :: 0 <= i < |p| ==> qs[i] == p[i];
    }
  }

  lemma {:induction false} AccLatest(qs: seq<Qualified>)
    ensures AccOf(qs).lastStudiedAt.None? <==> forall i :: 0 <= i < |qs| ==> qs[i].studiedAt.None?
    ensures AccOf(qs).lastStudiedAt.Some? ==>
      (exists i :: 0 <= i < |qs| && qs[i].studiedAt == AccOf(qs).lastStudiedAt)
      && forall i :: 0 <= i < |qs| && qs[i].studiedAt.Some? ==> qs[i].studiedAt.value <= AccOf(qs).lastStudiedAt.value
  {
    if qs != [] {
      var p := qs[..|qs| - 1];
      var n := |qs| - 1;
      AccLatest(p);
      assert forall i :: 0 <= i < n ==> qs[i] == p[i];
      var a := AccOf(p);
      var r := AccOf(qs);
      if r.lastStudiedAt.Some? && r.lastStudiedAt != qs[n].studiedAt {
        var i :| 0 <= i < n && p[i].studiedAt == a.lastStudiedAt;
        assert qs[i].studiedAt == r.lastStudiedAt;
      }
    }
  }

  /** `KnowledgeMapService.TopicAccumulator`. The grouping loops below keep
      its value, `State()`, in the map and step it with `AccStep`, which
      `Accumulate` is proved to perform on the fields. */
  class TopicAccumulator {
    var count: int
    var anyPriority: bool
    var lastStudiedAt: Option<Instant>

    function State(): Acc
      reads this
    {
      Acc(count, anyPriority, lastStudiedAt)
    }

    constructor()
      ensures State() == NewAcc
    {
      count := 0;
      anyPriority := false;
      lastStudiedAt := None;
    }

    /** `accumulate(isPriority, studiedAt)`. */
    method Accumulate(isPriority: bool, studiedAt: Option<Instant>)
      modifies this
      ensures State() == AccStep(old(State()), isPriority, studiedAt)
    {
      count := count + 1;
      anyPriority := anyPriority || isPriority;
      if studiedAt.Some? && (lastStudiedAt.None? || studiedAt.value > lastStudiedAt.value) {
        lastStudiedAt := studiedAt;
      }
    }
  }

  // ---------------------------------------------------------------------
  // Grouping by subject, then by topic name

  /** A subject's topic map: topic name to the accumulator over its links. */
  function TopicsOf(qs: seq<Qualified>): LinkedMap<Acc> {
    GroupBy(qs, TopicOf, AccOf)
  }

  /** `subjectTopicMap` after the links `qs`. */
  function SubjectTopicMap(qs: seq<Qualified>): LinkedMap<LinkedMap<Acc>> {
    GroupBy(qs, SubjectOf, TopicsOf)
  }

  /** One link more is one `computeIfAbsent(...).computeIfAbsent(...).accumulate(...)`. */
  lemma SubjectTopicMapStep(qs: seq<Qualified>, q: Qualified)
    ensures SubjectTopicMap(qs + [q])
         == var topics := SubjectTopicMap(qs).GetOr(q.subject, Empty());
            SubjectTopicMap(qs).Put(q.subject,
              topics.Put(q.topic, AccStep(topics.GetOr(q.topic, NewAcc), q.priority, q.studiedAt)))
  {
    var w := WithKey(qs, SubjectOf, q.subject);
    GroupByAppend(qs, q, SubjectOf, TopicsOf);
    GroupByFacts(qs, SubjectOf, TopicsOf);
    assert TopicsOf([]) == Empty();
    GroupByAppend(w, q, TopicOf, AccOf);
    GroupByFacts(w, TopicOf, AccOf);
    var ys := WithKey(w, TopicOf, q.topic);
    assert (ys + [q])[..|ys|] == ys;
  }

  /** The nested loops over entries and their links that fill `subjectTopicMap`. */
  method BuildSubjectTopicMap(entries: seq<StudyEntry>) returns (m: LinkedMap<LinkedMap<Acc>>)
    ensures m == SubjectTopicMap(Qualifying(entries))
  {
    m := Empty();
    assert SubjectTopicMap([]) == Empty();
    var i := 0;
    while i < |entries|
      invariant 0 <= i <= |entries|
      invariant m == SubjectTopicMap(Qualifying(entries[..i]))
    {
      var entry := entries[i];
      assert entries[..i + 1][..i] == entries[..i];
      if entry.studyEntryTopics.Some? {
        m := AccumulateLinks(m, Qualifying(entries[..i]), entry.studyEntryTopics.value, entry.studiedAt);
      } else {
        assert Qualifying(entries[..i + 1]) == Qualifying(entries[..i]) + [];
        assert Qualifying(entries[..i]) + [] == Qualifying(entries[..i]);
      }
      i := i + 1;
    }
    assert entries[..i] == entries;
  }

  /** The inner loop: every qualifying link of one entry is accumulated into
      its subject's topic map; links without topic or subject are skipped. */
  method AccumulateLinks(m0: LinkedMap<LinkedMap<Acc>>, ghost done: seq<Qualified>,
                         links: seq<StudyEntryTopic>, studiedAt: Option<Instant>)
    returns (m: LinkedMap<LinkedMap<Acc>>)
    requires m0 == SubjectTopicMap(done)
    ensures m == SubjectTopicMap(done + LinksQualified(links, studiedAt))
  {
    m := m0;
    var j := 0;
    assert done + LinksQualified(links[..0], studiedAt) == done;
    while j < |links|
      invariant 0 <= j <= |links|
      invariant m == SubjectTopicMap(done + LinksQualified(links[..j], studiedAt))
    {
      var link := links[j];
      assert links[..j + 1][..j] == links[..j];
      if Qualifies(link) {
        m := AccumulateLink(m, done + LinksQualified(links[..j], studiedAt), link, studiedAt);
        assert done + LinksQualified(links[..j + 1], studiedAt)
            == done + LinksQualified(links[..j], studiedAt) + [QualifiedOf(link, studiedAt)];
      } else {
        assert LinksQualified(links[..j + 1], studiedAt) == LinksQualified(links[..j], studiedAt);
      }
      j := j + 1;
    }
    assert links[..j] == links;
  }

  /** `subjectTopicMap.computeIfAbsent(subjectName, ...).computeIfAbsent(topicName, ...)
      .accumulate(priority, studiedAt)`, with the accumulator held as a value. */
  method AccumulateLink(m0: LinkedMap<LinkedMap<Acc>>, ghost done: seq<Qualified>,
                        link: StudyEntryTopic, studiedAt: Option<Instant>)
    returns (m: LinkedMap<LinkedMap<Acc>>)
    requires Qualifies(link)
    requires m0 == SubjectTopicMap(done)
    ensures m == SubjectTopicMap(done + [QualifiedOf(link, studiedAt)])
  {
    var subjectName := link.topic.value.subject.value.name;
    var topicName := link.topic.value.name;
    var priority := IsPriority(link);
    var topics := m0.GetOr(subjectName, Empty());
    var acc := topics.GetOr(topicName, NewAcc);
    SubjectTopicMapStep(done, QualifiedOf(link, studiedAt));
    m := m0.Put(subjectName, topics.Put(topicName, AccStep(acc, priority, studiedAt)));
  }

  // ---------------------------------------------------------------------
  // Summaries and their order

  /** `Comparator.comparing(getLastStudiedAt, nullsLast(reverseOrder()))
      .thenComparing(getName)`. */
  function ByRecency(a: TopicSummary, b: TopicSummary): int {
    var c := match (a.lastStudiedAt, b.lastStudiedAt)
      case (None, None) => 0
      case (None, Some(_)) => 1
      case (Some(_), None) => -1
      case (Some(x), Some(y)) => CompareInts(y, x);
    if c != 0 then c else CompareStrings(a.name, b.name)
  }

  /** `a` may come before `b` in a subject's topic list: it was studied later,
      or at the same time (both unset counting as the same) with a name that
      is not greater; a topic never studied comes after every studied one. */
  predicate RecencyOrdered(a: TopicSummary, b: TopicSummary) {
    match (a.lastStudiedAt, b.lastStudiedAt)
    case (None, Some(_)) => false
    case (Some(_), None) => true
    case (Some(x), Some(y)) => x > y || (x == y && CompareStrings(a.name, b.name) <= 0)
    case (None, None) => CompareStrings(a.name, b.name) <= 0
  }

  /** The comparator says "not after" exactly when the topics are in recency order,
      and it never puts each of two topics after the other. */
  lemma ByRecencyMeaning()
    ensures forall a, b :: ByRecency(a, b) <= 0 <==> RecencyOrdered(a, b)
    ensures Antisymmetric(ByRecency)
  {
    forall a: TopicSummary, b: TopicSummary {
      CompareAntisymmetric(a.name, b.name);
    }
  }

  /** `Comparator.comparing(getTotalStudies, reverseOrder()).thenComparing(getSubject)`. */
  function ByTotalStudies(a: SubjectSummary, b: SubjectSummary): int {
    var c := CompareInts(b.totalStudies, a.totalStudies);
    if c != 0 then c else CompareStrings(a.subject, b.subject)
  }

  /** `a` may come before `b`: more studies, or as many and a name that is not greater. */
  predicate TotalOrdered(a: SubjectSummary, b: SubjectSummary) {
    a.totalStudies > b.totalStudies
    || (a.totalStudies == b.totalStudies && CompareStrings(a.subject, b.subject) <= 0)
  }

  lemma ByTotalStudiesMeaning()
    ensures forall a, b :: ByTotalStudies(a, b) <= 0 <==> TotalOrdered(a, b)
    ensures Antisymmetric(ByTotalStudies)
  {
    forall a: SubjectSummary, b: SubjectSummary {
      CompareAntisymmetric(a.subject, b.subject);
    }
  }

  /** The `TopicSummary` built from one accumulator. */
  function SummaryOf(name: string, a: Acc): TopicSummary {
    TopicSummary(name, a.count, a.anyPriority, a.lastStudiedAt)
  }

  /** `topicStats.entrySet().stream().map(...)`: one summary per key, in key order. */
  function TopicEntries(keys: seq<string>, topics: LinkedMap<Acc>): (r: seq<TopicSummary>)
    ensures |r| == |keys|
    ensures forall i :: 0 <= i < |keys| ==> r[i] == SummaryOf(keys[i], topics.GetOr(keys[i], NewAcc))
  {
    if keys == [] then []
    else TopicEntries(keys[..|keys| - 1], topics) + [SummaryOf(keys[|keys| - 1], topics.GetOr(keys[|keys| - 1], NewAcc))]
  }

  /** The stream that lists a subject's topics, sorted by recency. */
  function TopicList(topics: LinkedMap<Acc>): seq<TopicSummary> {
    InsertionSort(TopicEntries(topics.keys, topics), ByRecency)
  }

  /** One subject's summary: its topic list and the sum of their counts. */
  function SubjectSummaryOf(subject: string, topics: LinkedMap<Acc>): SubjectSummary {
    SubjectSummary(subject, TopicList(topics), SumOf(TopicList(topics), TopicCount))
  }

  /** The subject summaries in the map's key order, before the final sort. */
  function SubjectEntries(keys: seq<string>, m: LinkedMap<LinkedMap<Acc>>): (r: seq<SubjectSummary>)
    ensures |r| == |keys|
    ensures forall i :: 0 <= i < |keys| ==> r[i] == SubjectSummaryOf(keys[i], m.GetOr(keys[i], Empty()))
  {
    if keys == [] then []
    else SubjectEntries(keys[..|keys| - 1], m) + [SubjectSummaryOf(keys[|keys| - 1], m.GetOr(keys[|keys| - 1], Empty()))]
  }

  datatype DateRange = DateRange(startDate: Day, endDate: Day)

  datatype KnowledgeMapResponse = KnowledgeMapResponse(dateRange: Option<DateRange>, subjects: seq<SubjectSummary>)

  /** The qualifying links the response is built from. */
  function LinksFor(store: seq<StudyEntry>, userId: int, start: Option<Day>, end: Option<Day>): seq<Qualified> {
    Qualifying(EntriesFor(store, userId, start, end))
  }

  /** The sorted subject summaries of the links `qs`. */
  function Subjects(qs: seq<Qualified>): seq<SubjectSummary> {
    var m := SubjectTopicMap(qs);
    InsertionSort(SubjectEntries(m.keys, m), ByTotalStudies)
  }

  /** What `getKnowledgeMap` returns for the stored entries `store`. */
  function KnowledgeMap(store: seq<StudyEntry>, userId: int, start: Option<Day>, end: Option<Day>): KnowledgeMapResponse {
    KnowledgeMapResponse(
      if start.Some? && end.Some? then Some(DateRange(start.value, end.value)) else None,
      Subjects(LinksFor(store, userId, start, end)))
  }

  /** `getKnowledgeMap(userId, start, end)`. */
  method GetKnowledgeMap(store: seq<StudyEntry>, userId: int, start: Option<Day>, end: Option<Day>)
    returns (r: KnowledgeMapResponse)
    ensures r == KnowledgeMap(store, userId, start, end)
    ensures r.subjects == Subjects(LinksFor(store, userId, start, end))
  {
    var entries := EntriesFor(store, userId, start, end);
    var m := BuildSubjectTopicMap(entries);
    var subjects := SummarizeSubjects(m);
    subjects := SortList(subjects, ByTotalStudies);
    var range := None;
    if start.Some? && end.Some? {
      range := Some(DateRange(start.value, end.value));
    }
    r := KnowledgeMapResponse(range, subjects);
  }

  /** The loop over `subjectTopicMap.entrySet()` that adds one summary per subject. */
  method SummarizeSubjects(m: LinkedMap<LinkedMap<Acc>>) returns (subjects: seq<SubjectSummary>)
    ensures subjects == SubjectEntries(m.keys, m)
  {
    subjects := [];
    var i := 0;
    while i < |m.keys|
      invariant 0 <= i <= |m.keys|
      invariant subjects == SubjectEntries(m.keys[..i], m)
    {
      var subject := m.keys[i];
      var topicStats := m.GetOr(subject, Empty());
      var topics := TopicList(topicStats);
      var totalStudies := SumOf(topics, TopicCount);
      subjects := subjects + [SubjectSummary(subject, topics, totalStudies)];
      assert m.keys[..i + 1][..i] == m.keys[..i];
      assert SubjectEntries(m.keys[..i + 1], m) == SubjectEntries(m.keys[..i], m) + [SubjectSummaryOf(subject, topicStats)];
      i := i + 1;
    }
    assert m.keys[..i] == m.keys;
  }

  // ---------------------------------------------------------------------
  // What the response promises

  /** Summing the counts of the topic summaries of some keys sums the sizes of
      those keys' link groups. */
  lemma {:induction false} TopicEntriesCount(keys: seq<string>, w: seq<Qualified>)
    ensures SumOf(TopicEntries(keys, TopicsOf(w)), TopicCount) == SumSizes(keys, w, TopicOf)
  {
    if keys != [] {
      var p := keys[..|keys| - 1];
      var k := keys[|keys| - 1];
      TopicEntriesCount(p, w);
      GroupByFacts(w, TopicOf, AccOf);
      AccOfFacts(WithKey(w, TopicOf, k));
      var e := TopicEntries(keys, TopicsOf(w));
      assert e[..|e| - 1] == TopicEntries(p, TopicsOf(w));
    }
  }

  /** Before sorting, a subject's topic list holds one summary per topic name
      that occurs, each summarizing exactly the links with that name. */
  lemma TopicEntriesMembers(w: seq<Qualified>)
    ensures var g := TopicsOf(w);
      && DistinctKeys(TopicEntries(g.keys, g), TopicName)
      && forall t :: t in TopicEntries(g.keys, g) <==>
           (exists q :: q in w && q.topic == t.name) && t == SummaryOf(t.name, AccOf(WithKey(w, TopicOf, t.name)))
  {
    var g := TopicsOf(w);
    var entries := TopicEntries(g.keys, g);
    GroupByFacts(w, TopicOf, AccOf);
    forall t ensures t in entries <==>
      (exists q :: q in w && q.topic == t.name) && t == SummaryOf(t.name, AccOf(WithKey(w, TopicOf, t.name)))
    {
      if t in entries {
        var i :| 0 <= i < |entries| && entries[i] == t;
        assert g.keys[i] in g.values;
      }
      if (exists q :: q in w && q.topic == t.name) && t == SummaryOf(t.name, AccOf(WithKey(w, TopicOf, t.name))) {
        assert t.name in g.keys;
        var i :| 0 <= i < |g.keys| && g.keys[i] == t.name;
        assert entries[i] == t;
      }
    }
  }

  /** A subject's topics are sorted by recency, and every topic name occurs once. */
  lemma SubjectSummaryOrder(subject: string, w: seq<Qualified>)
    ensures var x := SubjectSummaryOf(subject, TopicsOf(w));
      && Sorted(x.topics, ByRecency)
      && (forall i :: 0 < i < |x.topics| ==> RecencyOrdered(x.topics[i - 1], x.topics[i]))
      && DistinctKeys(x.topics, TopicName)
  {
    var g := TopicsOf(w);
    var entries := TopicEntries(g.keys, g);
    TopicEntriesMembers(w);
    ByRecencyMeaning();
    InsertionSortFacts(entries, ByRecency);
    InsertionSortDistinctKeys(entries, ByRecency, TopicName);
  }

  /** A subject's topic list holds one summary for each topic name among its
      links `w`, summarizing exactly the links with that name. */
  lemma SubjectSummaryTopics(subject: string, w: seq<Qualified>)
    ensures var x := SubjectSummaryOf(subject, TopicsOf(w));
      forall t :: t in x.topics <==>
        (exists q :: q in w && q.topic == t.name) && t == SummaryOf(t.name, AccOf(WithKey(w, TopicOf, t.name)))
  {
    var g := TopicsOf(w);
    TopicEntriesMembers(w);
    SortedMembers(TopicEntries(g.keys, g), ByRecency);
  }

  /** A subject's total is the number of its links. */
  lemma SubjectSummaryTotal(subject: string, w: seq<Qualified>)
    ensures SubjectSummaryOf(subject, TopicsOf(w)).totalStudies == |w|
  {
    var g := TopicsOf(w);
    var entries := TopicEntries(g.keys, g);
    InsertionSortCounts(entries, ByRecency);
    TopicEntriesCount(g.keys, w);
    PartitionCount(w, TopicOf);
    SumOfPermutation(entries, InsertionSort(entries, ByRecency), TopicCount);
  }

  /** Looking a subject up in the map gives the topic map of exactly its links. */
  lemma SubjectLookup(qs: seq<Qualified>, subject: string)
    ensures SubjectTopicMap(qs).GetOr(subject, Empty()) == TopicsOf(WithKey(qs, SubjectOf, subject))
  {
    GroupByFacts(qs, SubjectOf, TopicsOf);
    assert TopicsOf([]) == Empty();
  }

  lemma {:induction false} SubjectEntriesTotal(keys: seq<string>, qs: seq<Qualified>)
    ensures SumOf(SubjectEntries(keys, SubjectTopicMap(qs)), TotalStudies) == SumSizes(keys, qs, SubjectOf)
  {
    if keys != [] {
      var p := keys[..|keys| - 1];
      var k := keys[|keys| - 1];
      SubjectEntriesTotal(p, qs);
      SubjectLookup(qs, k);
      SubjectSummaryTotal(k, WithKey(qs, SubjectOf, k));
      var e := SubjectEntries(keys, SubjectTopicMap(qs));
      assert e[..|e| - 1] == SubjectEntries(p, SubjectTopicMap(qs));
    }
  }

  /** The response carries a date range exactly when both days were given,
      and then it is those two days. */
  lemma DateRangeFacts(store: seq<StudyEntry>, userId: int, start: Option<Day>, end: Option<Day>)
    ensures KnowledgeMap(store, userId, start, end).dateRange.Some? <==> start.Some? && end.Some?
    ensures start.Some? && end.Some? ==>
      KnowledgeMap(store, userId, start, end).dateRange == Some(DateRange(start.value, end.value))
  {
  }

  /** Summed over all subjects, the totals count every qualifying link once. */
  lemma TotalsAddUp(qs: seq<Qualified>)
    ensures SumOf(Subjects(qs), TotalStudies) == |qs|
  {
    var m := SubjectTopicMap(qs);
    var entries := SubjectEntries(m.keys, m);
    SubjectEntriesTotal(m.keys, qs);
    PartitionCount(qs, SubjectOf);
    InsertionSortCounts(entries, ByTotalStudies);
    SumOfPermutation(entries, InsertionSort(entries, ByTotalStudies), TotalStudies);
  }

  /** The summary of the subject `subject` among the links `qs`. */
  function SummaryFor(qs: seq<Qualified>, subject: string): SubjectSummary {
    SubjectSummaryOf(subject, TopicsOf(WithKey(qs, SubjectOf, subject)))
  }

  /** Before sorting, there is one subject summary for each subject among the
      links, built from exactly that subject's links. */
  lemma SubjectEntriesMembers(qs: seq<Qualified>)
    ensures var m := SubjectTopicMap(qs);
      && DistinctKeys(SubjectEntries(m.keys, m), SubjectName)
      && forall x :: x in SubjectEntries(m.keys, m) <==>
           (exists q :: q in qs && q.subject == x.subject) && x == SummaryFor(qs, x.subject)
  {
    GroupByFacts(qs, SubjectOf, TopicsOf);
    forall x ensures x in SubjectEntries(SubjectTopicMap(qs).keys, SubjectTopicMap(qs)) <==>
      (exists q :: q in qs && q.subject == x.subject) && x == SummaryFor(qs, x.subject)
    {
      SubjectEntryMember(qs, x);
    }
  }

  lemma SubjectEntryMember(qs: seq<Qualified>, x: SubjectSummary)
    ensures x in SubjectEntries(SubjectTopicMap(qs).keys, SubjectTopicMap(qs)) <==>
      (exists q :: q in qs && q.subject == x.subject) && x == SummaryFor(qs, x.subject)
  {
    if x in SubjectEntries(SubjectTopicMap(qs).keys, SubjectTopicMap(qs)) {
      SubjectEntryIsSummary(qs, x);
    }
    if (exists q :: q in qs && q.subject == x.subject) && x == SummaryFor(qs, x.subject) {
      SummaryIsSubjectEntry(qs, x.subject);
    }
  }

  lemma SubjectEntryIsSummary(qs: seq<Qualified>, x: SubjectSummary)
    requires x in SubjectEntries(SubjectTopicMap(qs).keys, SubjectTopicMap(qs))
    ensures (exists q :: q in qs && q.subject == x.subject) && x == SummaryFor(qs, x.subject)
  {
    var m := SubjectTopicMap(qs);
    var entries := SubjectEntries(m.keys, m);
    var i :| 0 <= i < |entries| && entries[i] == x;
    var k := m.keys[i];
    assert x == SubjectSummaryOf(k, m.GetOr(k, Empty()));
    SubjectLookup(qs, k);
    assert x.subject == k;
    KeysInOrderFacts(qs, SubjectOf);
    assert k in KeysInOrder(qs, SubjectOf);
  }

  lemma SummaryIsSubjectEntry(qs: seq<Qualified>, subject: string)
    requires exists q :: q in qs && q.subject == subject
    ensures SummaryFor(qs, subject) in SubjectEntries(SubjectTopicMap(qs).keys, SubjectTopicMap(qs))
  {
    var m := SubjectTopicMap(qs);
    var entries := SubjectEntries(m.keys, m);
    KeysInOrderFacts(qs, SubjectOf);
    assert subject in m.keys;
    var i :| 0 <= i < |m.keys| && m.keys[i] == subject;
    SubjectLookup(qs, subject);
    assert entries[i] == SummaryFor(qs, subject);
  }

  /** Subjects appear once each, ordered by total studies (descending) and
      then by name. */
  lemma SubjectsOrder(qs: seq<Qualified>)
    ensures var subjects := Subjects(qs);
      && DistinctKeys(subjects, SubjectName)
      && forall i :: 0 < i < |subjects| ==> TotalOrdered(subjects[i - 1], subjects[i])
  {
    var m := SubjectTopicMap(qs);
    var entries := SubjectEntries(m.keys, m);
    SubjectEntriesMembers(qs);
    ByTotalStudiesMeaning();
    InsertionSortFacts(entries, ByTotalStudies);
    InsertionSortDistinctKeys(entries, ByTotalStudies, SubjectName);
  }

  /** Each subject among the qualifying links appears, with the summary of
      exactly its links, and no other subject appears. */
  lemma SubjectsMembers(qs: seq<Qualified>)
    ensures forall x :: x in Subjects(qs) <==>
      (exists q :: q in qs && q.subject == x.subject) && x == SummaryFor(qs, x.subject)
  {
    var m := SubjectTopicMap(qs);
    SubjectEntriesMembers(qs);
    SortedMembers(SubjectEntries(m.keys, m), ByTotalStudies);
  }

  /** The qualifying links of one subject and topic name. */
  function PairLinks(qs: seq<Qualified>, subject: string, topic: string): (r: seq<Qualified>)
    ensures forall q :: q in r <==> q in qs && q.subject == subject && q.topic == topic
  {
    WithKeyMembers(qs, SubjectOf, subject);
    WithKeyMembers(WithKey(qs, SubjectOf, subject), TopicOf, topic);
    WithKey(WithKey(qs, SubjectOf, subject), TopicOf, topic)
  }

  /** A topic listed under a subject summarizes that pair's links, of which
      there is at least one. */
  lemma TopicInSubjects(qs: seq<Qualified>, x: SubjectSummary, t: TopicSummary)
    requires x in Subjects(qs) && t in x.topics
    ensures PairLinks(qs, x.subject, t.name) != []
    ensures t == SummaryOf(t.name, AccOf(PairLinks(qs, x.subject, t.name)))
  {
    SubjectsMembers(qs);
    var w := WithKey(qs, SubjectOf, x.subject);
    assert x == SubjectSummaryOf(x.subject, TopicsOf(w));
    SubjectSummaryTopics(x.subject, w);
    var q :| q in w && q.topic == t.name;
    WithKeyMembers(w, TopicOf, t.name);
    assert q in PairLinks(qs, x.subject, t.name);
  }

  /** Every (subject, topic) pair in the response stands for the qualifying
      links with that subject and topic name: at least one exists, the count
      is their number, the flag says whether any was priority, and the time
      is the latest set time among them. */
  lemma TopicStatsFacts(qs: seq<Qualified>, x: SubjectSummary, t: TopicSummary)
    requires x in Subjects(qs) && t in x.topics
    ensures var links := PairLinks(qs, x.subject, t.name);
      && links != []
      && t.count == |links|
      && (t.isPriority <==> exists i :: 0 <= i < |links| && links[i].priority)
      && (t.lastStudiedAt.None? <==> forall i :: 0 <= i < |links| ==> links[i].studiedAt.None?)
      && (t.lastStudiedAt.Some? ==>
            (exists i :: 0 <= i < |links| && links[i].studiedAt == t.lastStudiedAt)
            && forall i :: 0 <= i < |links| && links[i].studiedAt.Some? ==>
                 links[i].studiedAt.value <= t.lastStudiedAt.value)
  {
    TopicInSubjects(qs, x, t);
    AccOfFacts(PairLinks(qs, x.subject, t.name));
  }
}
