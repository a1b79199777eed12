/** The Knowledge Map page's table pipeline: the subject-to-topics snapshot
    fetched from the server is flattened into one row per topic, narrowed by
    the subject filter and the search box, and sorted under the chosen order.
    The subject drop-down lists the distinct subjects of the snapshot. */
module KnowledgeMapView {
  import opened Wrappers
  import opened Text
  import opened Seqs
  import opened Sorting

  // ---------------------------------------------------------------------
  // The snapshot as the page receives it

  /** One topic of a subject, as received; any field but the name may be
      missing. `lastStudiedAt` is the timestamp the server sent, given by
      its `Date.parse` value in milliseconds (absent or empty: `None`). */
  datatype TopicStat = TopicStat(name: string, count: Option<int>, isPriority: Option<bool>,
                                 lastStudiedAt: Option<int>)

  datatype SubjectGroup = SubjectGroup(subject: string, topics: Option<seq<TopicStat>>)

  datatype DateRangeView = DateRangeView(startDate: string, endDate: string)

  datatype Snapshot = Snapshot(dateRange: Option<DateRangeView>, subjects: Option<seq<SubjectGroup>>)

  /** One table row. */
  datatype Row = Row(subject: string, name: string, count: int, isPriority: bool,
                     lastStudiedAt: Option<int>)

  /** The three orders the "Sort by" control offers. */
  datatype SortKey = CountDesc | LastDesc | NameAsc

  /** The subject filter's value meaning "no filter". */
  const AllSubjects: string := "ALL"

  // ---------------------------------------------------------------------
  // Flattening

  function TopicsOf(g: SubjectGroup): seq<TopicStat> {
    g.topics.GetOr([])
  }

  /** The row of one topic: a missing count is 0, the priority flag is true
      only when it is `true`, a missing time stays missing. */
  function RowOf(g: SubjectGroup, t: TopicStat): Row {
    Row(g.subject, t.name, t.count.GetOr(0), t.isPriority == Some(true), t.lastStudiedAt)
  }

  function RowsOf(g: SubjectGroup): (r: seq<Row>)
    ensures |r| == |TopicsOf(g)|
  {
    seq(|TopicsOf(g)|, i requires 0 <= i < |TopicsOf(g)| => RowOf(g, TopicsOf(g)[i]))
  }

  /** `subjects.flatMap(...)`: the rows of each subject, subject by subject. */
  function FlattenGroups(gs: seq<SubjectGroup>): seq<Row> {
    FlatMap(gs, RowsOf)
  }

  /** No snapshot, no subject list or an empty one: no rows. */
  function Flatten(data: Option<Snapshot>): seq<Row> {
    if data.None? || data.value.subjects.None? || data.value.subjects.value == [] then []
    else FlattenGroups(data.value.subjects.value)
  }

  function TopicCountOf(g: SubjectGroup): int {
    |TopicsOf(g)|
  }

  /** A row is exactly the row of one topic of one subject. */
  ghost predicate IsTopicRow(gs: seq<SubjectGroup>, r: Row) {
    exists g, i :: g in gs && 0 <= i < |TopicsOf(g)| && r == RowOf(g, TopicsOf(g)[i])
  }

  /** There is one row per topic, and every row is the row of a topic. */
  lemma {:induction false} FlattenFacts(gs: seq<SubjectGroup>)
    ensures |FlattenGroups(gs)| == SumOf(gs, TopicCountOf)
    ensures forall r :: r in FlattenGroups(gs) <==> IsTopicRow(gs, r)
  {
    if gs != [] {
      var p := gs[..|gs| - 1];
      var g := gs[|gs| - 1];
      FlattenFacts(p);
      assert gs == p + [g];
      forall r ensures r in FlattenGroups(gs) <==> IsTopicRow(gs, r) {
        if r in RowsOf(g) {
          var i :| 0 <= i < |RowsOf(g)| && RowsOf(g)[i] == r;
          assert g in gs && r == RowOf(g, TopicsOf(g)[i]);
        }
        if IsTopicRow(gs, r) {
          var h, i :| h in gs && 0 <= i < |TopicsOf(h)| && r == RowOf(h, TopicsOf(h)[i]);
          if h == g {
            assert RowsOf(g)[i] == r;
          } else {
            assert h in p;
          }
        }
      }
    }
  }

  /** A snapshot without subjects gives no rows; otherwise the row count is
      the total number of topics. */
  lemma FlattenCount(data: Option<Snapshot>)
    ensures data.None? || data.value.subjects.None? ==> Flatten(data) == []
    ensures data.Some? && data.value.subjects.Some?
            ==> |Flatten(data)| == SumOf(data.value.subjects.value, TopicCountOf)
  {
    if data.Some? && data.value.subjects.Some? {
      FlattenFacts(data.value.subjects.value);
    }
  }

  // ---------------------------------------------------------------------
  // Filtering

  /** Keeps the rows of one subject, unless the filter is "ALL". */
  function SubjectStep(rows: seq<Row>, subjectFilter: string): seq<Row> {
    if subjectFilter != AllSubjects then Filter(rows, (r: Row) => r.subject == subjectFilter)
    else rows
  }

  /** The row's topic or subject name contains the query, ignoring case. */
  predicate MatchesQuery(r: Row, q: string) {
    Contains(Lower(r.name), q) || Contains(Lower(r.subject), q)
  }

  /** Keeps the rows matching the trimmed, lower-cased search, unless the
      search is blank. */
  function SearchStep(rows: seq<Row>, search: string): seq<Row> {
    if JsTrim(search) != [] then
      var q := Lower(JsTrim(search));
      Filter(rows, (r: Row) => MatchesQuery(r, q))
    else rows
  }

  function FilterRows(rows: seq<Row>, subjectFilter: string, search: string): seq<Row> {
    SearchStep(SubjectStep(rows, subjectFilter), search)
  }

  /** With a subject chosen every surviving row has exactly that subject, and
      every row of that subject survives; "ALL" removes nothing. */
  lemma SubjectStepFacts(rows: seq<Row>, subjectFilter: string)
    ensures subjectFilter == AllSubjects ==> SubjectStep(rows, subjectFilter) == rows
    ensures subjectFilter != AllSubjects ==>
      forall r :: r in SubjectStep(rows, subjectFilter) <==> r in rows && r.subject == subjectFilter
  {
    if subjectFilter != AllSubjects {
      FilterCounts(rows, (r: Row) => r.subject == subjectFilter);
    }
  }

  /** A blank search keeps every row; otherwise a row stays exactly when its
      lower-cased topic or subject name contains the trimmed, lower-cased
      search. */
  lemma SearchStepFacts(rows: seq<Row>, search: string)
    ensures JsTrim(search) == [] ==> SearchStep(rows, search) == rows
    ensures JsTrim(search) != [] ==>
      forall r :: r in SearchStep(rows, search) <==> r in rows && MatchesQuery(r, Lower(JsTrim(search)))
  {
    if JsTrim(search) != [] {
      var q := Lower(JsTrim(search));
      FilterCounts(rows, (r: Row) => MatchesQuery(r, q));
    }
  }

  /** Filtering only drops rows, never reorders them, and filtering again
      with the same controls changes nothing. */
  lemma FilterRowsFacts(rows: seq<Row>, subjectFilter: string, search: string)
    ensures IsSubsequence(FilterRows(rows, subjectFilter, search), rows)
    ensures FilterRows(FilterRows(rows, subjectFilter, search), subjectFilter, search)
         == FilterRows(rows, subjectFilter, search)
  {
    var s := SubjectStep(rows, subjectFilter);
    var f := SearchStep(s, search);
    if subjectFilter != AllSubjects {
      FilterIsSubsequence(rows, (r: Row) => r.subject == subjectFilter);
    } else {
      SubsequenceOfSelf(rows);
    }
    if JsTrim(search) != [] {
      FilterIsSubsequence(s, (r: Row) => MatchesQuery(r, Lower(JsTrim(search))));
    } else {
      SubsequenceOfSelf(s);
    }
    SubsequenceTransitive(f, s, rows);
    SubjectStepFacts(rows, subjectFilter);
    SearchStepFacts(s, search);
    if subjectFilter != AllSubjects {
      FilterKeepsAll(f, (r: Row) => r.subject == subjectFilter);
    }
    var s2 := SubjectStep(f, subjectFilter);
    assert s2 == f;
    if JsTrim(search) != [] {
      FilterKeepsAll(f, (r: Row) => MatchesQuery(r, Lower(JsTrim(search))));
    }
  }

  lemma {:induction false} SubsequenceOfSelf<T>(s: seq<T>)
    ensures IsSubsequence(s, s)
  {
    if s != [] {
      SubsequenceOfSelf(s[..|s| - 1]);
    }
  }

  lemma {:induction false} SubsequenceTransitive<T>(a: seq<T>, b: seq<T>, c: seq<T>)
    requires IsSubsequence(a, b) && IsSubsequence(b, c)
    ensures IsSubsequence(a, c)
    decreases |c|
  {
    if a != [] {
      if b[|b| - 1] == c[|c| - 1] && IsSubsequence(b[..|b| - 1], c[..|c| - 1]) {
        if a[|a| - 1] == b[|b| - 1] && IsSubsequence(a[..|a| - 1], b[..|b| - 1]) {
          SubsequenceTransitive(a[..|a| - 1], b[..|b| - 1], c[..|c| - 1]);
        } else {
          SubsequenceTransitive(a, b[..|b| - 1], c[..|c| - 1]);
        }
      } else {
        SubsequenceTransitive(a, b, c[..|c| - 1]);
      }
    }
  }

  // ---------------------------------------------------------------------
  // The three orders

  /** The time a row is sorted by: a missing time counts as 0. */
  function Stamp(r: Row): int {
    r.lastStudiedAt.GetOr(0)
  }

  /** "Most studied": count descending, then time descending, then name. */
  function ByCountDesc(a: Row, b: Row): int {
    if b.count != a.count then b.count - a.count
    else if Stamp(b) != Stamp(a) then Stamp(b) - Stamp(a)
    else CompareStrings(a.name, b.name)
  }

  /** "Recently studied": time descending, then count descending, then name. */
  function ByLastDesc(a: Row, b: Row): int {
    if Stamp(b) != Stamp(a) then Stamp(b) - Stamp(a)
    else if b.count != a.count then b.count - a.count
    else CompareStrings(a.name, b.name)
  }

  /** "Topic A to Z": name, then subject, then count descending. */
  function ByNameAsc(a: Row, b: Row): int {
    var s := CompareStrings(a.name, b.name);
    if s != 0 then s
    else if a.subject != b.subject then CompareStrings(a.subject, b.subject)
    else b.count - a.count
  }

  function Comparator(k: SortKey): (Row, Row) -> int {
    match k
    case CountDesc => ByCountDesc
    case LastDesc => ByLastDesc
    case NameAsc => ByNameAsc
  }

  /** `a` may stand before `b` under the chosen order, stated directly. */
  predicate InOrder(k: SortKey, a: Row, b: Row) {
    match k
    case CountDesc =>
      a.count > b.count
      || (a.count == b.count
          && (Stamp(a) > Stamp(b) || (Stamp(a) == Stamp(b) && CompareStrings(a.name, b.name) <= 0)))
    case LastDesc =>
      Stamp(a) > Stamp(b)
      || (Stamp(a) == Stamp(b)
          && (a.count > b.count || (a.count == b.count && CompareStrings(a.name, b.name) <= 0)))
    case NameAsc =>
      CompareStrings(a.name, b.name) < 0
      || (a.name == b.name
          && (CompareStrings(a.subject, b.subject) < 0
              || (a.subject == b.subject && a.count >= b.count)))
  }

  /** Each comparator says "not after" exactly when the rows are in the
      order it names, and never puts each of two rows after the other. */
  lemma ComparatorMeaning(k: SortKey)
    ensures forall a, b :: Comparator(k)(a, b) <= 0 <==> InOrder(k, a, b)
    ensures Antisymmetric(Comparator(k))
  {
    forall a: Row, b: Row
      ensures Comparator(k)(a, b) <= 0 <==> InOrder(k, a, b)
      ensures Comparator(k)(a, b) > 0 ==> Comparator(k)(b, a) <= 0
    {
      PairMeaning(k, a, b);
    }
  }

  lemma PairMeaning(k: SortKey, a: Row, b: Row)
    ensures Comparator(k)(a, b) <= 0 <==> InOrder(k, a, b)
    ensures Comparator(k)(a, b) > 0 ==> Comparator(k)(b, a) <= 0
  {
    CompareAntisymmetric(a.name, b.name);
    CompareAntisymmetric(a.subject, b.subject);
    match k
    case CountDesc =>
      assert Comparator(k)(a, b) == ByCountDesc(a, b) && Comparator(k)(b, a) == ByCountDesc(b, a);
    case LastDesc =>
      assert Comparator(k)(a, b) == ByLastDesc(a, b) && Comparator(k)(b, a) == ByLastDesc(b, a);
    case NameAsc =>
      assert Comparator(k)(a, b) == ByNameAsc(a, b) && Comparator(k)(b, a) == ByNameAsc(b, a);
  }

  /** The first two orders end on the topic name alone: two rows of the same
      topic name, count and time under different subjects compare equal both
      ways, and the stable sort leaves them in the order they came. */
  lemma NameTieAcrossSubjects(a: Row, b: Row, k: SortKey)
    requires k != NameAsc
    requires a.name == b.name && a.count == b.count && Stamp(a) == Stamp(b)
    ensures Comparator(k)(a, b) == 0 && Comparator(k)(b, a) == 0
    ensures InsertionSort([a, b], Comparator(k)) == [a, b]
    ensures InsertionSort([b, a], Comparator(k)) == [b, a]
  {
    var cmp := Comparator(k);
    assert cmp(a, b) == 0 && cmp(b, a) == 0;
    assert InsertionSort([a], cmp) == [a] by { assert [a][..0] == []; }
    assert InsertionSort([b], cmp) == [b] by { assert [b][..0] == []; }
    assert [a, b][..1] == [a] && [b, a][..1] == [b];
    assert Insert([a], b, cmp) == [a, b];
    assert Insert([b], a, cmp) == [b, a];
  }

  // ---------------------------------------------------------------------
  // The visible table

  /** The rows the table shows. */
  function VisibleRows(data: Option<Snapshot>, subjectFilter: string, search: string, sortBy: SortKey): seq<Row> {
    InsertionSort(FilterRows(Flatten(data), subjectFilter, search), Comparator(sortBy))
  }

  /** `flattenedRows`: flatten, filter, then sort the row list in place. */
  method FlattenedRows(data: Option<Snapshot>, subjectFilter: string, search: string, sortBy: SortKey)
    returns (rows: seq<Row>)
    ensures rows == VisibleRows(data, subjectFilter, search, sortBy)
  {
    if data.None? || data.value.subjects.None? || data.value.subjects.value == [] {
      return [];
    }
    rows := FlattenGroups(data.value.subjects.value);
    rows := SubjectStep(rows, subjectFilter);
    rows := SearchStep(rows, search);
    rows := SortList(rows, Comparator(sortBy));
  }

  /** The table holds exactly the rows that pass the filters, each as often as
      it occurs, with every adjacent pair in the chosen order. */
  lemma VisibleRowsFacts(data: Option<Snapshot>, subjectFilter: string, search: string, sortBy: SortKey)
    ensures multiset(VisibleRows(data, subjectFilter, search, sortBy))
         == multiset(FilterRows(Flatten(data), subjectFilter, search))
    ensures forall i :: 0 < i < |VisibleRows(data, subjectFilter, search, sortBy)| ==>
      InOrder(sortBy, VisibleRows(data, subjectFilter, search, sortBy)[i - 1],
                      VisibleRows(data, subjectFilter, search, sortBy)[i])
  {
    var cmp := Comparator(sortBy);
    var v := VisibleRows(data, subjectFilter, search, sortBy);
    ComparatorMeaning(sortBy);
    InsertionSortFacts(FilterRows(Flatten(data), subjectFilter, search), cmp);
    forall i | 0 < i < |v| ensures InOrder(sortBy, v[i - 1], v[i]) {
      assert cmp(v[i - 1], v[i]) <= 0;
    }
  }

  /** With the filters at their defaults every row of the snapshot is shown. */
  lemma DefaultFiltersKeepAll(rows: seq<Row>)
    ensures FilterRows(rows, AllSubjects, "") == rows
  {
    assert JsTrim("") == [];
  }

  // ---------------------------------------------------------------------
  // The subject drop-down

  function SubjectName(g: SubjectGroup): string {
    g.subject
  }

  function SameString(s: string): string {
    s
  }

  /** "ALL", then the distinct subject names of the snapshot in ascending
      order. */
  function SubjectOptions(data: Option<Snapshot>): seq<string> {
    var gs := if data.Some? && data.value.subjects.Some? then data.value.subjects.value else [];
    [AllSubjects] + InsertionSort(KeysInOrder(gs, SubjectName), CompareStrings)
  }

  /** The options start with "ALL"; after it every subject of the snapshot is
      listed once, nothing else is listed, and the names strictly ascend. */
  lemma SubjectOptionsFacts(data: Option<Snapshot>)
    ensures SubjectOptions(data)[0] == AllSubjects
    ensures forall s :: s in SubjectOptions(data)[1..] <==>
      data.Some? && data.value.subjects.Some? && exists g :: g in data.value.subjects.value && g.subject == s
    ensures forall i :: 1 < i < |SubjectOptions(data)| ==>
      CompareStrings(SubjectOptions(data)[i - 1], SubjectOptions(data)[i]) < 0
  {
    var gs := if data.Some? && data.value.subjects.Some? then data.value.subjects.value else [];
    var ks := KeysInOrder(gs, SubjectName);
    var sorted := InsertionSort(ks, CompareStrings);
    KeysInOrderFacts(gs, SubjectName);
    forall a, b ensures CompareStrings(a, b) > 0 ==> CompareStrings(b, a) <= 0 {
      CompareAntisymmetric(a, b);
    }
    InsertionSortFacts(ks, CompareStrings);
    SortedMembers(ks, CompareStrings);
    assert DistinctKeys(ks, SameString);
    InsertionSortDistinctKeys(ks, CompareStrings, SameString);
    assert SubjectOptions(data)[1..] == sorted;
    forall i | 1 < i < |SubjectOptions(data)|
      ensures CompareStrings(SubjectOptions(data)[i - 1], SubjectOptions(data)[i]) < 0
    {
      assert SubjectOptions(data)[i - 1] == sorted[i - 2] && SubjectOptions(data)[i] == sorted[i - 1];
      assert SameString(sorted[i - 2]) != SameString(sorted[i - 1]);
    }
  }
}
