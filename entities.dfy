/** The persisted records the services read (study entries, their topic
    links, topics and subjects), the summaries they return, and the time
    values they compare. References the database may leave unset are
    `Option`s; identifiers are plain integers. */
module Entities {
  import opened Wrappers
  import opened Seqs

  /** A `LocalDate`, as a day number. */
  type Day = int

  /** A `LocalDateTime`, as nanoseconds from midnight of day 0. */
  type Instant = int

  const NanosPerDay: int := 86_400_000_000_000

  /** `LocalDate.atStartOfDay()`. */
  function AtStartOfDay(d: Day): Instant {
    d * NanosPerDay
  }

  /** `LocalDate.atTime(LocalTime.MAX)`: the last nanosecond of the day. It is
      the instant one nanosecond before the next day starts, the end that
      `plusDays(1).atStartOfDay().minusNanos(1)` computes. */
  function AtEndOfDay(d: Day): (t: Instant)
    ensures AtStartOfDay(d) < t == AtStartOfDay(d + 1) - 1
  {
    d * NanosPerDay + (NanosPerDay - 1)
  }

  /** The day an instant falls on. */
  function DayOf(t: Instant): Day {
    t / NanosPerDay
  }

  /** An instant lies between the start of day `d1` and the end of day `d2`
      exactly when its day lies in `[d1, d2]`. */
  lemma DayWindow(t: Instant, d1: Day, d2: Day)
    ensures AtStartOfDay(d1) <= t <= AtEndOfDay(d2) <==> d1 <= DayOf(t) <= d2
  {
    var d := DayOf(t);
    assert d * NanosPerDay <= t < (d + 1) * NanosPerDay;
    if d1 <= d {
      assert d1 * NanosPerDay <= d * NanosPerDay;
    } else {
      assert (d + 1) * NanosPerDay <= d1 * NanosPerDay;
    }
    if d <= d2 {
      assert (d + 1) * NanosPerDay <= (d2 + 1) * NanosPerDay;
    } else {
      assert (d2 + 1) * NanosPerDay <= d * NanosPerDay;
    }
  }

  datatype Subject = Subject(name: string)

  datatype Topic = Topic(name: string, subject: Option<Subject>)

  /** The link between an entry and one of its topics. */
  datatype StudyEntryTopic = StudyEntryTopic(topic: Option<Topic>, isPriority: Option<bool>)

  /** `getIsPriority()`: an unset flag reads as false. */
  function IsPriority(link: StudyEntryTopic): (r: bool)
    ensures r <==> link.isPriority == Some(true)
  {
    link.isPriority.GetOr(false)
  }

  datatype StudyEntry = StudyEntry(
    id: int,
    user: Option<int>,
    originalSentence: string,
    studiedAt: Option<Instant>,
    studyEntryTopics: Option<seq<StudyEntryTopic>>)

  datatype TopicSummary = TopicSummary(name: string, count: int, isPriority: bool, lastStudiedAt: Option<Instant>)

  datatype SubjectSummary = SubjectSummary(subject: string, topics: seq<TopicSummary>, totalStudies: int)

  function TopicName(t: TopicSummary): string { t.name }

  function TopicCount(t: TopicSummary): int { t.count }

  function SubjectName(s: SubjectSummary): string { s.subject }

  function TotalStudies(s: SubjectSummary): int { s.totalStudies }

  /** The row filter of `findByUser_IdAndStudiedAtBetween`; an unset time is
      never between anything. */
  predicate InWindow(e: StudyEntry, userId: int, from: Instant, to: Instant) {
    e.user == Some(userId) && e.studiedAt.Some? && from <= e.studiedAt.value <= to
  }

  /** The repository query `findByUser_IdAndStudiedAtBetween`: the user's
      entries whose time lies in `[from, to]`, in storage order. */
  function StudiedBetween(store: seq<StudyEntry>, userId: int, from: Instant, to: Instant): (r: seq<StudyEntry>)
    ensures forall e :: e in r <==> (e in store && InWindow(e, userId, from, to))
  {
    FilterCounts(store, (e: StudyEntry) => InWindow(e, userId, from, to));
    Filter(store, (e: StudyEntry) => InWindow(e, userId, from, to))
  }
}
