/** Listing a user's recent study entries: the requested number is clamped to
    a page size, the repository returns that page, and each entry becomes a
    view with one topic summary per link that has a topic. The repository's
    paging query is a parameter. */
module StudyEntryService {
  import opened Wrappers
  import opened Seqs
  import opened Entities

  const MaxPageSize: int := 100

  function Min(a: int, b: int): int { if a <= b then a else b }

  function Max(a: int, b: int): int { if a >= b then a else b }

  /** The page size `findRecent` asks for: the limit, clamped to [1, 100]. */
  function PageSize(limit: int): (size: int)
    ensures 1 <= size <= MaxPageSize
    ensures 1 <= limit <= MaxPageSize ==> size == limit
    ensures limit < 1 ==> size == 1
    ensures limit > MaxPageSize ==> size == MaxPageSize
  {
    Max(1, Min(limit, MaxPageSize))
  }

  /** Clamping twice is clamping once. */
  lemma PageSizeIdempotent(limit: int)
    ensures PageSize(PageSize(limit)) == PageSize(limit)
  {
  }

  /** A larger limit never gives a smaller page. */
  lemma PageSizeMonotone(a: int, b: int)
    requires a <= b
    ensures PageSize(a) <= PageSize(b)
  {
  }

  /** A `PageRequest`: page number, page size and sort order. */
  datatype PageRequest = PageRequest(page: int, size: int, sortProperty: string, descending: bool)

  /** The request `findRecent` sends: the first page, newest first. */
  function RecentPage(limit: int): (p: PageRequest)
    ensures p.page == 0 && p.sortProperty == "studiedAt" && p.descending
    ensures 1 <= p.size <= MaxPageSize && (1 <= limit <= MaxPageSize ==> p.size == limit)
  {
    PageRequest(0, PageSize(limit), "studiedAt", true)
  }

  /** `StudyDtos.EntryView`. */
  datatype EntryView = EntryView(id: int, originalSentence: string, studiedAt: Option<Instant>, topics: seq<TopicSummary>)

  predicate HasTopic(link: StudyEntryTopic) {
    link.topic.Some?
  }

  /** The summary of a link with a topic: one study, the link's flag, the
      entry's time. */
  function LinkSummary(link: StudyEntryTopic, studiedAt: Option<Instant>): TopicSummary
    requires HasTopic(link)
  {
    TopicSummary(link.topic.value.name, 1, IsPriority(link), studiedAt)
  }

  /** The stream over the links: links without a topic are skipped, the
      others summarised in order. */
  function Summaries(links: seq<StudyEntryTopic>, studiedAt: Option<Instant>): seq<TopicSummary> {
    if links == [] then []
    else
      var last := links[|links| - 1];
      Summaries(links[..|links| - 1], studiedAt) + (if HasTopic(last) then [LinkSummary(last, studiedAt)] else [])
  }

  /** `toEntryView`. An unset link list reads as empty. */
  function ToEntryView(e: StudyEntry): EntryView {
    EntryView(e.id, e.originalSentence, e.studiedAt, Summaries(e.studyEntryTopics.GetOr([]), e.studiedAt))
  }

  /** The summaries are exactly the links that have a topic, one each and in
      the same order: the i-th summary is the i-th such link's topic name,
      counted once, priority exactly when the flag is set to true, studied at
      the given time. */
  lemma {:induction false} SummariesOfKeptLinks(links: seq<StudyEntryTopic>, studiedAt: Option<Instant>)
    ensures var kept := Filter(links, HasTopic);
      && |Summaries(links, studiedAt)| == |kept|
      && forall i :: 0 <= i < |kept| ==>
        && kept[i].topic.Some?
        && Summaries(links, studiedAt)[i] == TopicSummary(kept[i].topic.value.name, 1, kept[i].isPriority == Some(true), studiedAt)
  {
    if links != [] {
      var p := links[..|links| - 1];
      var last := links[|links| - 1];
      SummariesOfKeptLinks(p, studiedAt);
      assert links == p + [last];
      FilterConcat(p, [last], HasTopic);
      assert Filter([last], HasTopic) == if HasTopic(last) then [last] else [] by {
        assert [last][..0] == [];
      }
    }
  }

  /** When every link has a topic, nothing is dropped. */
  lemma {:induction false} AllLinksKept(links: seq<StudyEntryTopic>, studiedAt: Option<Instant>)
    requires forall l :: l in links ==> HasTopic(l)
    ensures |Summaries(links, studiedAt)| == |links|
  {
    if links != [] {
      AllLinksKept(links[..|links| - 1], studiedAt);
    }
  }

  /** The view copies the entry's id, sentence and time; an entry without
      links has no topics; every summary counts one study at the entry's
      time. */
  lemma EntryViewFacts(e: StudyEntry)
    ensures ToEntryView(e).id == e.id && ToEntryView(e).originalSentence == e.originalSentence
    ensures ToEntryView(e).studiedAt == e.studiedAt
    ensures e.studyEntryTopics.None? ==> ToEntryView(e).topics == []
    ensures forall t :: t in ToEntryView(e).topics ==> t.count == 1 && t.lastStudiedAt == e.studiedAt
  {
    var links := e.studyEntryTopics.GetOr([]);
    SummariesOfKeptLinks(links, e.studiedAt);
    forall t | t in ToEntryView(e).topics
      ensures t.count == 1 && t.lastStudiedAt == e.studiedAt
    {
      var i :| 0 <= i < |ToEntryView(e).topics| && ToEntryView(e).topics[i] == t;
    }
  }

  /** `findRecent(userId, limit)`, given the repository's paging query
      `findByUserId`: one view per entry of the page it returns for the
      clamped request, in the page's order. */
  function FindRecent(userId: int, limit: int, findByUserId: (int, PageRequest) -> seq<StudyEntry>): (views: seq<EntryView>)
    ensures var page := findByUserId(userId, RecentPage(limit));
      |views| == |page| && forall i :: 0 <= i < |page| ==> views[i] == ToEntryView(page[i])
  {
    MapSeq(findByUserId(userId, RecentPage(limit)), ToEntryView)
  }

  /** A repository that honours the page size never yields more than 100
      views. */
  lemma RecentIsBounded(userId: int, limit: int, findByUserId: (int, PageRequest) -> seq<StudyEntry>)
    requires |findByUserId(userId, RecentPage(limit))| <= RecentPage(limit).size
    ensures |FindRecent(userId, limit, findByUserId)| <= MaxPageSize
  {
  }
}
