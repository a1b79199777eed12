# knowtify, modelled in Dafny

knowtify is a study journal. A user writes sentences such as "I studied
heaps, !tries". A rule-based parser, or a language model with a rule-based
fallback, turns each sentence into topics; a topic marked with `!` is a
priority. The server aggregates a user's study entries into a knowledge
map and a weekly report. The web page shows the knowledge map as a
filterable, sortable table, with one colour per subject.

This project models that data path and proves what each step promises:

| file | module | models |
|---|---|---|
| `topic_parsing.dfy` | `TopicParsing` | `TopicParsingService.parseSentence` and its leading-phrase rule |
| `gemini_parsing.dfy` | `GeminiParsing` | the reply cleaning, field defaults and array loop of `parseGeminiResponse`; `fallbackParsing`; the fallback rule of `parseStudyEntry` |
| `knowledge_map_service.dfy` | `KnowledgeMapService` | `getKnowledgeMap`, including the `TopicAccumulator` class |
| `report_service.dfy` | `ReportService` | `generateWeeklyReport` |
| `knowledge_map_controller.dfy` | `KnowledgeMapController` | the checks of the knowledge-map endpoint |
| `study_entry_service.dfy` | `StudyEntryService` | `findRecent` and `toEntryView` |
| `jwt_auth_filter.dfy` | `JwtAuthFilter` | `extractTokenFromHeader` and `doFilterInternal` |
| `knowledge_map_view.dfy` | `KnowledgeMapView` | `flattenedRows` and `subjectOptions` of the Knowledge Map page |
| `knowledge_map_page.dfy` | `KnowledgeMapPage` | the page state and its handlers: `load`, the mode buttons, "Apply", `clearRange`, "Reset filters" |
| `colors.dfy` | `Colors` | `subjectColor` and its palette |

Shared modules:

- `Wrappers`: `Option` and `Result`.
- `Text`: the string primitives of Java and JavaScript that the code uses.
  These are the `trim` variants, white-space classes, ASCII lower-casing,
  splitting on a character, and lexicographic comparison.
- `Seqs`: filters, grouping keys and sums over sequences.
- `Sorting`: one stable insertion sort, as a function. An in-place version
  on an array is proved equal to it.
- `LinkedMaps`: an insertion-ordered map, modelling `LinkedHashMap`.
- `Entities`: the persisted records, the date and time arithmetic, and the
  repository's date-window query.

Modelling choices:

- Timestamps are integers. A `LocalDateTime` is a count of nanoseconds, a
  `LocalDate` is a day number, and a `Date.parse` result is a count of
  milliseconds.
- Java `null` is `Option.None`.
- A `NullPointerException` the code can throw becomes a `Failure` result.
- Several things are parameters of the model:
  - the JSON reader;
  - the language-model call;
  - the token utility's two reads;
  - the repository's paging query;
  - the server's answer to a page request;
  - the calendar's current year, current week and week-to-dates function.
- Where the code loops and reassigns, the model has a method with a loop.
  That method is proved equal to a function, and the properties are lemmas
  about the function.
- In-place sorts run on an `array` (`Sorting.SortInPlace`).
- The accumulator and the page state are classes.

## Model

| member | source | states |
|---|---|---|
| TopicParsing.SpaceRunEnd | knowtify/src/main/java/com/knowtify/service/TopicParsingService.java:11 | the end of the run of `\s` characters starting at a position: everything before it is white space, the character at it is not |
| TopicParsing.PhraseEnd | knowtify/src/main/java/com/knowtify/service/TopicParsingService.java:11 | a match of the leading study phrase (with or without "i" and white space) ends at least 7 characters in and within the sentence |
| TopicParsing.LeadingMatchEnd | knowtify/src/main/java/com/knowtify/service/TopicParsingService.java:11 | the match of the whole leading-phrase pattern (phrase, white space, optional '!') ends within the sentence |
| TopicParsing.PhraseRemoved | knowtify/src/main/java/com/knowtify/service/TopicParsingService.java:11-20 | "studied" or "learned" in any ASCII case, then white space, then an optional '!', is removed from the front, leaving exactly the rest; a '!' right after the phrase therefore marks nothing |
| TopicParsing.IPhraseRemoved | knowtify/src/main/java/com/knowtify/service/TopicParsingService.java:11-20 | "i", white space, then "studied" or "learned", then white space and an optional '!', is removed from the front, leaving exactly the rest |
| TopicParsing.AnyPriority | knowtify/src/main/java/com/knowtify/service/TopicParsingService.java:34 | the or-merged flag of a name is true exactly when some mention of it carried '!' |
| TopicParsing.ParseSentence | knowtify/src/main/java/com/knowtify/service/TopicParsingService.java:15-40 | the loops of `parseSentence` compute the merged topic list of the sentence (empty for an absent or blank sentence) |
| TopicParsing.MergeSegments | knowtify/src/main/java/com/knowtify/service/TopicParsingService.java:22-35 | the segment loop leaves `dedup` as the merge of the segments' mentions |
| TopicParsing.NormalizeSegment | knowtify/src/main/java/com/knowtify/service/TopicParsingService.java:24-31 | a segment gives an empty name exactly when it is skipped, and otherwise its normalized name and '!' flag |
| TopicParsing.ListTopics | knowtify/src/main/java/com/knowtify/service/TopicParsingService.java:37-38 | the result list holds the map's entries in its key order |
| TopicParsing.MergeStep | knowtify/src/main/java/com/knowtify/service/TopicParsingService.java:34 | one more mention is one `merge`: its name maps to the old flag or-ed with its own, inserted at the end when new |
| TopicParsing.BlankParsesToNothing | knowtify/src/main/java/com/knowtify/service/TopicParsingService.java:16-18 | an absent sentence, or one of white space only, gives no topics |
| TopicParsing.MentionOfShape | knowtify/src/main/java/com/knowtify/service/TopicParsingService.java:24-31 | a kept segment's name is non-empty, trimmed and lower-case, and it is a priority exactly when the trimmed segment starts with '!' |
| TopicParsing.MentionOfSkips | knowtify/src/main/java/com/knowtify/service/TopicParsingService.java:24-31 | a segment is skipped exactly when it is blank, or nothing but white space follows its '!' |
| TopicParsing.MentionsMembers | knowtify/src/main/java/com/knowtify/service/TopicParsingService.java:23-25 | the mentions are exactly the mentions of the comma segments, at most one per segment |
| TopicParsing.TopicListOrder | knowtify/src/main/java/com/knowtify/service/TopicParsingService.java:22-38 | the output names are the mentioned names, each exactly once, in order of first mention |
| TopicParsing.TopicListPriority | knowtify/src/main/java/com/knowtify/service/TopicParsingService.java:34 | an output topic is a priority exactly when one of its mentions carried '!' |
| TopicParsing.ParsedNamesShape | knowtify/src/main/java/com/knowtify/service/TopicParsingService.java:30-31 | every output name is non-empty, trimmed and lower-case |
| GeminiParsing.IndexOf | knowtify/src/main/java/com/knowtify/service/GeminiParsingService.java:135 | `indexOf`: the first position holding the character, or -1 exactly when it does not occur |
| GeminiParsing.LastIndexOf | knowtify/src/main/java/com/knowtify/service/GeminiParsingService.java:136 | `lastIndexOf`: the last position holding the character, or -1 exactly when it does not occur |
| GeminiParsing.ExtractJsonPart | knowtify/src/main/java/com/knowtify/service/GeminiParsingService.java:120-140 | the reassignments of `jsonPart` compute the text handed to the JSON reader |
| GeminiParsing.StripOpeningFence | knowtify/src/main/java/com/knowtify/service/GeminiParsingService.java:123-128 | the opening-fence step: a leading "```" goes, and then a leading "json" tag, each followed by a trim |
| GeminiParsing.StripClosingFence | knowtify/src/main/java/com/knowtify/service/GeminiParsingService.java:129-131 | the closing-fence step: a trailing "```" goes, followed by a trim |
| GeminiParsing.CutToArray | knowtify/src/main/java/com/knowtify/service/GeminiParsingService.java:134-140 | the bracket step computes the array portion of the text |
| GeminiParsing.AbsentReply | knowtify/src/main/java/com/knowtify/service/GeminiParsingService.java:120 | an absent reply becomes the empty text |
| GeminiParsing.OpenJsonFence | knowtify/src/main/java/com/knowtify/service/GeminiParsingService.java:123-127 | on "```json" + payload + "```" the opening step leaves the payload without its leading white space, followed by the closing fence |
| GeminiParsing.OpenPlainFence | knowtify/src/main/java/com/knowtify/service/GeminiParsingService.java:123-127 | on "```" + payload + "```", where the trimmed payload does not start with "json", the opening step leaves the payload without its leading white space, followed by the closing fence |
| GeminiParsing.CloseFenceAfterPayload | knowtify/src/main/java/com/knowtify/service/GeminiParsingService.java:129-131 | removing the closing fence after that leaves the trimmed payload |
| GeminiParsing.FencedJson | knowtify/src/main/java/com/knowtify/service/GeminiParsingService.java:120-131 | a reply "```json" + payload + "```" is cleaned to the trimmed payload |
| GeminiParsing.FencedPlain | knowtify/src/main/java/com/knowtify/service/GeminiParsingService.java:120-131 | a reply "```" + payload + "```", where the trimmed payload does not start with "json", is cleaned to the trimmed payload |
| GeminiParsing.BracketPair | knowtify/src/main/java/com/knowtify/service/GeminiParsingService.java:135-137 | the guard `lb >= 0 && rb >= lb` holds exactly when the text has a '[' with a ']' at or after it |
| GeminiParsing.ArrayKept | knowtify/src/main/java/com/knowtify/service/GeminiParsingService.java:134-140 | text that neither starts with '[' nor has such a pair is left unchanged |
| GeminiParsing.ArrayCut | knowtify/src/main/java/com/knowtify/service/GeminiParsingService.java:134-139 | text that does not start with '[' but has such a pair becomes the stretch from its first '[' to its last ']' |
| GeminiParsing.ArrayCutEnds | knowtify/src/main/java/com/knowtify/service/GeminiParsingService.java:135-138 | that stretch opens with '[' and closes with ']', and no '[' is cut off before it and no ']' after it |
| GeminiParsing.BracketsTrimmed | knowtify/src/main/java/com/knowtify/service/GeminiParsingService.java:138 | the final `trim` of the cut changes nothing |
| GeminiParsing.AsText | knowtify/src/main/java/com/knowtify/service/GeminiParsingService.java:150-153 | `asText(default)`: a missing or null node gives the default, a text node its text |
| GeminiParsing.AsBoolean | knowtify/src/main/java/com/knowtify/service/GeminiParsingService.java:152 | `asBoolean(default)`: a missing node gives the default, a boolean node its value |
| GeminiParsing.TopicOfNode | knowtify/src/main/java/com/knowtify/service/GeminiParsingService.java:149-155 | missing fields default to topic "", subject "Other", priority false, reason ""; the confidence is the stated one exactly when a number is given |
| GeminiParsing.NonObjectElement | knowtify/src/main/java/com/knowtify/service/GeminiParsingService.java:149-155 | an element that is not an object becomes the all-defaults topic |
| GeminiParsing.ParseGeminiResponse | knowtify/src/main/java/com/knowtify/service/GeminiParsingService.java:118-163 | the parse fails exactly when the cleaned text cannot be read or is not an array; otherwise it gives one topic per element |
| GeminiParsing.TopicsOfArray | knowtify/src/main/java/com/knowtify/service/GeminiParsingService.java:147-156 | the element loop gives the i-th element's topic at position i |
| GeminiParsing.FallbackParsing | knowtify/src/main/java/com/knowtify/service/GeminiParsingService.java:165-189 | the fallback loop computes the fallback topic list of the sentence |
| GeminiParsing.FallbackTopicsAreFiltered | knowtify/src/main/java/com/knowtify/service/GeminiParsingService.java:172-186 | the fallback keeps one topic per non-blank segment, in order, without merging duplicates |
| GeminiParsing.FallbackTopicFacts | knowtify/src/main/java/com/knowtify/service/GeminiParsingService.java:173-185 | a fallback topic has subject "Other" and the fallback confidence; it is a priority exactly when the trimmed segment starts with '!'; its reason is "marked with !" or "regular entry" to match; "!" alone gives an empty priority topic; the name is trimmed |
| GeminiParsing.FallbackCount | knowtify/src/main/java/com/knowtify/service/GeminiParsingService.java:168-186 | the number of fallback topics is the number of non-blank comma segments of the cleaned sentence |
| GeminiParsing.ParseStudyEntry | knowtify/src/main/java/com/knowtify/service/GeminiParsingService.java:48-57 | when the model call throws or its reply fails to parse, the result is the fallback parse; otherwise it is the parsed reply |
| KnowledgeMapService.EntriesFor | knowtify/src/main/java/com/knowtify/service/KnowledgeMapService.java:27-37 | with both days, exactly the user's entries whose day lies in [start, end], the end day included; otherwise exactly the user's entries |
| KnowledgeMapService.LinksQualified | knowtify/src/main/java/com/knowtify/service/KnowledgeMapService.java:47-58 | the grouped links of an entry are exactly its links with a topic and a subject |
| KnowledgeMapService.Qualifying | knowtify/src/main/java/com/knowtify/service/KnowledgeMapService.java:42-59 | the grouped links are exactly those of the entries; an entry without a link list adds none |
| KnowledgeMapService.AccStep | knowtify/src/main/java/com/knowtify/service/KnowledgeMapService.java:110-116 | `accumulate` adds exactly one to the count, never clears the priority flag, keeps the time for an unset time, and otherwise keeps the old time or takes the new one |
| KnowledgeMapService.AccOfFacts | knowtify/src/main/java/com/knowtify/service/KnowledgeMapService.java:105-116 | after a series of `accumulate` calls the count is their number, the flag says whether any was priority, and the time is the latest set time (unset when none is set) |
| KnowledgeMapService.AccCount | knowtify/src/main/java/com/knowtify/service/KnowledgeMapService.java:111 | the count is the number of calls |
| KnowledgeMapService.AccPriority | knowtify/src/main/java/com/knowtify/service/KnowledgeMapService.java:112 | the flag is true exactly when some call was priority |
| KnowledgeMapService.AccLatest | knowtify/src/main/java/com/knowtify/service/KnowledgeMapService.java:113-115 | the time is unset exactly when every time was unset; otherwise it is one of the times and no time is later |
| KnowledgeMapService.TopicAccumulator.constructor | knowtify/src/main/java/com/knowtify/service/KnowledgeMapService.java:105-108 | a new accumulator holds count 0, no priority and no time |
| KnowledgeMapService.TopicAccumulator.Accumulate | knowtify/src/main/java/com/knowtify/service/KnowledgeMapService.java:110-116 | the fields after the call are one accumulation step applied to the fields before |
| KnowledgeMapService.SubjectTopicMapStep | knowtify/src/main/java/com/knowtify/service/KnowledgeMapService.java:54-57 | one more link updates its subject's topic map at its topic name, creating empty entries when absent, and changes nothing else |
| KnowledgeMapService.BuildSubjectTopicMap | knowtify/src/main/java/com/knowtify/service/KnowledgeMapService.java:40-59 | the nested loops leave `subjectTopicMap` as the grouping of the entries' qualifying links |
| KnowledgeMapService.AccumulateLinks | knowtify/src/main/java/com/knowtify/service/KnowledgeMapService.java:47-58 | the inner loop adds exactly the entry's qualifying links, in order |
| KnowledgeMapService.AccumulateLink | knowtify/src/main/java/com/knowtify/service/KnowledgeMapService.java:48-57 | one qualifying link is added to the map |
| KnowledgeMapService.ByRecencyMeaning | knowtify/src/main/java/com/knowtify/service/KnowledgeMapService.java:73-75 | the topic comparator says "not after" exactly for latest first, unset times last, then name ascending; it never puts each of two topics after the other |
| KnowledgeMapService.ByTotalStudiesMeaning | knowtify/src/main/java/com/knowtify/service/KnowledgeMapService.java:87-89 | the subject comparator says "not after" exactly for more studies first, then name ascending |
| KnowledgeMapService.TopicEntries | knowtify/src/main/java/com/knowtify/service/KnowledgeMapService.java:66-72 | one summary per topic key, in key order, built from that key's accumulator |
| KnowledgeMapService.SubjectEntries | knowtify/src/main/java/com/knowtify/service/KnowledgeMapService.java:61-85 | one subject summary per subject key, in key order |
| KnowledgeMapService.GetKnowledgeMap | knowtify/src/main/java/com/knowtify/service/KnowledgeMapService.java:26-103 | the method returns the response the aggregation defines: the range when both days are given, and the sorted subject summaries of the qualifying links |
| KnowledgeMapService.SummarizeSubjects | knowtify/src/main/java/com/knowtify/service/KnowledgeMapService.java:61-85 | the loop over the map's entries adds one summary per subject, in key order |
| KnowledgeMapService.TopicEntriesCount | knowtify/src/main/java/com/knowtify/service/KnowledgeMapService.java:66-78 | the topic counts of a subject add up to the sizes of its topic groups |
| KnowledgeMapService.TopicEntriesMembers | knowtify/src/main/java/com/knowtify/service/KnowledgeMapService.java:66-72 | before sorting, a subject has one summary per topic name, and each summarizes exactly that name's links |
| KnowledgeMapService.SubjectSummaryOrder | knowtify/src/main/java/com/knowtify/service/KnowledgeMapService.java:66-76 | a subject's topics are sorted latest first, unset times last, then by name, and each name occurs once |
| KnowledgeMapService.SubjectSummaryTopics | knowtify/src/main/java/com/knowtify/service/KnowledgeMapService.java:66-76 | after sorting, the topic list still holds exactly one summary per topic name of the subject |
| KnowledgeMapService.SubjectSummaryTotal | knowtify/src/main/java/com/knowtify/service/KnowledgeMapService.java:78 | a subject's total is the number of its qualifying links |
| KnowledgeMapService.SubjectLookup | knowtify/src/main/java/com/knowtify/service/KnowledgeMapService.java:62-64 | a subject's entry in the map is the topic map of exactly its links |
| KnowledgeMapService.SubjectEntriesTotal | knowtify/src/main/java/com/knowtify/service/KnowledgeMapService.java:78-84 | the subject totals add up to the sizes of the subject groups |
| KnowledgeMapService.DateRangeFacts | knowtify/src/main/java/com/knowtify/service/KnowledgeMapService.java:91-97 | the response has a date range exactly when both days are given, and then it is those days |
| KnowledgeMapService.TotalsAddUp | knowtify/src/main/java/com/knowtify/service/KnowledgeMapService.java:78-89 | summed over all subjects, the totals count every qualifying link once |
| KnowledgeMapService.SubjectEntriesMembers | knowtify/src/main/java/com/knowtify/service/KnowledgeMapService.java:61-85 | before sorting, there is one summary per subject among the links, built from exactly its links |
| KnowledgeMapService.SubjectsOrder | knowtify/src/main/java/com/knowtify/service/KnowledgeMapService.java:87-89 | subjects appear once each, ordered by total studies descending, then by name |
| KnowledgeMapService.SubjectsMembers | knowtify/src/main/java/com/knowtify/service/KnowledgeMapService.java:61-89 | the response lists exactly the subjects of the qualifying links, each with the summary of its links |
| KnowledgeMapService.PairLinks | knowtify/src/main/java/com/knowtify/service/KnowledgeMapService.java:54-56 | the links of one (subject, topic name) pair are exactly the qualifying links with that subject and name |
| KnowledgeMapService.TopicInSubjects | knowtify/src/main/java/com/knowtify/service/KnowledgeMapService.java:54-72 | a listed topic stands for at least one link and is the accumulation of exactly its pair's links |
| KnowledgeMapService.TopicStatsFacts | knowtify/src/main/java/com/knowtify/service/KnowledgeMapService.java:54-71 | each listed (subject, topic) has at least one link; its count is their number, its flag says whether any was priority, and its time is the latest set time among them |
| ReportService.EntryLinksFacts | knowtify/src/main/java/com/knowtify/service/ReportService.java:43 | reading an entry's links succeeds exactly when each has a topic with a subject and the entry a time; then there is one reading per link |
| ReportService.CollectLinksFacts | knowtify/src/main/java/com/knowtify/service/ReportService.java:42-44 | collecting succeeds exactly when every entry is readable; then there is one reading per link and the readings are those of the entries' links |
| ReportService.AnyPriority | knowtify/src/main/java/com/knowtify/service/ReportService.java:71-72 | `anyMatch(getIsPriority)` is true exactly when some link is a priority |
| ReportService.Latest | knowtify/src/main/java/com/knowtify/service/ReportService.java:74-77 | `max(...).orElse(null)` is unset exactly for no links; otherwise it is one of the times and no time is later |
| ReportService.ReportTopics | knowtify/src/main/java/com/knowtify/service/ReportService.java:67-86 | one topic summary per topic key, in key order, from that key's links |
| ReportService.OrdersMeaning | knowtify/src/main/java/com/knowtify/service/ReportService.java:94-115 | each of the three comparators says "not after" exactly for its order: count then name; total studies only; latest first with unset times last |
| ReportService.SubjectReports | knowtify/src/main/java/com/knowtify/service/ReportService.java:55-104 | one subject summary per subject key, in key order, from that key's links |
| ReportService.GenerateWeeklyReport | knowtify/src/main/java/com/knowtify/service/ReportService.java:27-127 | the method returns the report the grouping and sorting define, or the failure of an unset link list, topic or subject |
| ReportService.SummarizeSubjects | knowtify/src/main/java/com/knowtify/service/ReportService.java:55-104 | the outer loop adds one summary per subject and appends each subject's urgent topics |
| ReportService.SummarizeTopics | knowtify/src/main/java/com/knowtify/service/ReportService.java:67-91 | the inner loop adds one summary per topic and collects exactly the priority ones, in the same order |
| ReportService.WeekEntriesMembers | knowtify/src/main/java/com/knowtify/service/ReportService.java:35-39 | the week's entries are exactly the user's entries whose day lies between the week's Monday and Sunday, both included |
| ReportService.WeeklyReportFails | knowtify/src/main/java/com/knowtify/service/ReportService.java:42-63 | the report fails exactly when an entry of the week has no link list, or has a link without a topic or whose topic has no subject |
| ReportService.WeeklyReportWeek | knowtify/src/main/java/com/knowtify/service/ReportService.java:29-30 | the report is for the requested year and week, with the current ones used only where none is given, and it carries that week's dates |
| ReportService.ReportTopicsCount | knowtify/src/main/java/com/knowtify/service/ReportService.java:67-84 | the topic counts add up to the sizes of the topic groups |
| ReportService.SubjectReportTotal | knowtify/src/main/java/com/knowtify/service/ReportService.java:102 | a subject's total is the number of its links, and so is the sum of its topic counts |
| ReportService.SubjectReportsTotal | knowtify/src/main/java/com/knowtify/service/ReportService.java:99-104 | the subject totals add up to the sizes of the subject groups |
| ReportService.ReportTotals | knowtify/src/main/java/com/knowtify/service/ReportService.java:99-107 | summed over the subjects, the totals count every link of the week once |
| ReportService.ReportTopicsMembers | knowtify/src/main/java/com/knowtify/service/ReportService.java:67-86 | before sorting, a subject has one summary per topic name, summarizing exactly that name's links |
| ReportService.SubjectReportTopics | knowtify/src/main/java/com/knowtify/service/ReportService.java:93-97 | a subject's topics appear once each, ordered by count descending, then by name |
| ReportService.SubjectReportsMembers | knowtify/src/main/java/com/knowtify/service/ReportService.java:55-104 | before sorting, there is one summary per subject, built from exactly its links |
| ReportService.ReportSubjectsOrder | knowtify/src/main/java/com/knowtify/service/ReportService.java:106-107 | subjects appear once each and totals never increase down the list |
| ReportService.ReportSubjectsMembers | knowtify/src/main/java/com/knowtify/service/ReportService.java:55-107 | the report lists exactly the subjects of the week's links, each with the summary of its links |
| ReportService.PairLinks | knowtify/src/main/java/com/knowtify/service/ReportService.java:47-63 | the links of one (subject, topic name) pair are exactly the links with that subject and name |
| ReportService.ReportTopicFacts | knowtify/src/main/java/com/knowtify/service/ReportService.java:67-84 | each listed topic has at least one link; its count is their number, its flag says whether any was priority, and its time is the latest of theirs |
| ReportService.TopicInReport | knowtify/src/main/java/com/knowtify/service/ReportService.java:60-86 | a listed topic is the summary of exactly its pair's links |
| ReportService.UrgentAllCounts | knowtify/src/main/java/com/knowtify/service/ReportService.java:88-90 | the collected urgent topics are, as a multiset, the priority topics of all subject summaries |
| ReportService.ReportUrgentFacts | knowtify/src/main/java/com/knowtify/service/ReportService.java:88-115 | the urgent list holds every priority topic summary, each as often as it occurs, latest first and unset times last |
| KnowledgeMapController.GetKnowledgeMap | knowtify/src/main/java/com/knowtify/controller/KnowledgeMapController.java:34-48 | 401 exactly without a user; 400 exactly with a user and only one date, or the end before the start; otherwise 200 with the service's map for the user and dates; a body only with 200 |
| KnowledgeMapController.SingleDayAccepted | knowtify/src/main/java/com/knowtify/controller/KnowledgeMapController.java:42-48 | equal dates are accepted, and the response echoes that one-day range |
| KnowledgeMapController.NoDatesMeansAllTime | knowtify/src/main/java/com/knowtify/controller/KnowledgeMapController.java:39-48 | without dates the answer is 200, has no range, and covers every entry of the user |
| StudyEntryService.PageSize | knowtify/src/main/java/com/knowtify/service/StudyEntryService.java:107 | the page size lies in [1, 100]; a limit in that range is kept; smaller limits give 1 and larger ones 100 |
| StudyEntryService.PageSizeIdempotent | knowtify/src/main/java/com/knowtify/service/StudyEntryService.java:107 | clamping a clamped size changes nothing |
| StudyEntryService.PageSizeMonotone | knowtify/src/main/java/com/knowtify/service/StudyEntryService.java:107 | a larger limit never gives a smaller page |
| StudyEntryService.RecentPage | knowtify/src/main/java/com/knowtify/service/StudyEntryService.java:107 | the request is page 0, newest `studiedAt` first, with the clamped size |
| StudyEntryService.SummariesOfKeptLinks | knowtify/src/main/java/com/knowtify/service/StudyEntryService.java:119-127 | the summaries correspond one to one, in order, to the links with a topic: the topic's name, count 1, priority exactly when the flag is true, the entry's time |
| StudyEntryService.AllLinksKept | knowtify/src/main/java/com/knowtify/service/StudyEntryService.java:119-127 | when every link has a topic, there is one summary per link |
| StudyEntryService.EntryViewFacts | knowtify/src/main/java/com/knowtify/service/StudyEntryService.java:112-130 | id, sentence and time are copied; an unset link list gives no topics; each summary counts one study at the entry's time |
| StudyEntryService.FindRecent | knowtify/src/main/java/com/knowtify/service/StudyEntryService.java:106-110 | one view per entry of the page returned for the clamped request, in the page's order |
| StudyEntryService.RecentIsBounded | knowtify/src/main/java/com/knowtify/service/StudyEntryService.java:107-109 | a repository that honours the page size yields at most 100 views |
| JwtAuthFilter.ExtractToken | knowtify/src/main/java/com/knowtify/config/JwtAuthFilter.java:57-63 | an absent or blank header gives no token; a token is returned exactly when the header starts with "Bearer " (case-sensitive), and the prefix followed by it is the header |
| JwtAuthFilter.TokenRoundTrip | knowtify/src/main/java/com/knowtify/config/JwtAuthFilter.java:59-60 | any token sent after the prefix is read back unchanged |
| JwtAuthFilter.PrefixAloneGivesEmptyToken | knowtify/src/main/java/com/knowtify/config/JwtAuthFilter.java:59-60 | the header "Bearer " alone gives the empty token, not an absent one |
| JwtAuthFilter.SchemeIsExact | knowtify/src/main/java/com/knowtify/config/JwtAuthFilter.java:26 | a lower-case scheme, or the scheme without its space, gives no token |
| JwtAuthFilter.Authentication | knowtify/src/main/java/com/knowtify/config/JwtAuthFilter.java:32-47 | a user is authenticated exactly when there is a token and both reads of it succeed |
| JwtAuthFilter.BearerHeaderAuthenticates | knowtify/src/main/java/com/knowtify/config/JwtAuthFilter.java:32-46 | a header carrying a token that both reads accept authenticates the user read from that token |
| JwtAuthFilter.RequestContext.DoFilterInternal | knowtify/src/main/java/com/knowtify/config/JwtAuthFilter.java:29-55 | the chain runs exactly once; the authentication is set when the token checks out and left alone otherwise |
| JwtAuthFilter.FilterFreshRequest | knowtify/src/main/java/com/knowtify/config/JwtAuthFilter.java:29-55 | on a fresh request the filter authenticates exactly when the token checks out, and the chain runs once |
| KnowledgeMapView.RowsOf | knowtify-frontend/src/pages/KnowledgeMap.jsx:89-95 | one row per topic of a subject |
| KnowledgeMapView.FlattenFacts | knowtify-frontend/src/pages/KnowledgeMap.jsx:88-96 | the rows number the topics of all subjects, and each row is the row of one topic (missing count 0, flag true only when true) |
| KnowledgeMapView.FlattenCount | knowtify-frontend/src/pages/KnowledgeMap.jsx:85-96 | no snapshot or no subject list gives no rows; otherwise the row count is the total number of topics |
| KnowledgeMapView.SubjectStepFacts | knowtify-frontend/src/pages/KnowledgeMap.jsx:99-101 | "ALL" removes nothing; any other filter keeps exactly the rows of that subject |
| KnowledgeMapView.SearchStepFacts | knowtify-frontend/src/pages/KnowledgeMap.jsx:102-108 | a blank search keeps every row; otherwise a row stays exactly when its lower-cased name or subject contains the trimmed, lower-cased search |
| KnowledgeMapView.FilterRowsFacts | knowtify-frontend/src/pages/KnowledgeMap.jsx:99-108 | filtering keeps an order-preserving subsequence, and filtering again with the same controls changes nothing |
| KnowledgeMapView.ComparatorMeaning | knowtify-frontend/src/pages/KnowledgeMap.jsx:111-133 | each comparator says "not after" exactly for its chain of keys, and never puts each of two rows after the other |
| KnowledgeMapView.NameTieAcrossSubjects | knowtify-frontend/src/pages/KnowledgeMap.jsx:112-126 | under the count and recency orders two rows of different subjects with the same name, count and time compare equal and keep their order |
| KnowledgeMapView.FlattenedRows | knowtify-frontend/src/pages/KnowledgeMap.jsx:84-137 | the method computes the flattened, filtered and sorted rows |
| KnowledgeMapView.VisibleRowsFacts | knowtify-frontend/src/pages/KnowledgeMap.jsx:110-135 | the table is a permutation of the filtered rows, with each adjacent pair in the chosen order |
| KnowledgeMapView.DefaultFiltersKeepAll | knowtify-frontend/src/pages/KnowledgeMap.jsx:99-108 | with "ALL" and an empty search every row passes |
| KnowledgeMapView.SubjectOptionsFacts | knowtify-frontend/src/pages/KnowledgeMap.jsx:78-81 | the options are "ALL" followed by exactly the snapshot's subject names, each once, in ascending order |
| KnowledgeMapPage.RequestFor | knowtify-frontend/src/pages/KnowledgeMap.jsx:38-52 | all-time and week modes always fetch; range mode fetches exactly when both dates are set |
| KnowledgeMapPage.Page.constructor | knowtify-frontend/src/pages/KnowledgeMap.jsx:7-26 | the page starts in all-time mode, loading, with no data, empty dates and default controls |
| KnowledgeMapPage.Page.Load | knowtify-frontend/src/pages/KnowledgeMap.jsx:34-60 | a missing date sends nothing and sets the error with no data; a thrown fetch sets the error with no data; a body becomes the data; loading ends; other controls stay |
| KnowledgeMapPage.Page.SelectMode | knowtify-frontend/src/pages/KnowledgeMap.jsx:62-65 | a mode button sets the mode; when the mode changes it sends the request for the new mode and the current dates, and leaves data and error as that load does (none and the prompt for both dates, none and the failure notice, or the body); otherwise nothing changes; dates and table controls stay |
| KnowledgeMapPage.Page.ApplyRange | knowtify-frontend/src/pages/KnowledgeMap.jsx:67-69 | "Apply" loads the range with the current dates, sending a request exactly when both are set, and leaves data and error as that load does; mode, dates and table controls stay |
| KnowledgeMapPage.Page.ClearRange | knowtify-frontend/src/pages/KnowledgeMap.jsx:62-75 | both dates are emptied and the mode becomes all time; leaving another mode runs the all-time load (data becomes the body, or none with the failure notice); already in all-time mode, data and error stay; table controls stay |
| KnowledgeMapPage.Page.ResetFilters | knowtify-frontend/src/pages/KnowledgeMap.jsx:263-268 | every table control returns to its default, and the table then shows every row, most studied first |
| Colors.UnitsOf | knowtify-frontend/src/utils/colors.js:14 | a character is one UTF-16 code unit below U+10000 and a surrogate pair above; every unit is below 2^16 |
| Colors.CodeUnits | knowtify-frontend/src/utils/colors.js:14 | a string has at least as many code units as characters, each below 2^16 |
| Colors.CodeUnitsOfBasic | knowtify-frontend/src/utils/colors.js:14 | for a string below U+10000, `charCodeAt(i)` is the i-th character's code |
| Colors.HashOf | knowtify-frontend/src/utils/colors.js:13-14 | the hash always lies in [0, 2^32) |
| Colors.HashIsPolynomialMod | knowtify-frontend/src/utils/colors.js:14 | reducing mod 2^32 after every step is the polynomial over the code units with base 31, reduced once |
| Colors.StepIsExact | knowtify-frontend/src/utils/colors.js:14 | `hash * 31 + unit` stays below 2^53, so JavaScript computes it exactly |
| Colors.SubjectColor | knowtify-frontend/src/utils/colors.js:12-16 | the loop's result is the palette entry at the hash of the name's code units mod 7, and always one of the palette's entries |
| Colors.SubjectColorIsPolynomial | knowtify-frontend/src/utils/colors.js:14-15 | the chosen entry depends only on the polynomial of the code units mod 2^32 |
| Colors.EmptyNameIsBlue | knowtify-frontend/src/utils/colors.js:12-15 | an empty or omitted name is blue |
| Colors.SingleCharacterColor | knowtify-frontend/src/utils/colors.js:14 | a one-character name below U+10000 hashes to its character code |
| Entities.IsPriority | knowtify/src/main/java/com/knowtify/entity/StudyEntryTopic.java:36-38 | `getIsPriority()` is true exactly when the flag is set to true |
| Entities.AtEndOfDay | knowtify/src/main/java/com/knowtify/service/ReportService.java:36 | `atTime(LocalTime.MAX)` is one nanosecond before the next day starts |
| Entities.DayWindow | knowtify/src/main/java/com/knowtify/service/KnowledgeMapService.java:29-31 | an instant is between the start of one day and the end of another exactly when its day lies between them |
| Entities.StudiedBetween | knowtify/src/main/java/com/knowtify/service/ReportService.java:38-39 | `findByUser_IdAndStudiedAtBetween` returns exactly the user's entries with a time inside the window |
| Sorting.CompareInts | knowtify/src/main/java/com/knowtify/service/ReportService.java:95 | `Integer.compare` is negative, zero or positive as the first number is smaller, equal or larger |
| Sorting.InsertionSortFacts | knowtify/src/main/java/com/knowtify/service/KnowledgeMapService.java:87-89 | for an antisymmetric comparator, the stable sort is sorted and a permutation of its input |
| Sorting.SortInPlace | knowtify-frontend/src/pages/KnowledgeMap.jsx:135 | sorting the array in place leaves it equal to the stable sort of its old contents |
| Sorting.SortList | knowtify/src/main/java/com/knowtify/service/ReportService.java:94-97 | `List.sort` leaves the list equal to the stable sort of its contents |
| LinkedMaps.PutFacts | knowtify/src/main/java/com/knowtify/service/TopicParsingService.java:34 | putting into the insertion-ordered map sets that key only, appending it when new and keeping its place otherwise |
| LinkedMaps.GroupByFacts | knowtify/src/main/java/com/knowtify/service/ReportService.java:47-50 | grouping has a key exactly for each key that occurs, and each key's value summarizes exactly the elements with that key |
| Seqs.PartitionCount | knowtify/src/main/java/com/knowtify/service/ReportService.java:47-50 | the groups' sizes add up to the number of elements grouped |
| Text.TrimWithFacts | knowtify/src/main/java/com/knowtify/service/TopicParsingService.java:24 | a trimmed string has no white space at either end, trimming twice is trimming once, and it is empty exactly when the string is all white space |
| Text.LowerFacts | knowtify/src/main/java/com/knowtify/service/TopicParsingService.java:30 | lower-cased text has no upper-case letter, is its own lower-case form, keeps its length and stays trimmed |
| Text.SplitJoin | knowtify/src/main/java/com/knowtify/service/TopicParsingService.java:23 | joining the pieces of a split with the separator gives back the text |
| Text.JoinSplit | knowtify/src/main/java/com/knowtify/service/TopicParsingService.java:23 | splitting joined pieces that do not contain the separator gives back the pieces |
| Text.CompareAntisymmetric | knowtify/src/main/java/com/knowtify/service/KnowledgeMapService.java:75 | swapping the operands of `compareTo` negates its sign |
| Text.CompareTransitive | knowtify/src/main/java/com/knowtify/service/KnowledgeMapService.java:75 | "not after" under `compareTo` is transitive |

## Left out

- I/O, the network and JSON libraries:
  - The language-model call (`createAnalysisPrompt`, `callGeminiAPI`, `extractContentFromResponse`) is a parameter: the reply, or `None` when the call throws.
  - The JSON reader is a parameter that gives a tree or fails.
  - Logging is not modelled.
- Persistence:
  - The repositories are parameters or sequence filters.
  - `createStudyEntry` and `findRecentEntriesForUser` are database find-or-create and bare queries, and are not part of this model.
  - The repository's storage order is the order of the `store` sequence.
- The token utility (signature, expiry, claims) is a pair of parameter functions. `None` stands for a read that throws.
- The calendar (`WeekUtil`) is a parameter: the current year and week, and the week's Monday and Sunday.
- Confidence doubles (0.3, 0.5 and the model's numbers) are tags, not numbers. Timestamps are integers. A `Date.parse` that gives `NaN` for a malformed time is not modelled. The page receives times already parsed.
- Host string semantics:
  - Lower-casing is ASCII only.
  - `localeCompare` and `compareTo` are both lexicographic comparison by code point.
  - The regex `\s` is Java's default class.
  - `trim` is Java's (`c <= ' '`) or ECMAScript's white-space set, as each side uses.
- Java `split` drops trailing empty pieces, and the model's `Split` keeps them. Every consumer skips empty segments, so the results agree.
- Grouping order:
  - `Collectors.groupingBy` returns a `HashMap`. Its iteration order is modelled as the order of first occurrence.
  - For the report's subject list, that order only decides between subjects with equal totals. The model proves nothing about it.
- Integers are unbounded. `int` counts and sums cannot overflow in the model. `Colors.StepIsExact` shows that the one arithmetic the page relies on is exact.
- GeminiParsing.FallbackParsing: a `null` sentence throws a `NullPointerException` in `fallbackParsing`. The model takes a present sentence.
- GeminiParsing.ParseStudyEntry: takes a present sentence as well. With a `null` sentence the source still builds a prompt (the concatenation gives "null") and returns a successful reply as parsed; that case is not modelled.
- KnowledgeMapService.AccumulateLink: the map holds accumulator values (`TopicAccumulator.State()`), stepped with `AccStep` and put back. The source mutates the accumulator object the map refers to; that sharing is not modelled.
- The page:
  - The `useEffect` trigger, the `async` timing and races between overlapping loads are not modelled. A mode change, from a mode button or from "Clear", runs its load at once (`KnowledgeMapPage.Page.SelectMode`, `KnowledgeMapPage.Page.ClearRange`).
  - The date inputs' `min`/`max` limits and the JSX rendering are presentation only.
- Thin controllers, DTO validation annotations, the UI pages other than the Knowledge Map, and authentication endpoints are not part of this model.

Behaviour of the code a reader may not expect:

- A failed fetch, or a range load with a date missing, sets `data` to null. The previous snapshot is not kept.
- The "Most studied" and "Recently studied" orders end on the topic name alone. Rows of different subjects can tie, so the order is not strict (`KnowledgeMapView.NameTieAcrossSubjects`).
- The report sorts subjects by total only, with no name tie-break.
- The report throws when an entry of the week has no link list, or a link lacks a topic or subject. The model returns a failure there (`ReportService.WeeklyReportFails`).
