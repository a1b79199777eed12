/** The rule-based sentence parser: a leading "I studied" / "learned" phrase
    is removed, the rest is split on commas, a leading '!' marks a topic as a
    priority, and topics are lower-cased and merged by name. */
module TopicParsing {
  import opened Wrappers
  import opened Text
  import opened Seqs
  import opened LinkedMaps

  /** One parsed topic: its normalized name and whether it is a priority. */
  datatype ParsedTopic = ParsedTopic(name: string, isPriority: bool)

  /** One non-empty comma segment, before merging: its normalized name and
      whether that segment carried the '!' mark. */
  datatype Mention = Mention(name: string, priority: bool)

  // ---------------------------------------------------------------------
  // The leading-phrase rule: `^(i\s+studied|studied|i\s+learned|learned)\s*!?`,
  // case-insensitive (ASCII), anchored at the start of the input.
  // ---------------------------------------------------------------------

  /** The lower-case word `w` occurs at offset `i` of `s`, ignoring ASCII case. */
  predicate WordAt(s: string, i: nat, w: string) {
    i + |w| <= |s| && forall k :: 0 <= k < |w| ==> LowerChar(s[i + k]) == w[k]
  }

  /** The end of the longest run of `\s` characters starting at `i`. */
  function SpaceRunEnd(s: string, i: nat): (j: nat)
    requires i <= |s|
    ensures i <= j <= |s|
    ensures forall k :: i <= k < j ==> IsRegexSpace(s[k])
    ensures j == |s| || !IsRegexSpace(s[j])
    decreases |s| - i
  {
    if i < |s| && IsRegexSpace(s[i]) then SpaceRunEnd(s, i + 1) else i
  }

  /** Where the alternation `i\s+studied|studied|i\s+learned|learned` ends
      when it matches at the start of `s`. The four alternatives are mutually
      exclusive, so trying them in the pattern's order picks the only match. */
  function PhraseEnd(s: string): (r: Option<nat>)
    ensures r.Some? ==> 7 <= r.value <= |s|
  {
    var afterI := if |s| > 0 && LowerChar(s[0]) == 'i' then SpaceRunEnd(s, 1) else 0;
    if afterI > 1 && WordAt(s, afterI, "studied") then Some(afterI + 7)
    else if WordAt(s, 0, "studied") then Some(7)
    else if afterI > 1 && WordAt(s, afterI, "learned") then Some(afterI + 7)
    else if WordAt(s, 0, "learned") then Some(7)
    else None
  }

  /** Where the whole leading match ends (0 when there is none): the phrase,
      then all `\s` after it, then one '!' when `bang` (the `!?` of the
      pattern) and the next character is one. */
  function LeadingMatchEnd(s: string, bang: bool): (e: nat)
    ensures e <= |s|
  {
    match PhraseEnd(s)
    case None => 0
    case Some(p) =>
      var w := SpaceRunEnd(s, p);
      if bang && w < |s| && s[w] == '!' then w + 1 else w
  }

  /** `replaceFirst("")` of the leading phrase. */
  function StripLeadingPhrase(s: string, bang: bool): string {
    s[LeadingMatchEnd(s, bang)..]
  }

  lemma {:induction false} SpaceRunEndOf(s: string, i: nat, j: nat)
    requires i <= j <= |s|
    requires forall k :: i <= k < j ==> IsRegexSpace(s[k])
    requires j == |s| || !IsRegexSpace(s[j])
    ensures SpaceRunEnd(s, i) == j
    decreases j - i
  {
    if i < j {
      SpaceRunEndOf(s, i + 1, j);
    }
  }

  /** A sentence opening with "studied" or "learned" in any ASCII case,
      followed by white space and, optionally, one '!', loses exactly that
      opening: what follows it is kept as it is. Without the '!' the rest
      must not itself start with white space or '!' (those would belong to
      the match). */
  lemma PhraseRemoved(w: string, ws: string, bang: string, rest: string)
    requires Lower(w) == "studied" || Lower(w) == "learned"
    requires AllSatisfy(ws, IsRegexSpace)
    requires bang == "" || bang == "!"
    requires bang == "" && rest != [] ==> !IsRegexSpace(rest[0]) && rest[0] != '!'
    ensures StripLeadingPhrase(w + ws + bang + rest, true) == rest
  {
    var s := w + ws + bang + rest;
    assert |w| == 7;
    assert LowerChar(s[0]) == Lower(w)[0];
    if Lower(w) == "studied" {
      assert WordAt(s, 0, "studied") by {
        forall k | 0 <= k < 7 ensures LowerChar(s[k]) == "studied"[k] {
          assert s[k] == w[k];
        }
      }
    } else {
      assert WordAt(s, 0, "learned") by {
        forall k | 0 <= k < 7 ensures LowerChar(s[k]) == "learned"[k] {
          assert s[k] == w[k];
        }
      }
      assert !WordAt(s, 0, "studied") by {
        assert LowerChar(s[0]) == 'l';
      }
    }
    assert PhraseEnd(s) == Some(7);
    forall k | 7 <= k < 7 + |ws| ensures IsRegexSpace(s[k]) {
      assert s[k] == ws[k - 7];
    }
    if bang == "" {
      assert s == w + ws + rest;
      if rest != [] {
        assert s[7 + |ws|] == rest[0];
      }
    } else {
      assert s[7 + |ws|] == '!';
    }
    SpaceRunEndOf(s, 7, 7 + |ws|);
    assert s[7 + |ws| + |bang|..] == rest;
  }

  /** The "I studied" form: an 'i' in either case and at least one white-space
      character before the verb, removed together with it, the white space
      after the verb and, optionally, one '!'. As for the bare verb, without
      the '!' the rest must not itself start with white space or '!'. */
  lemma IPhraseRemoved(i: char, gap: string, w: string, ws: string, bang: string, rest: string)
    requires LowerChar(i) == 'i'
    requires gap != [] && AllSatisfy(gap, IsRegexSpace)
    requires Lower(w) == "studied" || Lower(w) == "learned"
    requires AllSatisfy(ws, IsRegexSpace)
    requires bang == "" || bang == "!"
    requires bang == "" && rest != [] ==> !IsRegexSpace(rest[0]) && rest[0] != '!'
    ensures StripLeadingPhrase([i] + gap + w + ws + bang + rest, true) == rest
  {
    var pre := [i] + gap + w;
    assert [i] + gap + w + ws + bang + rest == pre + (ws + bang + rest);
    IPhraseEnd(i, gap, w, ws + bang + rest);
    assert pre + (ws + bang + rest) == pre + ws + bang + rest;
    MatchTailRemoved(pre, ws, bang, rest);
  }

  /** The alternation matches "i", white space and the verb, whatever follows. */
  lemma IPhraseEnd(i: char, gap: string, w: string, tail: string)
    requires LowerChar(i) == 'i'
    requires gap != [] && AllSatisfy(gap, IsRegexSpace)
    requires Lower(w) == "studied" || Lower(w) == "learned"
    ensures PhraseEnd([i] + gap + w + tail) == Some(1 + |gap| + |w|)
  {
    var s := [i] + gap + w + tail;
    var v := 1 + |gap|;
    assert |w| == 7;
    assert s[0] == i;
    forall k | 1 <= k < v ensures IsRegexSpace(s[k]) {
      assert s[k] == gap[k - 1];
    }
    assert !IsRegexSpace(s[v]) by {
      assert s[v] == w[0];
      assert LowerChar(w[0]) == Lower(w)[0];
    }
    SpaceRunEndOf(s, 1, v);
    if Lower(w) == "studied" {
      assert WordAt(s, v, "studied") by {
        forall k | 0 <= k < 7 ensures LowerChar(s[v + k]) == "studied"[k] {
          assert s[v + k] == w[k];
        }
      }
    } else {
      assert WordAt(s, v, "learned") by {
        forall k | 0 <= k < 7 ensures LowerChar(s[v + k]) == "learned"[k] {
          assert s[v + k] == w[k];
        }
      }
      assert !WordAt(s, v, "studied") by {
        assert s[v] == w[0];
        assert LowerChar(w[0]) == Lower(w)[0];
      }
    }
    assert !WordAt(s, 0, "studied") && !WordAt(s, 0, "learned") by {
      assert LowerChar(s[0]) == 'i';
      assert "studied"[0] == 's' && "learned"[0] == 'l';
    }
  }

  /** Once the phrase ends at `|pre|`, the white space and one optional '!'
      after it go too. */
  lemma MatchTailRemoved(pre: string, ws: string, bang: string, rest: string)
    requires PhraseEnd(pre + ws + bang + rest) == Some(|pre|)
    requires AllSatisfy(ws, IsRegexSpace)
    requires bang == "" || bang == "!"
    requires bang == "" && rest != [] ==> !IsRegexSpace(rest[0]) && rest[0] != '!'
    ensures StripLeadingPhrase(pre + ws + bang + rest, true) == rest
  {
    var s := pre + ws + bang + rest;
    var p := |pre|;
    var e := p + |ws|;
    forall k | p <= k < e ensures IsRegexSpace(s[k]) {
      assert s[k] == ws[k - p];
    }
    if bang == "" {
      assert s == pre + ws + rest;
      if rest != [] {
        assert s[e] == rest[0];
      }
    } else {
      assert s[e] == '!';
    }
    SpaceRunEndOf(s, p, e);
    assert s[e + |bang|..] == rest;
  }

  // ---------------------------------------------------------------------
  // Segments, mentions and the merge.
  // ---------------------------------------------------------------------

  /** The text the segments are cut from: the sentence without its leading
      phrase, trimmed. */
  function Cleaned(sentence: string): string {
    JavaTrim(StripLeadingPhrase(sentence, true))
  }

  /** One segment: trimmed; empty is skipped; a leading '!' marks priority and
      is dropped; the rest is trimmed and lower-cased; empty is skipped. */
  function MentionOf(segment: string): Option<Mention> {
    var s := JavaTrim(segment);
    if s == [] then None
    else
      var isPriority := OpensWith(s, '!');
      var rest := if isPriority then s[1..] else s;
      var normalized := Lower(JavaTrim(rest));
      if normalized == [] then None else Some(Mention(normalized, isPriority))
  }

  /** The mentions of the segments, in segment order. */
  function Mentions(segments: seq<string>): seq<Mention> {
    if segments == [] then []
    else
      var m := MentionOf(segments[|segments| - 1]);
      Mentions(segments[..|segments| - 1]) + (if m.Some? then [m.value] else [])
  }

  function MentionName(m: Mention): string {
    m.name
  }

  /** The merged flag of a name: `oldVal || newVal` over its mentions. */
  function AnyPriority(ms: seq<Mention>): (r: bool)
    ensures r <==> exists m :: m in ms && m.priority
  {
    if ms == [] then false
    else
      assert forall m :: m in ms <==> m in ms[..|ms| - 1] || m == ms[|ms| - 1];
      AnyPriority(ms[..|ms| - 1]) || ms[|ms| - 1].priority
  }

  /** The merge map `dedup`: one entry per name, in order of first mention. */
  function Dedup(ms: seq<Mention>): LinkedMap<bool> {
    GroupBy(ms, MentionName, AnyPriority)
  }

  /** The result list built from the merge map, in its key order. */
  function TopicList(g: LinkedMap<bool>): seq<ParsedTopic> {
    seq(|g.keys|, i requires 0 <= i < |g.keys| => ParsedTopic(g.keys[i], g.GetOr(g.keys[i], false)))
  }

  /** The mentions a present, non-blank sentence yields. */
  function SentenceMentions(sentence: string): seq<Mention> {
    Mentions(Split(Cleaned(sentence), ','))
  }

  /** `parseSentence`: nothing for an absent or blank sentence, otherwise the
      merged mentions. */
  function ParsedTopics(sentence: Option<string>): seq<ParsedTopic> {
    if sentence.None? || JavaTrim(sentence.value) == [] then []
    else TopicList(Dedup(SentenceMentions(sentence.value)))
  }

  /** `parseSentence`, as the loop over the segments that merges into
      `dedup`, followed by the loop that lists it. */
  method ParseSentence(sentence: Option<string>) returns (result: seq<ParsedTopic>)
    ensures result == ParsedTopics(sentence)
  {
    if sentence.None? || JavaTrim(sentence.value) == [] {
      return [];
    }
    var cleaned := JavaTrim(StripLeadingPhrase(sentence.value, true));
    var segments := Split(cleaned, ',');
    var dedup := MergeSegments(segments);
    result := ListTopics(dedup);
  }

  /** The loop over the segments: each non-empty one is merged into `dedup`
      under its normalized name, OR-ing the priority flags. */
  method MergeSegments(segments: seq<string>) returns (dedup: LinkedMap<bool>)
    ensures dedup == Dedup(Mentions(segments))
  {
    dedup := Empty();
    var i := 0;
    assert Dedup(Mentions(segments[..0])) == Empty();
    while i < |segments|
      invariant 0 <= i <= |segments|
      invariant dedup == Dedup(Mentions(segments[..i]))
    {
      MentionsStep(segments, i);
      var normalized, isPriority := NormalizeSegment(segments[i]);
      if normalized != [] {
        MergeStep(Mentions(segments[..i]), Mention(normalized, isPriority), dedup);
        dedup := dedup.Put(normalized, dedup.GetOr(normalized, false) || isPriority);
      } else {
        assert Mentions(segments[..i + 1]) == Mentions(segments[..i]);
      }
      i := i + 1;
    }
    assert segments[..i] == segments;
  }

  /** The body of that loop up to the merge: the segment trimmed, its '!'
      mark taken off, the rest trimmed and lower-cased. An empty name means
      the segment is skipped. */
  method NormalizeSegment(segment: string) returns (normalized: string, isPriority: bool)
    ensures normalized == [] <==> MentionOf(segment).None?
    ensures normalized != [] ==> MentionOf(segment) == Some(Mention(normalized, isPriority))
  {
    var s := JavaTrim(segment);
    if s == [] {
      return [], false;
    }
    isPriority := OpensWith(s, '!');
    if isPriority {
      s := s[1..];
    }
    normalized := Lower(JavaTrim(s));
  }

  /** `dedup.forEach((name, prio) -> result.add(...))`. */
  method ListTopics(dedup: LinkedMap<bool>) returns (result: seq<ParsedTopic>)
    ensures result == TopicList(dedup)
  {
    result := [];
    var j := 0;
    while j < |dedup.keys|
      invariant 0 <= j <= |dedup.keys|
      invariant result == TopicList(dedup)[..j]
    {
      assert TopicList(dedup)[..j + 1] == TopicList(dedup)[..j] + [TopicList(dedup)[j]];
      result := result + [ParsedTopic(dedup.keys[j], dedup.GetOr(dedup.keys[j], false))];
      j := j + 1;
    }
  }

  lemma MentionsStep(segments: seq<string>, i: nat)
    requires i < |segments|
    ensures Mentions(segments[..i + 1]) == Mentions(segments[..i])
      + (if MentionOf(segments[i]).Some? then [MentionOf(segments[i]).value] else [])
  {
    assert segments[..i + 1][..i] == segments[..i];
  }

  /** One `merge(name, flag, or)` on the map of the mentions so far is the
      map of the mentions with this one added. */
  lemma MergeStep(ms: seq<Mention>, m: Mention, dedup: LinkedMap<bool>)
    requires dedup == Dedup(ms)
    ensures Dedup(ms + [m]) == dedup.Put(m.name, dedup.GetOr(m.name, false) || m.priority)
  {
    GroupByAppend(ms, m, MentionName, AnyPriority);
    GroupByFacts(ms, MentionName, AnyPriority);
    var w := WithKey(ms, MentionName, m.name);
    assert (w + [m])[..|w|] == w;
    assert dedup.GetOr(m.name, AnyPriority([])) == AnyPriority(w);
  }

  // ---------------------------------------------------------------------
  // What the parser promises.
  // ---------------------------------------------------------------------

  /** An absent sentence, or one of white space only, parses to nothing. */
  lemma BlankParsesToNothing(sentence: Option<string>)
    requires sentence.None? || AllSatisfy(sentence.value, IsJavaTrimSpace)
    ensures ParsedTopics(sentence) == []
  {
    if sentence.Some? {
      TrimWithEmpty(sentence.value, IsJavaTrimSpace);
    }
  }

  /** A mention's name is non-empty, trimmed and lower-case, and the mention
      is a priority exactly when the trimmed segment starts with '!'. */
  lemma MentionOfShape(segment: string)
    requires MentionOf(segment).Some?
    ensures MentionOf(segment).value.name != []
    ensures Trimmed(MentionOf(segment).value.name, IsJavaTrimSpace)
    ensures IsLowerCase(MentionOf(segment).value.name)
    ensures MentionOf(segment).value.priority <==> OpensWith(JavaTrim(segment), '!')
  {
    var s := JavaTrim(segment);
    var rest := if OpensWith(s, '!') then s[1..] else s;
    var t := JavaTrim(rest);
    assert MentionOf(segment).value.name == Lower(t);
    TrimWithTrimmed(rest, IsJavaTrimSpace);
    LowerFacts(t);
  }

  /** A segment is skipped exactly when nothing is left of it after trimming,
      or nothing but white space after its '!' mark. */
  lemma MentionOfSkips(segment: string)
    ensures MentionOf(segment).None? <==>
      var s := JavaTrim(segment);
      s == [] || (OpensWith(s, '!') && AllSatisfy(s[1..], IsJavaTrimSpace))
  {
    var s := JavaTrim(segment);
    if s != [] {
      TrimWithTrimmed(segment, IsJavaTrimSpace);
      var rest := if OpensWith(s, '!') then s[1..] else s;
      RestIsBlank(s, rest);
      assert |Lower(JavaTrim(rest))| == |JavaTrim(rest)|;
    }
  }

  /** What follows the optional '!' of a trimmed, non-empty segment is blank
      exactly when the segment is a lone '!' followed by white space. */
  lemma RestIsBlank(s: string, rest: string)
    requires s != [] && !IsJavaTrimSpace(s[0])
    requires rest == if OpensWith(s, '!') then s[1..] else s
    ensures JavaTrim(rest) == [] <==> OpensWith(s, '!') && AllSatisfy(s[1..], IsJavaTrimSpace)
  {
    TrimWithEmpty(rest, IsJavaTrimSpace);
    if !OpensWith(s, '!') {
      assert !AllSatisfy(s, IsJavaTrimSpace);
    }
  }

  /** The mentions are the segments' mentions, in order. */
  lemma {:induction false} MentionsMembers(segments: seq<string>)
    ensures forall m :: m in Mentions(segments) <==> exists g :: g in segments && MentionOf(g) == Some(m)
    ensures |Mentions(segments)| <= |segments|
  {
    if segments != [] {
      var p := segments[..|segments| - 1];
      MentionsMembers(p);
      assert forall g :: g in segments <==> g in p || g == segments[|segments| - 1];
    }
  }

  /** The listed names are the mentioned names, each once, in order of first
      mention. */
  lemma TopicListOrder(ms: seq<Mention>)
    ensures |TopicList(Dedup(ms))| == |KeysInOrder(ms, MentionName)|
    ensures forall i :: 0 <= i < |TopicList(Dedup(ms))| ==>
      TopicList(Dedup(ms))[i].name == KeysInOrder(ms, MentionName)[i]
    ensures forall i, j :: 0 <= i < j < |TopicList(Dedup(ms))| ==>
      TopicList(Dedup(ms))[i].name != TopicList(Dedup(ms))[j].name
    ensures forall m :: m in ms ==>
      exists i :: 0 <= i < |TopicList(Dedup(ms))| && TopicList(Dedup(ms))[i].name == m.name
  {
    var r := TopicList(Dedup(ms));
    var ks := KeysInOrder(ms, MentionName);
    KeysInOrderFacts(ms, MentionName);
    forall m | m in ms
      ensures exists i :: 0 <= i < |r| && r[i].name == m.name
    {
      assert MentionName(m) in ks;
      var i :| 0 <= i < |ks| && ks[i] == m.name;
      assert r[i].name == m.name;
    }
  }

  /** A listed name is a priority exactly when at least one of its mentions
      carried the '!' mark. */
  lemma TopicListPriority(ms: seq<Mention>)
    ensures forall i :: 0 <= i < |TopicList(Dedup(ms))| ==>
      (TopicList(Dedup(ms))[i].isPriority <==>
         exists m :: m in ms && m.name == TopicList(Dedup(ms))[i].name && m.priority)
  {
    var g := Dedup(ms);
    var r := TopicList(g);
    GroupByFacts(ms, MentionName, AnyPriority);
    forall i | 0 <= i < |r|
      ensures r[i].isPriority <==> exists m :: m in ms && m.name == r[i].name && m.priority
    {
      var k := g.keys[i];
      WithKeyMembers(ms, MentionName, k);
      assert r[i].isPriority == AnyPriority(WithKey(ms, MentionName, k));
    }
  }

  /** Every name `parseSentence` returns is non-empty, trimmed and
      lower-case. */
  lemma ParsedNamesShape(sentence: Option<string>)
    ensures forall t :: t in ParsedTopics(sentence) ==>
      t.name != [] && Trimmed(t.name, IsJavaTrimSpace) && IsLowerCase(t.name)
  {
    if sentence.Some? && JavaTrim(sentence.value) != [] {
      var segments := Split(Cleaned(sentence.value), ',');
      var ms := Mentions(segments);
      var r := TopicList(Dedup(ms));
      assert ParsedTopics(sentence) == r;
      TopicListOrder(ms);
      KeysInOrderFacts(ms, MentionName);
      MentionsMembers(segments);
      forall t | t in r
        ensures t.name != [] && Trimmed(t.name, IsJavaTrimSpace) && IsLowerCase(t.name)
      {
        var i :| 0 <= i < |r| && r[i] == t;
        assert t.name in KeysInOrder(ms, MentionName);
        var m :| m in ms && MentionName(m) == t.name;
        var seg :| seg in segments && MentionOf(seg) == Some(m);
        MentionOfShape(seg);
      }
    }
  }
}
