/** The host-platform string primitives the modelled code relies on: the
    white-space classes of Java and JavaScript, `trim`, lower-casing,
    substring search, splitting on a separator and string comparison. */
module Text {

  /** Characters removed by Java's `String.trim`: every code point up to U+0020. */
  predicate IsJavaTrimSpace(c: char) {
    c <= ' '
  }

  /** Characters removed by JavaScript's `String.prototype.trim`: the
      ECMAScript WhiteSpace and LineTerminator code points. */
  predicate IsJsSpace(c: char) {
    c == '\t' || c == '\n' || c == '\U{B}' || c == '\U{C}' || c == '\r' || c == ' '
    || c == '\U{A0}' || c == '\U{1680}' || ('\U{2000}' <= c <= '\U{200A}')
    || c == '\U{2028}' || c == '\U{2029}' || c == '\U{202F}' || c == '\U{205F}'
    || c == '\U{3000}' || c == '\U{FEFF}'
  }

  /** The class `\s` of java.util.regex (without UNICODE_CHARACTER_CLASS). */
  predicate IsRegexSpace(c: char) {
    c == ' ' || c == '\t' || c == '\n' || c == '\U{B}' || c == '\U{C}' || c == '\r'
  }

  /** Java's `Character.isWhitespace`, which Spring's `StringUtils.hasText` uses. */
  predicate IsJavaWhitespace(c: char) {
    ('\t' <= c <= '\r') || ('\U{1C}' <= c <= ' ') || c == '\U{1680}'
    || ('\U{2000}' <= c <= '\U{2006}') || ('\U{2008}' <= c <= '\U{200A}')
    || c == '\U{2028}' || c == '\U{2029}' || c == '\U{205F}' || c == '\U{3000}'
  }

  predicate AllSatisfy(s: string, p: char -> bool) {
    forall i :: 0 <= i < |s| ==> p(s[i])
  }

  /** The end of the run of characters in the class `ws` that starts at `i`. */
  function SpaceRunFrom(s: string, ws: char -> bool, i: nat): (j: nat)
    requires i <= |s|
    ensures i <= j <= |s|
    ensures forall k :: i <= k < j ==> ws(s[k])
    ensures j == |s| || !ws(s[j])
    decreases |s| - i
  {
    if i < |s| && ws(s[i]) then SpaceRunFrom(s, ws, i + 1) else i
  }

  /** The number of leading characters in the class `ws`. */
  function LeadingSpaces(s: string, ws: char -> bool): (n: nat)
    ensures n <= |s|
    ensures forall k :: 0 <= k < n ==> ws(s[k])
    ensures n == |s| || !ws(s[n])
  {
    SpaceRunFrom(s, ws, 0)
  }

  /** The leading run of `ws` characters is the only split point with `ws`
      characters before it and a non-`ws` character (or the end) at it. */
  lemma LeadingSpacesUnique(s: string, ws: char -> bool, j: nat)
    requires j <= |s|
    requires forall k :: 0 <= k < j ==> ws(s[k])
    requires j == |s| || !ws(s[j])
    ensures LeadingSpaces(s, ws) == j
  {
  }

  /** Drops the longest prefix of characters in the class `ws`. */
  function TrimStart(s: string, ws: char -> bool): string {
    s[LeadingSpaces(s, ws)..]
  }

  /** Drops the longest suffix of characters in the class `ws`. */
  function TrimEnd(s: string, ws: char -> bool): (r: string)
    ensures r <= s
    ensures AllSatisfy(s[|r|..], ws)
    ensures r == [] || !ws(r[|r| - 1])
  {
    if s != [] && ws(s[|s| - 1]) then TrimEnd(s[..|s| - 1], ws) else s
  }

  function TrimWith(s: string, ws: char -> bool): string {
    TrimEnd(TrimStart(s, ws), ws)
  }

  /** Java's `String.trim()`. */
  function JavaTrim(s: string): string {
    TrimWith(s, IsJavaTrimSpace)
  }

  /** JavaScript's `String.prototype.trim()`. */
  function JsTrim(s: string): string {
    TrimWith(s, IsJsSpace)
  }

  /** Neither end of the string is in the class `ws`. */
  predicate Trimmed(s: string, ws: char -> bool) {
    s == [] || (!ws(s[0]) && !ws(s[|s| - 1]))
  }

  /** Trimming removes exactly the white space at both ends: the result is
      trimmed, trimming it again changes nothing, and it is empty exactly when
      the whole input is white space. */
  lemma TrimWithFacts(s: string, ws: char -> bool)
    ensures Trimmed(TrimWith(s, ws), ws)
    ensures TrimWith(TrimWith(s, ws), ws) == TrimWith(s, ws)
    ensures TrimWith(s, ws) == [] <==> AllSatisfy(s, ws)
  {
    TrimWithTrimmed(s, ws);
    TrimOfTrimmed(TrimWith(s, ws), ws);
    TrimWithEmpty(s, ws);
  }

  lemma TrimWithTrimmed(s: string, ws: char -> bool)
    ensures Trimmed(TrimWith(s, ws), ws)
  {
    var a := TrimStart(s, ws);
    var r := TrimEnd(a, ws);
    if r != [] {
      assert r[0] == a[0];
    }
  }

  /** A string with no white space at either end is its own trim. */
  lemma TrimOfTrimmed(r: string, ws: char -> bool)
    requires Trimmed(r, ws)
    ensures TrimWith(r, ws) == r
  {
    if r != [] {
      assert TrimStart(r, ws) == r;
    }
  }

  lemma TrimWithEmpty(s: string, ws: char -> bool)
    ensures TrimWith(s, ws) == [] <==> AllSatisfy(s, ws)
  {
    var a := TrimStart(s, ws);
    if a != [] {
      TrimEndKeepsFirst(a, ws);
    }
    if AllSatisfy(s, ws) {
      TrimStartAllSpace(s, ws);
    }
  }

  /** Trailing white space never reaches a first character that is not white space. */
  lemma TrimEndKeepsFirst(a: string, ws: char -> bool)
    requires a != [] && !ws(a[0])
    ensures TrimEnd(a, ws) != []
  {
    assert a[0..] == a;
  }

  lemma TrimEndEmpty(a: string, ws: char -> bool)
    requires TrimEnd(a, ws) == []
    ensures AllSatisfy(a, ws)
  {
    assert a[|TrimEnd(a, ws)|..] == a;
  }

  lemma TrimStartAllSpace(s: string, ws: char -> bool)
    requires AllSatisfy(s, ws)
    ensures TrimStart(s, ws) == []
  {
    LeadingSpacesUnique(s, ws, |s|);
  }

  /** Trimming a string that starts with a character outside `ws` removes only
      trailing white space. */
  lemma TrimStartOfNonSpace(s: string, ws: char -> bool)
    requires s != [] && !ws(s[0])
    ensures TrimStart(s, ws) == s
  {
    LeadingSpacesUnique(s, ws, 0);
  }

  /** ASCII lower-casing of one character. */
  function LowerChar(c: char): char {
    if 'A' <= c <= 'Z' then (c as int - 'A' as int + 'a' as int) as char else c
  }

  /** Lower-casing, restricted to ASCII letters (Java's `toLowerCase()` and
      JavaScript's `toLowerCase()` both agree with it on ASCII input). */
  function Lower(s: string): string {
    seq(|s|, i requires 0 <= i < |s| => LowerChar(s[i]))
  }

  predicate IsLowerCase(s: string) {
    forall i :: 0 <= i < |s| ==> !('A' <= s[i] <= 'Z')
  }

  /** Lower-cased text holds no upper-case letter, is a fixpoint of
      lower-casing, and keeps Java-trimmed ends trimmed. */
  lemma LowerFacts(s: string)
    ensures IsLowerCase(Lower(s))
    ensures Lower(Lower(s)) == Lower(s)
    ensures Trimmed(s, IsJavaTrimSpace) ==> Trimmed(Lower(s), IsJavaTrimSpace)
    ensures |Lower(s)| == |s|
  {
  }

  /** `s.includes(q)` / `s.contains(q)`: `q` occurs in `s` at some offset. */
  predicate Contains(s: string, q: string) {
    q <= s || (s != [] && Contains(s[1..], q))
  }

  predicate StartsWith(s: string, p: string) {
    p <= s
  }

  /** `startsWith` of a one-character prefix. */
  predicate OpensWith(s: string, c: char) {
    |s| > 0 && s[0] == c
  }

  predicate EndsWith(s: string, p: string) {
    |p| <= |s| && s[|s| - |p|..] == p
  }

  /** Splits on every occurrence of `sep`, keeping empty pieces. */
  function Split(s: string, sep: char): (parts: seq<string>)
    ensures |parts| >= 1
    ensures forall p :: p in parts ==> sep !in p
  {
    if s == [] then [[]]
    else
      var rest := Split(s[1..], sep);
      if s[0] == sep then [[]] + rest else [[s[0]] + rest[0]] + rest[1..]
  }

  /** Joins pieces with `sep` between consecutive pieces. */
  function Join(parts: seq<string>, sep: char): string
    requires |parts| >= 1
  {
    if |parts| == 1 then parts[0] else parts[0] + [sep] + Join(parts[1..], sep)
  }

  /** Joining the pieces of a split gives back the original text. */
  lemma {:induction false} SplitJoin(s: string, sep: char)
    ensures Join(Split(s, sep), sep) == s
  {
    if s != [] {
      var rest := Split(s[1..], sep);
      SplitJoin(s[1..], sep);
      if s[0] == sep {
        assert Split(s, sep) == [[]] + rest;
        assert ([[]] + rest)[1..] == rest;
      } else {
        var parts := Split(s, sep);
        assert parts == [[s[0]] + rest[0]] + rest[1..];
        if |rest| == 1 {
          assert parts == [[s[0]] + rest[0]];
        } else {
          assert parts[1..] == rest[1..];
          assert Join(rest, sep) == rest[0] + [sep] + Join(rest[1..], sep);
        }
      }
    }
  }

  /** Splitting pieces that do not contain the separator, once joined, gives
      back exactly those pieces. */
  lemma {:induction false} JoinSplit(parts: seq<string>, sep: char)
    requires |parts| >= 1
    requires forall p :: p in parts ==> sep !in p
    ensures Split(Join(parts, sep), sep) == parts
  {
    if |parts| == 1 {
      SplitPiece(parts[0], [], sep);
      assert parts[0] + [] == parts[0];
    } else {
      JoinSplit(parts[1..], sep);
      SplitPiece(parts[0], [sep] + Join(parts[1..], sep), sep);
      assert parts[0] + [sep] + Join(parts[1..], sep) == parts[0] + ([sep] + Join(parts[1..], sep));
      var x := Split([sep] + Join(parts[1..], sep), sep);
      assert x == [[]] + parts[1..] by {
        assert ([sep] + Join(parts[1..], sep))[1..] == Join(parts[1..], sep);
      }
      assert x[0] == [] && x[1..] == parts[1..];
      assert parts[0] + x[0] == parts[0];
      assert [parts[0]] + parts[1..] == parts;
    }
  }

  /** A piece without the separator is glued to the first piece of what follows. */
  lemma {:induction false} SplitPiece(p: string, rest: string, sep: char)
    requires sep !in p
    ensures Split(p + rest, sep) == [p + Split(rest, sep)[0]] + Split(rest, sep)[1..]
  {
    if p != [] {
      SplitPiece(p[1..], rest, sep);
      var sp := Split(rest, sep);
      var r := Split(p[1..] + rest, sep);
      var s := p + rest;
      assert s[0] == p[0] && s[1..] == p[1..] + rest;
      assert p[0] != sep by { assert p[0] in p; }
      assert Split(s, sep) == [[p[0]] + r[0]] + r[1..];
      assert [p[0]] + (p[1..] + sp[0]) == p + sp[0] by { assert p == [p[0]] + p[1..]; }
    } else {
      assert p + rest == rest;
      var parts := Split(rest, sep);
      assert p + parts[0] == parts[0];
      assert [parts[0]] + parts[1..] == parts;
    }
  }

  /** Sign of the lexicographic comparison by code point: the model of Java's
      `String.compareTo` and of JavaScript's `localeCompare`. */
  function CompareStrings(a: string, b: string): (r: int)
    ensures -1 <= r <= 1
    ensures r == 0 <==> a == b
  {
    if a == [] then (if b == [] then 0 else -1)
    else if b == [] then 1
    else if a[0] < b[0] then -1
    else if a[0] > b[0] then 1
    else
      var r := CompareStrings(a[1..], b[1..]);
      assert r == 0 ==> a == [a[0]] + a[1..] == [b[0]] + b[1..] == b;
      r
  }

  /** Swapping the operands negates the comparison. */
  lemma {:induction false} CompareAntisymmetric(a: string, b: string)
    ensures CompareStrings(b, a) == -CompareStrings(a, b)
  {
    if a != [] && b != [] && a[0] == b[0] {
      CompareAntisymmetric(a[1..], b[1..]);
    }
  }

  /** The comparison is transitive on "not after". */
  lemma {:induction false} CompareTransitive(a: string, b: string, c: string)
    requires CompareStrings(a, b) <= 0 && CompareStrings(b, c) <= 0
    ensures CompareStrings(a, c) <= 0
  {
    if a != [] && b != [] && c != [] && a[0] == b[0] == c[0] {
      CompareTransitive(a[1..], b[1..], c[1..]);
    }
  }
}
