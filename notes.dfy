// The notes renderer at text level: the markdown is split into lines on
// '\n', each line is classified by its prefix (h1, h2, h3, bullet, spacer,
// paragraph), and in bullets and paragraphs every `**x**` pair becomes a
// strong span, as the global lazy pattern /\*\*(.*?)\*\*/g does.

module Notes {
  import opened Types

  // ---------------------------------------------------------------------------
  // Splitting into lines

  /** `content.split('\n')`: the pieces between newlines, at least one. */
  function Split(s: string): (lines: seq<string>)
    ensures |lines| >= 1
    ensures forall i :: 0 <= i < |lines| ==> '\n' !in lines[i]
  {
    if s == [] then [[]]
    else
      var rest := Split(s[1..]);
      if s[0] == '\n' then [[]] + rest
      else [[s[0]] + rest[0]] + rest[1..]
  }

  /** The lines glued back with '\n' between them. */
  function Join(lines: seq<string>): string
    requires |lines| >= 1
  {
    if |lines| == 1 then lines[0] else lines[0] + "\n" + Join(lines[1..])
  }

  /** The number of newlines in `s`. */
  function NewlineCount(s: string): nat {
    if s == [] then 0 else NewlineCount(s[1..]) + (if s[0] == '\n' then 1 else 0)
  }

  /** Splitting loses nothing: joining the lines gives the text back. */
  lemma {:induction false} JoinSplit(s: string)
    ensures Join(Split(s)) == s
    ensures |Split(s)| == NewlineCount(s) + 1
  {
    if s != [] {
      var rest := Split(s[1..]);
      JoinSplit(s[1..]);
      if s[0] == '\n' {
        assert Split(s) == [[]] + rest;
        assert ([[]] + rest)[1..] == rest;
      } else {
        var lines := Split(s);
        assert lines[0] == [s[0]] + rest[0];
        if |rest| == 1 {
          assert Join(lines) == [s[0]] + rest[0];
        } else {
          assert lines[1..] == rest[1..];
          assert Join(rest) == rest[0] + "\n" + Join(rest[1..]);
        }
        assert s == [s[0]] + s[1..];
      }
    }
  }

  /** A text without newlines is one line. */
  lemma {:induction false} SplitSingle(a: string)
    requires '\n' !in a
    ensures Split(a) == [a]
  {
    if a != [] {
      SplitSingle(a[1..]);
      assert [a[0]] + a[1..] == a;
    }
  }

  /** A newline-free first line followed by '\n' splits off as the first line. */
  lemma {:induction false} SplitCons(a: string, b: string)
    requires '\n' !in a
    ensures Split(a + "\n" + b) == [a] + Split(b)
  {
    if a == [] {
      assert a + "\n" + b == ['\n'] + b;
      assert (a + "\n" + b)[1..] == b;
    } else {
      var s := a + "\n" + b;
      assert s[1..] == a[1..] + "\n" + b;
      SplitCons(a[1..], b);
      assert [a[0]] + a[1..] == a;
    }
  }

  /** Joining newline-free lines and splitting again gives the lines back. */
  lemma {:induction false} SplitJoin(lines: seq<string>)
    requires |lines| >= 1
    requires forall i :: 0 <= i < |lines| ==> '\n' !in lines[i]
    ensures Split(Join(lines)) == lines
  {
    if |lines| == 1 {
      SplitSingle(lines[0]);
    } else {
      SplitJoin(lines[1..]);
      SplitCons(lines[0], Join(lines[1..]));
      assert [lines[0]] + lines[1..] == lines;
    }
  }

  // ---------------------------------------------------------------------------
  // Prefixes, first-occurrence replacement and trimming

  predicate StartsWith(s: string, prefix: string) {
    |prefix| <= |s| && s[..|prefix|] == prefix
  }

  /** A string starting with a prefix agrees with it character by character. */
  lemma StartsWithAt(s: string, prefix: string, k: nat)
    requires StartsWith(s, prefix) && k < |prefix|
    ensures s[k] == prefix[k]
  {
    assert s[..|prefix|][k] == s[k];
  }

  /** The first index at or after `from` where `pat` occurs in `s`. */
  function IndexOf(s: string, pat: string, from: nat): (r: Option<nat>)
    requires from <= |s|
    ensures r.Some? ==> from <= r.value && r.value + |pat| <= |s| && s[r.value..r.value + |pat|] == pat
    ensures r.Some? ==> forall k :: from <= k < r.value ==> !StartsWith(s[k..], pat)
    ensures r.None? ==> forall k :: from <= k <= |s| ==> !StartsWith(s[k..], pat)
    decreases |s| - from
  {
    if StartsWith(s[from..], pat) then Some(from)
    else if from == |s| then None
    else IndexOf(s, pat, from + 1)
  }

  /** `k` is the first index where `pat` occurs in `s`. */
  ghost predicate FirstOccurrence(s: string, pat: string, k: nat) {
    && k <= |s| && StartsWith(s[k..], pat)
    && forall m :: 0 <= m < k ==> !StartsWith(s[m..], pat)
  }

  /** `pat` occurs somewhere in `s`. */
  ghost predicate Occurs(s: string, pat: string) {
    exists k :: 0 <= k <= |s| && StartsWith(s[k..], pat)
  }

  /** `s.replace(pat, rep)` with a string pattern: only the first occurrence
      is replaced, and text without an occurrence comes back unchanged. */
  function ReplaceFirst(s: string, pat: string, rep: string): (r: string)
    ensures !Occurs(s, pat) ==> r == s
    ensures Occurs(s, pat) ==> exists k: nat :: FirstOccurrence(s, pat, k) && r == s[..k] + rep + s[k + |pat|..]
  {
    match IndexOf(s, pat, 0)
    case None => s
    case Some(k) =>
      assert s[k..][..|pat|] == s[k..k + |pat|];
      s[..k] + rep + s[k + |pat|..]
  }

  /** On a line that starts with `pat`, removing the first `pat` removes the prefix. */
  lemma ReplacePrefix(s: string, pat: string)
    requires StartsWith(s, pat)
    ensures ReplaceFirst(s, pat, "") == s[|pat|..]
  {
    assert s[0..] == s;
  }

  /** The characters `String.prototype.trim` removes: ECMAScript white space
      (tab, vertical tab, form feed, space, no-break space, zero-width no-break
      space and the space separators U+1680, U+2000 to U+200A, U+202F, U+205F
      and U+3000) and the line terminators. */
  const TrimmableChars: set<char> :=
    { '\t', '\n', '\U{000B}', '\U{000C}', '\r', ' ', '\U{00A0}', '\U{1680}',
      '\U{2000}', '\U{2001}', '\U{2002}', '\U{2003}', '\U{2004}', '\U{2005}',
      '\U{2006}', '\U{2007}', '\U{2008}', '\U{2009}', '\U{200A}',
      '\U{2028}', '\U{2029}', '\U{202F}', '\U{205F}', '\U{3000}', '\U{FEFF}' }

  predicate IsTrimmable(c: char) {
    c in TrimmableChars
  }

  /** The characters the pattern `.` does not match. */
  predicate IsLineTerminator(c: char) {
    c == '\n' || c == '\r' || c == '\U{2028}' || c == '\U{2029}'
  }

  /** The first index at or after `i` that does not hold white space. */
  function SolidStart(s: string, i: nat): (k: nat)
    requires i <= |s|
    ensures i <= k <= |s|
    ensures forall m :: i <= m < k ==> IsTrimmable(s[m])
    ensures k < |s| ==> !IsTrimmable(s[k])
    decreases |s| - i
  {
    if i < |s| && IsTrimmable(s[i]) then SolidStart(s, i + 1) else i
  }

  /** The end of `s[..n]` once its trailing white space is cut off. */
  function SolidEnd(s: string, n: nat): (k: nat)
    requires n <= |s|
    ensures k <= n
    ensures forall m :: k <= m < n ==> IsTrimmable(s[m])
    ensures k > 0 ==> !IsTrimmable(s[k - 1])
  {
    if n > 0 && IsTrimmable(s[n - 1]) then SolidEnd(s, n - 1) else n
  }

  /** `r` is the part of `s` from offset `a`, with only white space before
      and after it. */
  predicate TrimmedAt(s: string, r: string, a: nat) {
    && a + |r| <= |s| && r == s[a..a + |r|]
    && (forall k :: 0 <= k < a ==> IsTrimmable(s[k]))
    && (forall k :: a + |r| <= k < |s| ==> IsTrimmable(s[k]))
  }

  /** `s.trim()`: `s` with exactly its leading and trailing white space
      removed. The result is empty for an all-white-space line, and otherwise
      starts and ends with a character that is not white space. */
  function Trim(s: string): (r: string)
    ensures |r| <= |s|
    ensures exists a :: TrimmedAt(s, r, a)
    ensures r == [] <==> forall i :: 0 <= i < |s| ==> IsTrimmable(s[i])
    ensures r != [] ==> !IsTrimmable(r[0]) && !IsTrimmable(r[|r| - 1])
  {
    var lo := SolidStart(s, 0);
    if lo == |s| then
      assert TrimmedAt(s, [], lo);
      []
    else
      var hi := SolidEnd(s, |s|);
      assert lo < hi;
      var r := s[lo..hi];
      assert TrimmedAt(s, r, lo);
      r
  }

  // ---------------------------------------------------------------------------
  // Bold pairs

  /** A `**` delimiter at `i`. */
  predicate DelimAt(s: string, i: int) {
    0 <= i && i + 2 <= |s| && s[i] == '*' && s[i + 1] == '*'
  }

  /** `**` at `i` and at `j` with no line terminator in between: one match
      of the pattern, whose captured text is `s[i + 2..j]`. */
  predicate PairAt(s: string, i: int, j: int) {
    && DelimAt(s, i) && i + 2 <= j && DelimAt(s, j)
    && forall k :: i + 2 <= k < j ==> !IsLineTerminator(s[k])
  }

  /** The lazy `.*?`: the first closing `**` for the delimiter at `open`,
      scanning from `j`. */
  function FindClose(s: string, open: nat, j: nat): (r: Option<nat>)
    requires DelimAt(s, open) && open + 2 <= j <= |s|
    requires forall k :: open + 2 <= k < j ==> !IsLineTerminator(s[k]) && !DelimAt(s, k)
    ensures r.Some? ==> j <= r.value && PairAt(s, open, r.value)
    ensures r.Some? ==> forall k :: open + 2 <= k < r.value ==> !PairAt(s, open, k)
    ensures r.None? ==> forall k :: !PairAt(s, open, k)
    decreases |s| - j
  {
    if j + 2 > |s| then None
    else if DelimAt(s, j) then Some(j)
    else if IsLineTerminator(s[j]) then None
    else FindClose(s, open, j + 1)
  }

  /** The leftmost match at or after `i`, with its lazy closing delimiter. */
  function FindPair(s: string, i: nat): (r: Option<(nat, nat)>)
    requires i <= |s|
    ensures r.Some? ==> i <= r.value.0 && PairAt(s, r.value.0, r.value.1)
    ensures r.Some? ==> forall k :: r.value.0 + 2 <= k < r.value.1 ==> !PairAt(s, r.value.0, k)
    ensures r.Some? ==> forall a, b :: i <= a < r.value.0 ==> !PairAt(s, a, b)
    ensures r.None? ==> forall a, b :: i <= a ==> !PairAt(s, a, b)
    decreases |s| - i
  {
    if i + 2 > |s| then None
    else if DelimAt(s, i) then
      match FindClose(s, i, i + 2)
      case Some(j) => Some((i, j))
      case None => FindPair(s, i + 1)
    else FindPair(s, i + 1)
  }

  /** A span of rendered text: as written, or inside a strong element. */
  datatype Inline = Plain(text: string) | Strong(text: string)

  /** The source text of one span: strong text goes back between `**`. */
  function SourceOf(x: Inline): string {
    match x
    case Plain(t) => t
    case Strong(t) => "**" + t + "**"
  }

  /** The source text of spans. */
  function Unmark(spans: seq<Inline>): string {
    if spans == [] then "" else SourceOf(spans[0]) + Unmark(spans[1..])
  }

  /** Strong spans hold no line terminator. */
  predicate StrongOnOneLine(spans: seq<Inline>) {
    forall k :: 0 <= k < |spans| && spans[k].Strong? ==>
      forall c :: c in spans[k].text ==> !IsLineTerminator(c)
  }

  /** The source text of a span placed before others. */
  lemma UnmarkCons(x: Inline, rest: seq<Inline>)
    ensures Unmark([x] + rest) == SourceOf(x) + Unmark(rest)
  {
    assert ([x] + rest)[1..] == rest;
  }

  /** A span placed before others keeps strong text on one line when it does. */
  lemma StrongCons(x: Inline, rest: seq<Inline>)
    requires x.Strong? ==> forall c :: c in x.text ==> !IsLineTerminator(c)
    requires StrongOnOneLine(rest)
    ensures StrongOnOneLine([x] + rest)
  {
    var all := [x] + rest;
    forall k | 0 <= k < |all| && all[k].Strong?
      ensures forall c :: c in all[k].text ==> !IsLineTerminator(c)
    {
      if k > 0 {
        assert all[k] == rest[k - 1];
      }
    }
  }

  /** The spans for a match at (i, j): the text before it (if any), the
      strong text, then the spans of the rest of the line. */
  function MatchSpans(s: string, i: nat, j: nat, rest: seq<Inline>): seq<Inline>
    requires PairAt(s, i, j)
  {
    var tail := [Strong(s[i + 2..j])] + rest;
    if i == 0 then tail else [Plain(s[..i])] + tail
  }

  /** The text from an opening delimiter: the pair and what follows it. */
  lemma PairText(s: string, i: nat, j: nat)
    requires PairAt(s, i, j)
    ensures s[i..] == "**" + s[i + 2..j] + "**" + s[j + 2..]
  {
    assert s[i..i + 2] == "**";
    assert s[j..j + 2] == "**";
    assert s[i..] == s[i..i + 2] + s[i + 2..];
    assert s[i + 2..] == s[i + 2..j] + s[j..];
    assert s[j..] == s[j..j + 2] + s[j + 2..];
  }

  /** Those spans restore the text. */
  lemma MatchUnmark(s: string, i: nat, j: nat, rest: seq<Inline>)
    requires PairAt(s, i, j)
    requires Unmark(rest) == s[j + 2..]
    ensures Unmark(MatchSpans(s, i, j, rest)) == s
  {
    var tail := [Strong(s[i + 2..j])] + rest;
    UnmarkCons(Strong(s[i + 2..j]), rest);
    PairText(s, i, j);
    assert Unmark(tail) == s[i..];
    if i != 0 {
      UnmarkCons(Plain(s[..i]), tail);
      assert s == s[..i] + s[i..];
    }
  }

  /** Those spans keep strong text on one line. */
  lemma MatchOneLine(s: string, i: nat, j: nat, rest: seq<Inline>)
    requires PairAt(s, i, j)
    requires StrongOnOneLine(rest)
    ensures StrongOnOneLine(MatchSpans(s, i, j, rest))
  {
    var m := s[i + 2..j];
    assert forall c :: c in m ==> !IsLineTerminator(c) by {
      forall c | c in m ensures !IsLineTerminator(c) {
        var k :| 0 <= k < |m| && m[k] == c;
        assert m[k] == s[i + 2 + k];
      }
    }
    StrongCons(Strong(m), rest);
    if i != 0 {
      StrongCons(Plain(s[..i]), [Strong(m)] + rest);
    }
  }

  /** Span `x` placed at offset `base` of `s` is one step of the regex's
      left-to-right scan: a plain span covers no position where a match
      starts; a strong span is a match starting there that closes at the
      first `**` after its opening one. */
  ghost predicate SpanAt(s: string, x: Inline, base: nat) {
    match x
    case Plain(t) =>
      && base + |t| <= |s|
      && forall a, b :: base <= a < base + |t| ==> !PairAt(s, a, b)
    case Strong(t) =>
      && PairAt(s, base, base + 2 + |t|)
      && forall m :: base + 2 <= m < base + 2 + |t| ==> !PairAt(s, base, m)
  }

  /** The spans, laid end to end from offset `base`, are the scan's steps. */
  ghost predicate ScanFrom(s: string, spans: seq<Inline>, base: nat)
    decreases |spans|, 1
  {
    spans != [] ==> SpanAt(s, spans[0], base) && ScanAfter(s, spans, base)
  }

  /** The spans after the first are the scan's steps from where it ends. */
  ghost predicate ScanAfter(s: string, spans: seq<Inline>, base: nat)
    requires spans != []
    decreases |spans|, 0
  {
    ScanFrom(s, spans[1..], base + |SourceOf(spans[0])|)
  }

  /** A match in a suffix is a match in the whole text, shifted. */
  lemma ShiftPair(s: string, d: nat, a: nat, b: int)
    requires d <= |s|
    ensures PairAt(s[d..], a, b) <==> PairAt(s, a + d, b + d)
  {
    if PairAt(s, a + d, b + d) {
      forall k | a + 2 <= k < b ensures !IsLineTerminator(s[d..][k]) {
        assert s[d..][k] == s[k + d];
      }
    }
    if PairAt(s[d..], a, b) {
      forall k | a + d + 2 <= k < b + d ensures !IsLineTerminator(s[k]) {
        assert s[k] == s[d..][k - d];
      }
    }
  }

  /** A step of the scan of a suffix is a step of the scan of the whole
      text, shifted by where the suffix starts. */
  lemma ShiftSpan(s: string, d: nat, x: Inline, base: nat)
    requires d <= |s| && SpanAt(s[d..], x, base)
    ensures SpanAt(s, x, base + d)
  {
    var e := base + d;
    match x
    case Plain(t) =>
      forall a, b | e <= a < e + |t| ensures !PairAt(s, a, b) {
        ShiftPair(s, d, a - d, b - d);
      }
    case Strong(t) =>
      ShiftPair(s, d, base, base + 2 + |t|);
      forall m | e + 2 <= m < e + 2 + |t| ensures !PairAt(s, e, m) {
        ShiftPair(s, d, base, m - d);
      }
  }

  /** The scan of a suffix is the scan of the whole text from where the
      suffix starts. */
  lemma {:induction false} ShiftScan(s: string, d: nat, spans: seq<Inline>, base: nat)
    requires d <= |s| && ScanFrom(s[d..], spans, base)
    ensures ScanFrom(s, spans, base + d)
    decreases |spans|
  {
    if spans != [] {
      var next := base + |SourceOf(spans[0])|;
      ShiftSpan(s, d, spans[0], base);
      ShiftScan(s, d, spans[1..], next);
      assert next + d == base + d + |SourceOf(spans[0])|;
    }
  }

  /** A step followed by the scan after it, from where the step ends, is a scan. */
  lemma ScanCons(s: string, x: Inline, rest: seq<Inline>, base: nat, next: nat)
    requires next == base + |SourceOf(x)|
    requires SpanAt(s, x, base) && ScanFrom(s, rest, next)
    ensures ScanFrom(s, [x] + rest, base)
  {
    var all := [x] + rest;
    assert all[0] == x && all[1..] == rest;
  }

  /** The spans of the leftmost match, followed by the scan after it, are
      the scan of the whole text. */
  lemma MatchScans(s: string, i: nat, j: nat, rest: seq<Inline>)
    requires PairAt(s, i, j)
    requires forall m :: i + 2 <= m < j ==> !PairAt(s, i, m)
    requires forall a, b :: 0 <= a < i ==> !PairAt(s, a, b)
    requires ScanFrom(s, rest, j + 2)
    ensures ScanFrom(s, MatchSpans(s, i, j, rest), 0)
  {
    var x := Strong(s[i + 2..j]);
    assert SpanAt(s, x, i);
    ScanCons(s, x, rest, i, j + 2);
    if i != 0 {
      assert SpanAt(s, Plain(s[..i]), 0);
      ScanCons(s, Plain(s[..i]), [x] + rest, 0, i);
    }
  }

  /** A text with no match is one plain step of the scan. */
  lemma PlainScans(s: string)
    requires s != []
    requires forall a, b :: 0 <= a ==> !PairAt(s, a, b)
    ensures ScanFrom(s, [Plain(s)], 0)
  {
    assert SpanAt(s, Plain(s), 0);
    assert [Plain(s)][1..] == [];
  }

  /** The spans of the leftmost match, followed by the spans of the text
      after it, keep all three properties of the replacement. */
  lemma MatchEmphasized(s: string, i: nat, j: nat, rest: seq<Inline>)
    requires FindPair(s, 0) == Some((i, j))
    requires Unmark(rest) == s[j + 2..] && StrongOnOneLine(rest) && ScanFrom(s[j + 2..], rest, 0)
    ensures Unmark(MatchSpans(s, i, j, rest)) == s
    ensures StrongOnOneLine(MatchSpans(s, i, j, rest))
    ensures ScanFrom(s, MatchSpans(s, i, j, rest), 0)
  {
    MatchUnmark(s, i, j, rest);
    MatchOneLine(s, i, j, rest);
    ShiftScan(s, j + 2, rest, 0);
    MatchScans(s, i, j, rest);
  }

  /** The global replacement of `**x**` pairs, left to right, shortest
      first: the spans give back the text, strong text stays on one line,
      and the spans are the steps of the scan, so no match starts inside
      plain text and every strong span is the leftmost remaining match,
      closed at its first `**`. */
  function Emphasize(s: string): (spans: seq<Inline>)
    ensures Unmark(spans) == s
    ensures StrongOnOneLine(spans)
    ensures ScanFrom(s, spans, 0)
    decreases |s|
  {
    match FindPair(s, 0)
    case None =>
      if s == [] then []
      else
        PlainScans(s);
        [Plain(s)]
    case Some((i, j)) =>
      var rest := Emphasize(s[j + 2..]);
      MatchEmphasized(s, i, j, rest);
      MatchSpans(s, i, j, rest)
  }

  /** A line with no complete pair comes back as it was. */
  lemma NoPairUnchanged(s: string)
    requires forall a, b :: !PairAt(s, a, b)
    ensures forall k :: 0 <= k < |Emphasize(s)| ==> Emphasize(s)[k].Plain?
    ensures s != [] ==> Emphasize(s) == [Plain(s)]
  {
  }

  /** A line with a pair gets a strong span, holding the text of the
      leftmost, shortest pair. */
  lemma FirstPairIsStrong(s: string, i: nat, j: nat)
    requires PairAt(s, i, j)
    requires forall a, b :: 0 <= a < i ==> !PairAt(s, a, b)
    requires forall k :: i + 2 <= k < j ==> !PairAt(s, i, k)
    ensures exists k :: 0 <= k < |Emphasize(s)| && Emphasize(s)[k] == Strong(s[i + 2..j])
  {
    LeftmostPair(s, i, j);
    var spans := Emphasize(s);
    if i == 0 {
      assert spans[0] == Strong(s[i + 2..j]);
    } else {
      assert spans[1] == Strong(s[i + 2..j]);
    }
  }

  /** The leftmost pair, closed at its first `**`, is the one the scan finds. */
  lemma LeftmostPair(s: string, i: nat, j: nat)
    requires PairAt(s, i, j)
    requires forall a, b :: 0 <= a < i ==> !PairAt(s, a, b)
    requires forall k :: i + 2 <= k < j ==> !PairAt(s, i, k)
    ensures FindPair(s, 0) == Some((i, j))
  {
    var r := FindPair(s, 0);
    assert r.Some?;
  }

  // ---------------------------------------------------------------------------
  // Classifying lines

  datatype Block =
    | H1(text: string)
    | H2(text: string)
    | H3(text: string)
    | Bullet(spans: seq<Inline>)
    | Spacer
    | Paragraph(spans: seq<Inline>)

  predicate IsHeading(line: string) {
    StartsWith(line, "# ") || StartsWith(line, "## ") || StartsWith(line, "### ")
  }

  /** The kinds of line, in the order they are tried. */
  datatype LineKind = HeadingOne | HeadingTwo | HeadingThree | BulletLine | BlankLine | TextLine

  /** The kind of a line, tried in order: `# `, `## `, `### `, a trimmed
      line starting `- `, a blank line, anything else. */
  function KindOf(line: string): (k: LineKind)
    ensures k == HeadingOne <==> StartsWith(line, "# ")
    ensures k == HeadingTwo <==> StartsWith(line, "## ")
    ensures k == HeadingThree <==> StartsWith(line, "### ")
    ensures k == BulletLine <==> !IsHeading(line) && StartsWith(Trim(line), "- ")
    ensures k == BlankLine <==> forall i :: 0 <= i < |line| ==> IsTrimmable(line[i])
    ensures k == TextLine <==>
              !IsHeading(line) && !StartsWith(Trim(line), "- ")
              && exists i :: 0 <= i < |line| && !IsTrimmable(line[i])
  {
    Markers(line);
    if StartsWith(line, "# ") then HeadingOne
    else if StartsWith(line, "## ") then HeadingTwo
    else if StartsWith(line, "### ") then HeadingThree
    else if StartsWith(Trim(line), "- ") then BulletLine
    else if Trim(line) == "" then BlankLine
    else TextLine
  }

  /** The block a line renders as: a heading without its marker, a bullet
      holding the emphasized text after the trimmed line's `- `, a spacer,
      or a paragraph holding the emphasized line. */
  function Classify(line: string): (b: Block)
    ensures KindOf(line) == HeadingOne ==> b == H1(line[2..])
    ensures KindOf(line) == HeadingTwo ==> b == H2(line[3..])
    ensures KindOf(line) == HeadingThree ==> b == H3(line[4..])
    ensures KindOf(line) == BulletLine ==>
              b == Bullet(Emphasize(Trim(line)[2..])) && Unmark(b.spans) == Trim(line)[2..]
    ensures KindOf(line) == BlankLine ==> b == Spacer
    ensures KindOf(line) == TextLine ==> b == Paragraph(Emphasize(line)) && Unmark(b.spans) == line
  {
    match KindOf(line)
    case HeadingOne =>
      ReplacePrefix(line, "# ");
      H1(ReplaceFirst(line, "# ", ""))
    case HeadingTwo =>
      ReplacePrefix(line, "## ");
      H2(ReplaceFirst(line, "## ", ""))
    case HeadingThree =>
      ReplacePrefix(line, "### ");
      H3(ReplaceFirst(line, "### ", ""))
    case BulletLine =>
      Bullet(Emphasize(Trim(line)[2..]))
    case BlankLine =>
      Spacer
    case TextLine =>
      Paragraph(Emphasize(line))
  }

  /** The heading markers exclude each other in the order they are tried,
      and a heading line does not start with white space. */
  lemma Markers(line: string)
    ensures StartsWith(line, "# ") ==> !StartsWith(line, "## ") && !StartsWith(line, "### ")
    ensures StartsWith(line, "## ") ==> !StartsWith(line, "### ")
    ensures IsHeading(line) ==> |line| > 0 && line[0] == '#' && !IsTrimmable(line[0])
  {
    if StartsWith(line, "# ") {
      StartsWithAt(line, "# ", 1);
    }
    if StartsWith(line, "## ") {
      StartsWithAt(line, "## ", 2);
    }
    if IsHeading(line) {
      assert line[0] == '#' by {
        if StartsWith(line, "# ") {
          StartsWithAt(line, "# ", 0);
        } else if StartsWith(line, "## ") {
          StartsWithAt(line, "## ", 0);
        } else {
          StartsWithAt(line, "### ", 0);
        }
      }
    }
  }

  /** One block per line of the content, in order. */
  function RenderContent(content: string): (blocks: seq<Block>)
    ensures |blocks| == |Split(content)| == NewlineCount(content) + 1
    ensures forall i :: 0 <= i < |blocks| ==> blocks[i] == Classify(Split(content)[i])
  {
    JoinSplit(content);
    var lines := Split(content);
    seq(|lines|, i requires 0 <= i < |lines| => Classify(lines[i]))
  }

  /** A line ending in a carriage return is blank when nothing else is on it. */
  lemma CarriageReturnIsSpacer()
    ensures Classify("\r") == Spacer
  {
    assert IsTrimmable("\r"[0]);
  }

  /** An empty bullet ("- " trims to "-") renders as a paragraph. */
  lemma EmptyBulletIsParagraph()
    ensures Classify("- ").Paragraph?
  {
    var line := "- ";
    var r := Trim(line);
    var a :| TrimmedAt(line, r, a);
    assert !IsTrimmable(line[0]) && IsTrimmable(line[1]);
    assert |r| < 2;
    assert !StartsWith(r, "- ");
    Markers(line);
    assert line[0] == '-';
  }

  /** A heading keeps everything after its marker, whatever it is: a
      trailing carriage return left by splitting on `\n` stays in its text. */
  lemma HeadingKeepsRest(rest: string)
    ensures Classify("# " + rest) == H1(rest)
  {
    var line := "# " + rest;
    assert line[..2] == "# " && line[2..] == rest;
  }
}
