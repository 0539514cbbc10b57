/**
 * Step 1 of `chat_text_to_df`: locating the "Chat History" banner with
 * `re.search(r"=+\s*Chat History\s*=+\s*(.*)", text, DOTALL | IGNORECASE)`
 * and keeping only what follows it.  The regular expression is replaced by a
 * scanner (`MarkerAt`, `MarkerEnd`, `FindMarker`); `MarkerMatch` states the
 * pattern's language declaratively and the lemmas below connect the two.
 */
module ChatSection {
  import opened Wrappers
  import opened Text

  /** The banner's words, compared case-insensitively. */
  const Title: string := "Chat History"

  /** ASCII lower-casing, the part of `re.IGNORECASE` this model keeps. */
  function Lower(c: char): char {
    if 'A' <= c <= 'Z' then (c as int + 32) as char else c
  }

  predicate EqualsIgnoreCase(s: string, t: string) {
    |s| == |t| && forall k :: 0 <= k < |s| ==> Lower(s[k]) == Lower(t[k])
  }

  predicate AllEq(s: string) {
    forall k :: 0 <= k < |s| ==> s[k] == '='
  }

  /**
   * End of the longest run of '=' that starts at `i` (what greedy `=+` / `=*`
   * consumes); `EqRunFacts` states that it is that run.
   */
  function EqRunEnd(text: string, i: nat): (r: nat)
    requires i <= |text|
    ensures i <= r <= |text|
    decreases |text| - i
  {
    if i < |text| && text[i] == '=' then EqRunEnd(text, i + 1) else i
  }

  /** Everything `EqRunEnd` skips is '=', and it stops at the first character that is not. */
  lemma {:induction false} EqRunFacts(text: string, i: nat)
    requires i <= |text|
    ensures forall k :: i <= k < EqRunEnd(text, i) ==> text[k] == '='
    ensures EqRunEnd(text, i) < |text| ==> text[EqRunEnd(text, i)] != '='
    decreases |text| - i
  {
    if i < |text| && text[i] == '=' {
      EqRunFacts(text, i + 1);
    }
  }

  /** The banner pattern matches starting at index `i`. */
  predicate MarkerAt(text: string, i: nat) {
    i < |text| && text[i] == '=' &&
    var k := SpaceEnd(text, EqRunEnd(text, i));
    k + |Title| <= |text| && EqualsIgnoreCase(text[k..k + |Title|], Title) &&
    var c := SpaceEnd(text, k + |Title|);
    c < |text| && text[c] == '='
  }

  /**
   * Where group 1 of the pattern starts for a match at `i`: after the closing
   * run of '=' and the whitespace that follows it.
   */
  function MarkerEnd(text: string, i: nat): (e: nat)
    requires MarkerAt(text, i)
    ensures i < e <= |text|
  {
    var k := SpaceEnd(text, EqRunEnd(text, i));
    SpaceEnd(text, EqRunEnd(text, SpaceEnd(text, k + |Title|)))
  }

  /** The scanner's test read off the positions its runs end at. */
  lemma MarkerFromScan(text: string, i: nat, t: nat, c: nat)
    requires i < |text| && text[i] == '='
    requires SpaceEnd(text, EqRunEnd(text, i)) == t && t + |Title| <= |text|
    requires EqualsIgnoreCase(text[t..t + |Title|], Title)
    requires SpaceEnd(text, t + |Title|) == c && c < |text| && text[c] == '='
    ensures MarkerAt(text, i)
    ensures MarkerEnd(text, i) == SpaceEnd(text, EqRunEnd(text, c))
  {
  }

  /** No match starts in `[lo, hi)`. */
  ghost predicate NoMarkerIn(text: string, lo: nat, hi: nat)
    decreases hi - lo
  {
    lo >= hi || (!MarkerAt(text, lo) && NoMarkerIn(text, lo + 1, hi))
  }

  /** The leftmost index at or after `from` at which the banner matches (`re.search`). */
  function FindMarkerFrom(text: string, from: nat): (r: Option<nat>)
    requires from <= |text|
    ensures r.Some? ==> from <= r.value < |text| && MarkerAt(text, r.value)
    ensures r.Some? ==> NoMarkerIn(text, from, r.value)
    ensures r.None? ==> NoMarkerIn(text, from, |text|)
    decreases |text| - from
  {
    if from == |text| then None
    else if MarkerAt(text, from) then Some(from)
    else FindMarkerFrom(text, from + 1)
  }

  lemma {:induction false} NoMarkerInAt(text: string, lo: nat, hi: nat, j: nat)
    requires NoMarkerIn(text, lo, hi) && lo <= j < hi
    ensures !MarkerAt(text, j)
    decreases j - lo
  {
    if j > lo {
      NoMarkerInAt(text, lo + 1, hi, j);
    }
  }

  /** `NoMarkerIn` read index by index; no match starts at or past the end either. */
  lemma NoMarkerInAll(text: string, lo: nat, hi: nat)
    requires NoMarkerIn(text, lo, hi)
    ensures forall j :: lo <= j < hi ==> !MarkerAt(text, j)
    ensures forall j: nat :: |text| <= j ==> !MarkerAt(text, j)
  {
    forall j | lo <= j < hi ensures !MarkerAt(text, j) {
      NoMarkerInAt(text, lo, hi, j);
    }
  }

  /** `i` is where `re.search` reports the banner: a match with none further left. */
  ghost predicate IsLeftmost(text: string, i: nat) {
    MarkerAt(text, i) && forall j :: 0 <= j < i ==> !MarkerAt(text, j)
  }

  function FindMarker(text: string): (r: Option<nat>)
    ensures r.Some? ==> IsLeftmost(text, r.value)
    ensures r.None? ==> forall j :: !MarkerAt(text, j)
  {
    var r := FindMarkerFrom(text, 0);
    NoMarkerInAll(text, 0, if r.Some? then r.value else |text|);
    r
  }

  /**
   * `chat_part`: the text after the leftmost banner, or the whole text when
   * there is none.
   */
  function ChatPart(text: string): (part: string)
    ensures (forall j :: !MarkerAt(text, j)) ==> part == text
    ensures forall i: nat :: IsLeftmost(text, i) ==> part == text[MarkerEnd(text, i)..]
  {
    match FindMarker(text)
    case None => text
    case Some(i) =>
      assert forall i': nat :: IsLeftmost(text, i') ==> i' == i;
      text[MarkerEnd(text, i)..]
  }

  /** The boundaries of one match of `=+\s*Chat History\s*=+\s*` starting at some index. */
  datatype MarkerSpan = MarkerSpan(openEnd: nat, titleStart: nat, closeStart: nat, closeEnd: nat, end: nat)

  /** `d` splits `text[i..d.end]` into the pattern's six parts. */
  ghost predicate MarkerMatch(text: string, i: nat, d: MarkerSpan) {
    && i < d.openEnd <= d.titleStart
    && d.titleStart + |Title| <= d.closeStart < d.closeEnd <= d.end <= |text|
    && AllEq(text[i..d.openEnd])
    && AllSpace(text[d.openEnd..d.titleStart])
    && EqualsIgnoreCase(text[d.titleStart..d.titleStart + |Title|], Title)
    && AllSpace(text[d.titleStart + |Title|..d.closeStart])
    && AllEq(text[d.closeStart..d.closeEnd])
    && AllSpace(text[d.closeEnd..d.end])
  }

  /** The match the scanner describes: every run taken as long as it goes. */
  function GreedySpan(text: string, i: nat): (d: MarkerSpan)
    requires MarkerAt(text, i)
  {
    var o := EqRunEnd(text, i);
    var t := SpaceEnd(text, o);
    var c := SpaceEnd(text, t + |Title|);
    var ce := EqRunEnd(text, c);
    MarkerSpan(o, t, c, ce, SpaceEnd(text, ce))
  }

  /** `AllEq` on a slice, read index by index. */
  lemma AllEqSlice(text: string, lo: nat, hi: nat)
    requires lo <= hi <= |text|
    ensures AllEq(text[lo..hi]) <==> forall k :: lo <= k < hi ==> text[k] == '='
  {
    assert forall k :: lo <= k < hi ==> text[lo..hi][k - lo] == text[k];
  }

  /** A span whose parts hold the right characters, read index by index, is a match. */
  lemma SpanMatches(text: string, i: nat, d: MarkerSpan)
    requires i < d.openEnd <= d.titleStart
    requires d.titleStart + |Title| <= d.closeStart < d.closeEnd <= d.end <= |text|
    requires forall k :: i <= k < d.openEnd ==> text[k] == '='
    requires forall k :: d.openEnd <= k < d.titleStart ==> IsSpace(text[k])
    requires EqualsIgnoreCase(text[d.titleStart..d.titleStart + |Title|], Title)
    requires forall k :: d.titleStart + |Title| <= k < d.closeStart ==> IsSpace(text[k])
    requires forall k :: d.closeStart <= k < d.closeEnd ==> text[k] == '='
    requires forall k :: d.closeEnd <= k < d.end ==> IsSpace(text[k])
    ensures MarkerMatch(text, i, d)
  {
    AllEqSlice(text, i, d.openEnd);
    AllSpaceSlice(text, d.openEnd, d.titleStart);
    AllSpaceSlice(text, d.titleStart + |Title|, d.closeStart);
    AllEqSlice(text, d.closeStart, d.closeEnd);
    AllSpaceSlice(text, d.closeEnd, d.end);
  }

  /** The scanner's greedy choice is a match of the pattern ending at `MarkerEnd`. */
  lemma GreedySpanMatches(text: string, i: nat)
    requires MarkerAt(text, i)
    ensures MarkerMatch(text, i, GreedySpan(text, i))
    ensures GreedySpan(text, i).end == MarkerEnd(text, i)
  {
    var d := GreedySpan(text, i);
    GreedySpanBounds(text, i);
    EqRunFacts(text, i);
    SpaceEndFacts(text, d.openEnd);
    SpaceEndFacts(text, d.titleStart + |Title|);
    EqRunFacts(text, d.closeStart);
    SpaceEndFacts(text, d.closeEnd);
    SpanMatches(text, i, d);
  }

  /** The positions of the greedy span, in order, as `MarkerAt` lays them out. */
  lemma GreedySpanBounds(text: string, i: nat)
    requires MarkerAt(text, i)
    ensures var d := GreedySpan(text, i);
      && i < d.openEnd <= d.titleStart
      && d.titleStart + |Title| <= d.closeStart < d.closeEnd <= d.end <= |text|
      && EqualsIgnoreCase(text[d.titleStart..d.titleStart + |Title|], Title)
      && d.end == MarkerEnd(text, i)
  {
  }

  /** A maximal run of '=' is the one `EqRunEnd` finds. */
  lemma EqRunIs(text: string, i: nat, e: nat)
    requires i <= e <= |text|
    requires forall k :: i <= k < e ==> text[k] == '='
    requires e < |text| ==> text[e] != '='
    ensures EqRunEnd(text, i) == e
    decreases e - i
  {
    if i < e { EqRunIs(text, i + 1, e); }
  }

  /** A maximal run of whitespace is the one `SpaceEnd` finds. */
  lemma SpaceRunIs(text: string, i: nat, e: nat)
    requires i <= e <= |text|
    requires forall k :: i <= k < e ==> IsSpace(text[k])
    requires e < |text| ==> !IsSpace(text[e])
    ensures SpaceEnd(text, i) == e
    decreases e - i
  {
    if i < e { SpaceRunIs(text, i + 1, e); }
  }

  /** In any match, the parts up to the closing '=' run sit where the scanner puts them. */
  lemma MatchFixesPrefix(text: string, i: nat, d: MarkerSpan)
    requires MarkerMatch(text, i, d)
    ensures d.openEnd == EqRunEnd(text, i)
    ensures d.titleStart == SpaceEnd(text, d.openEnd)
    ensures d.closeStart == SpaceEnd(text, d.titleStart + |Title|)
  {
    AllEqSlice(text, i, d.openEnd);
    AllSpaceSlice(text, d.openEnd, d.titleStart);
    AllSpaceSlice(text, d.titleStart + |Title|, d.closeStart);
    AllEqSlice(text, d.closeStart, d.closeEnd);
    assert Lower(text[d.titleStart]) == 'c' by {
      assert text[d.titleStart..d.titleStart + |Title|][0] == text[d.titleStart];
    }
    assert !IsSpace('=') && Lower('=') == '=';
    if d.openEnd < d.titleStart {
      assert IsSpace(text[d.openEnd]);
    } else {
      assert Lower(text[d.openEnd]) == 'c';
    }
    EqRunIs(text, i, d.openEnd);
    SpaceRunIs(text, d.openEnd, d.titleStart);
    assert text[d.closeStart] == '=';
    SpaceRunIs(text, d.titleStart + |Title|, d.closeStart);
  }

  /**
   * Every match of the pattern at `i` is one the scanner accepts, and none
   * ends after `MarkerEnd`: the scanner finds exactly the matches of the
   * banner pattern, and group 1 starts where the backtracking engine's first
   * (greedy) choice puts it.
   */
  lemma MatchIsGreedyBounded(text: string, i: nat, d: MarkerSpan)
    requires MarkerMatch(text, i, d)
    ensures MarkerAt(text, i)
    ensures d.end <= MarkerEnd(text, i)
  {
    MatchFixesPrefix(text, i, d);
    assert text[i] == text[i..d.openEnd][0];
    assert text[d.closeStart] == text[d.closeStart..d.closeEnd][0];
    MarkerFromScan(text, i, d.titleStart, d.closeStart);
    TailBounded(text, d.closeStart, d.closeEnd, d.end);
  }

  /** A run of '=' then whitespace ends no later than the scanner's maximal runs do. */
  lemma TailBounded(text: string, c: nat, m: nat, e: nat)
    requires c < m <= e <= |text|
    requires AllEq(text[c..m]) && AllSpace(text[m..e])
    ensures e <= SpaceEnd(text, EqRunEnd(text, c))
  {
    AllEqSlice(text, c, m);
    AllSpaceSlice(text, m, e);
    var ce := EqRunEnd(text, c);
    EqRunFacts(text, c);
    SpaceEndFacts(text, ce);
    assert m <= ce;
    assert m < e ==> IsSpace(text[m]);
    assert m < ce ==> text[m] == '=';
    assert m == ce ==> e <= SpaceEnd(text, ce);
  }

  /** The scanner's test and the pattern agree in both directions. */
  lemma MarkerAtIffMatch(text: string, i: nat)
    ensures MarkerAt(text, i) <==> exists d :: MarkerMatch(text, i, d)
  {
    if MarkerAt(text, i) {
      GreedySpanMatches(text, i);
    }
    if d :| MarkerMatch(text, i, d) {
      MatchIsGreedyBounded(text, i, d);
    }
  }

  /** With no '=' anywhere there is no banner, and the whole text is the chat. */
  lemma NoEqualsWholeText(text: string)
    requires '=' !in text
    ensures FindMarker(text).None? && ChatPart(text) == text
  {
    assert forall j: nat :: !MarkerAt(text, j) by {
      forall j: nat | j < |text| ensures text[j] != '=' { assert text[j] in text; }
    }
  }

  /**
   * A run of '=', whitespace, the title, whitespace, a run of '=' and
   * whitespace laid out at the given indices match at `i`, and the match
   * ends at `e`.
   */
  lemma MarkerAtSpan(text: string, i: nat, a: nat, t: nat, b: nat, c: nat, d: nat, e: nat)
    requires i < a <= t && t + |Title| == b && b <= c < d <= e <= |text|
    requires forall k :: i <= k < a ==> text[k] == '='
    requires forall k :: a <= k < t ==> IsSpace(text[k])
    requires EqualsIgnoreCase(text[t..b], Title)
    requires forall k :: b <= k < c ==> IsSpace(text[k])
    requires forall k :: c <= k < d ==> text[k] == '='
    requires forall k :: d <= k < e ==> IsSpace(text[k])
    requires e < |text| ==> !IsSpace(text[e]) && (d == e ==> text[e] != '=')
    ensures MarkerAt(text, i) && MarkerEnd(text, i) == e
  {
    assert Lower(text[t..b][0]) == 'c' && text[t] == text[t..b][0];
    assert Lower(text[t..b][|Title| - 1]) == 'y' && text[b - 1] == text[t..b][|Title| - 1];
    assert a < |text| ==> text[a] != '=' by {
      if a < t { assert IsSpace(text[a]); }
    }
    EqRunIs(text, i, a);
    SpaceRunIs(text, a, t);
    SpaceRunIs(text, b, c);
    assert d < |text| ==> text[d] != '=' by {
      if d < e { assert IsSpace(text[d]); }
    }
    EqRunIs(text, c, d);
    SpaceRunIs(text, d, e);
    MarkerFromScan(text, i, t, c);
  }

  /** Where the middle piece of a concatenation sits. */
  lemma PieceAt(x: string, m: string, y: string)
    ensures forall k :: |x| <= k < |x| + |m| ==> (x + m + y)[k] == m[k - |x|]
    ensures (x + m + y)[|x|..|x| + |m|] == m && (x + m + y)[|x| + |m|..] == y
  {
  }

  /** A match at `i` with no '=' before it is the leftmost, and the chat starts where it ends. */
  lemma CutAt(text: string, i: nat, e: nat)
    requires MarkerAt(text, i) && MarkerEnd(text, i) == e
    requires forall j :: 0 <= j < i ==> text[j] != '='
    ensures ChatPart(text) == text[e..]
  {
    assert IsLeftmost(text, i);
  }

  /** The banner line as the exporter writes it. */
  const Banner: string := "=== Chat History ==="

  /** The characters of the banner line. */
  lemma BannerChars()
    ensures var banner := Banner + "\n";
      && |banner| == 21
      && (forall k :: 0 <= k < 3 ==> banner[k] == '=')
      && banner[3] == ' ' && banner[16] == ' '
      && banner[4..16] == Title
      && (forall k :: 17 <= k < 20 ==> banner[k] == '=')
      && banner[20] == '\n'
  {
  }

  /** Where the parts of the banner line sit in `pre + Banner + "\n" + body`. */
  lemma BannerLineLayout(pre: string, body: string)
    ensures var text, i := pre + Banner + "\n" + body, |pre|;
      && |text| == i + 21 + |body|
      && (forall k :: 0 <= k < i ==> text[k] == pre[k])
      && (forall k :: i <= k < i + 3 ==> text[k] == '=')
      && text[i + 3] == ' ' && text[i + 16] == ' '
      && text[i + 4..i + 16] == Title
      && (forall k :: i + 17 <= k < i + 20 ==> text[k] == '=')
      && text[i + 20] == '\n'
      && text[i + 21..] == body
  {
    var banner := Banner + "\n";
    var text, i := pre + banner + body, |pre|;
    assert pre + Banner + "\n" + body == text;
    BannerChars();
    PieceAt(pre, banner, body);
    PieceAt([], pre, banner + body);
    assert text[i + 4..i + 16] == text[i..i + 21][4..16];
  }

  /** After the banner's newline, the whitespace run ends where the body's leading whitespace does. */
  lemma BannerTail(text: string, i: nat, body: string)
    requires i + 21 <= |text| && text[i + 21..] == body && IsSpace(text[i + 20])
    ensures var e := i + 21 + StripStart(body);
      && e <= |text|
      && (forall k :: i + 20 <= k < e ==> IsSpace(text[k]))
      && (e < |text| ==> !IsSpace(text[e]))
      && text[e..] == body[StripStart(body)..]
  {
    var s := StripStart(body);
    SpaceEndFacts(body, 0);
    forall k | i + 20 < k < i + 21 + s ensures IsSpace(text[k]) {
      assert text[k] == body[k - i - 21];
    }
    if s < |body| {
      assert text[i + 21 + s] == body[s];
    }
    assert text[i + 21 + s..] == text[i + 21..][s..];
  }

  /**
   * Behind a preamble without '=' and a banner line, the chat is the rest of
   * the text once the whitespace that opens it is gone: the pattern's last
   * `\s*` takes that whitespace greedily, whatever follows it.
   */
  lemma BannerLineCut(pre: string, body: string)
    requires '=' !in pre
    ensures ChatPart(pre + Banner + "\n" + body) == body[StripStart(body)..]
  {
    var text, i := pre + Banner + "\n" + body, |pre|;
    var e := i + 21 + StripStart(body);
    BannerLineLayout(pre, body);
    BannerTail(text, i, body);
    assert EqualsIgnoreCase(text[i + 4..i + 16], Title);
    MarkerAtSpan(text, i, i + 3, i + 4, i + 16, i + 17, i + 20, e);
    assert forall j :: 0 <= j < i ==> text[j] != '=' by {
      forall j | 0 <= j < i ensures text[j] != '=' { assert pre[j] in pre; }
    }
    CutAt(text, i, e);
  }
}
