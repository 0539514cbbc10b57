/**
 * The parts of Python's string behaviour that the chat parser relies on:
 * `str.isspace` (which is also what the regular-expression class `\s`
 * matches on `str` patterns), `str.strip` and `str.splitlines`.
 */
module Text {
  import opened Wrappers

  /** Python's `str.isspace` for one character (the class `\s` of `re` on `str`). */
  predicate IsSpace(c: char) {
    var n := c as int;
    (9 <= n <= 13) || (28 <= n <= 32) || n == 0x85 || n == 0xA0 || n == 0x1680
    || (0x2000 <= n <= 0x200A) || n == 0x2028 || n == 0x2029 || n == 0x202F
    || n == 0x205F || n == 0x3000
  }

  predicate AllSpace(s: string) {
    forall i :: 0 <= i < |s| ==> IsSpace(s[i])
  }

  /** True when `s` has no whitespace at either end (what `str.strip` leaves). */
  predicate Stripped(s: string) {
    s == [] || (!IsSpace(s[0]) && !IsSpace(s[|s| - 1]))
  }

  /** A line boundary of `str.splitlines`: \n \r \v \f \x1c \x1d \x1e \x85 U+2028 U+2029. */
  predicate IsLineBreak(c: char) {
    var n := c as int;
    (10 <= n <= 13) || (28 <= n <= 30) || n == 0x85 || n == 0x2028 || n == 0x2029
  }

  predicate NoBreak(s: string) {
    forall i :: 0 <= i < |s| ==> !IsLineBreak(s[i])
  }

  lemma AllSpaceConcat(a: string, b: string)
    requires AllSpace(a) && AllSpace(b)
    ensures AllSpace(a + b)
  {
    forall i | 0 <= i < |a + b| ensures IsSpace((a + b)[i]) {
      if i < |a| { assert (a + b)[i] == a[i]; } else { assert (a + b)[i] == b[i - |a|]; }
    }
  }

  /**
   * End of the longest run of whitespace that starts at `i` (what greedy
   * `\s*` consumes); `SpaceEndFacts` states that it is that run.
   */
  function SpaceEnd(text: string, i: nat): (r: nat)
    requires i <= |text|
    ensures i <= r <= |text|
    decreases |text| - i
  {
    if i < |text| && IsSpace(text[i]) then SpaceEnd(text, i + 1) else i
  }

  /** Everything `SpaceEnd` skips is whitespace, and it stops at the first character that is not. */
  lemma {:induction false} SpaceEndFacts(text: string, i: nat)
    requires i <= |text|
    ensures forall k :: i <= k < SpaceEnd(text, i) ==> IsSpace(text[k])
    ensures SpaceEnd(text, i) < |text| ==> !IsSpace(text[SpaceEnd(text, i)])
    decreases |text| - i
  {
    if i < |text| && IsSpace(text[i]) {
      SpaceEndFacts(text, i + 1);
    }
  }

  /**
   * Start of the run of whitespace that ends at `j`, going back no further
   * than `lo`: `text[lo..j].rstrip()` is `text[lo..SpaceStartBack(text, lo, j)]`.
   */
  function SpaceStartBack(text: string, lo: nat, j: nat): (r: nat)
    requires lo <= j <= |text|
    ensures lo <= r <= j
    ensures forall k :: r <= k < j ==> IsSpace(text[k])
    ensures r > lo ==> !IsSpace(text[r - 1])
  {
    if j > lo && IsSpace(text[j - 1]) then SpaceStartBack(text, lo, j - 1) else j
  }

  /** Index in `s` at which `Strip(s)` starts. */
  function StripStart(s: string): (r: nat)
    ensures r <= |s|
  {
    SpaceEnd(s, 0)
  }

  /** Index in `s` at which `Strip(s)` ends. */
  function StripEnd(s: string): (r: nat)
    ensures StripStart(s) <= r <= |s|
  {
    SpaceStartBack(s, StripStart(s), |s|)
  }

  /** `AllSpace` on a slice, read index by index. */
  lemma AllSpaceSlice(s: string, lo: nat, hi: nat)
    requires lo <= hi <= |s|
    ensures AllSpace(s[lo..hi]) <==> forall k :: lo <= k < hi ==> IsSpace(s[k])
  {
    assert forall k :: lo <= k < hi ==> s[lo..hi][k - lo] == s[k];
  }

  /**
   * `str.strip()`: the result is the slice of `s` left after removing all
   * leading and all trailing whitespace.
   */
  function Strip(s: string): (r: string)
    ensures StripStart(s) + |r| <= |s|
    ensures r == s[StripStart(s)..StripStart(s) + |r|]
    ensures AllSpace(s[..StripStart(s)]) && AllSpace(s[StripStart(s) + |r|..])
    ensures Stripped(r)
  {
    var a, e := StripStart(s), StripEnd(s);
    SpaceEndFacts(s, 0);
    AllSpaceSlice(s, 0, a);
    AllSpaceSlice(s, e, |s|);
    s[a..e]
  }

  /**
   * `Strip` is determined by its contract: whenever `s` is a stripped core
   * surrounded by whitespace, that core is what `Strip` returns.
   */
  lemma StripUnique(s: string, a: string, m: string, b: string)
    requires s == a + m + b && AllSpace(a) && AllSpace(b) && Stripped(m)
    ensures Strip(s) == m
  {
    var lo, hi := |a|, |a| + |m|;
    assert forall j :: 0 <= j < lo ==> IsSpace(s[j]) by {
      forall j | 0 <= j < lo ensures IsSpace(s[j]) { assert s[j] == a[j]; }
    }
    assert forall j :: hi <= j < |s| ==> IsSpace(s[j]) by {
      forall j | hi <= j < |s| ensures IsSpace(s[j]) { assert s[j] == b[j - hi]; }
    }
    SpaceEndFacts(s, 0);
    if m == [] {
      assert SpaceEnd(s, 0) == |s|;
    } else {
      assert !IsSpace(s[lo]) by { assert s[lo] == m[0]; }
      assert !IsSpace(s[hi - 1]) by { assert s[hi - 1] == m[|m| - 1]; }
      assert StripStart(s) == lo;
      assert StripEnd(s) == hi;
      assert s[lo..hi] == m;
    }
  }

  /** Removing whitespace around a string does not change what `Strip` returns. */
  lemma StripSurrounded(w1: string, m: string, w2: string)
    requires AllSpace(w1) && AllSpace(w2)
    ensures Strip(w1 + m + w2) == Strip(m)
  {
    var r, i := Strip(m), StripStart(m);
    SliceAround(m, i, i + |r|);
    Regroup(w1, m[..i], r, m[i + |r|..], w2);
    AllSpaceConcat(w1, m[..i]);
    AllSpaceConcat(m[i + |r|..], w2);
    StripUnique(w1 + m + w2, w1 + m[..i], r, m[i + |r|..] + w2);
  }

  lemma SliceAround(m: string, i: nat, j: nat)
    requires i <= j <= |m|
    ensures m == m[..i] + m[i..j] + m[j..]
  {
  }

  lemma Regroup(w1: string, a: string, r: string, b: string, w2: string)
    ensures w1 + (a + r + b) + w2 == (w1 + a) + r + (b + w2)
  {
  }

  /** Stripping is idempotent, as `line.strip()` followed by `.strip()` in the source relies on. */
  lemma StripIdempotent(s: string)
    ensures Strip(Strip(s)) == Strip(s)
  {
    var r := Strip(s);
    assert r == [] + r + [];
    StripUnique(r, [], r, []);
  }

  /** Position of the first line boundary in `s`, if any. */
  function FirstBreak(s: string): (r: Option<nat>)
    ensures r.None? ==> NoBreak(s)
    ensures r.Some? ==> r.value < |s| && IsLineBreak(s[r.value]) && NoBreak(s[..r.value])
  {
    if s == [] then None
    else if IsLineBreak(s[0]) then Some(0)
    else
      match FirstBreak(s[1..])
      case None => None
      case Some(i) =>
        assert s[..i + 1] == [s[0]] + s[1..][..i];
        Some(i + 1)
  }

  /**
   * `str.splitlines()`: the pieces between line boundaries, where "\r\n"
   * counts as one boundary and a boundary at the very end opens no new line.
   */
  function SplitLines(s: string): (lines: seq<string>)
    ensures lines == [] <==> s == []
    ensures forall l :: l in lines ==> NoBreak(l)
    ensures s != [] && NoBreak(s) ==> lines == [s]
    decreases |s|
  {
    if s == [] then []
    else
      match FirstBreak(s)
      case None => [s]
      case Some(i) =>
        var next := if s[i] == '\r' && i + 1 < |s| && s[i + 1] == '\n' then i + 2 else i + 1;
        [s[..i]] + SplitLines(s[next..])
  }

  /** A line ended by "\n" is split off on its own and does not include the "\n". */
  lemma SplitLinesNewline(a: string, b: string)
    requires NoBreak(a)
    ensures SplitLines(a + "\n" + b) == [a] + SplitLines(b)
  {
    var s := a + "\n" + b;
    assert s[|a|] == '\n';
    var i := FirstBreak(s).value;
    assert forall j :: 0 <= j < |a| ==> s[j] == a[j];
    assert forall j :: 0 <= j < i ==> !IsLineBreak(s[j]) by {
      forall j | 0 <= j < i ensures !IsLineBreak(s[j]) { assert s[..i][j] == s[j]; }
    }
    assert i == |a|;
    assert s[..|a|] == a && s[|a| + 1..] == b;
  }

  /** "\r\n" is one boundary: it does not open an empty line between "\r" and "\n". */
  lemma SplitLinesCrLf(a: string, b: string)
    requires NoBreak(a)
    ensures SplitLines(a + "\r\n" + b) == [a] + SplitLines(b)
  {
    var s := a + "\r\n" + b;
    assert s[|a|] == '\r' && s[|a| + 1] == '\n';
    var i := FirstBreak(s).value;
    assert forall j :: 0 <= j < |a| ==> s[j] == a[j];
    assert forall j :: 0 <= j < i ==> !IsLineBreak(s[j]) by {
      forall j | 0 <= j < i ensures !IsLineBreak(s[j]) { assert s[..i][j] == s[j]; }
    }
    assert i == |a|;
    assert s[..|a|] == a && s[|a| + 2..] == b;
  }

  /** Concatenating two strings without boundaries gives none. */
  lemma NoBreakConcat(a: string, b: string)
    requires NoBreak(a) && NoBreak(b)
    ensures NoBreak(a + b)
  {
    assert forall i :: 0 <= i < |a| ==> (a + b)[i] == a[i];
    assert forall i :: |a| <= i < |a + b| ==> (a + b)[i] == b[i - |a|];
  }

  /** `"\n".join(lines)`. */
  function JoinLines(lines: seq<string>): string {
    if lines == [] then []
    else if |lines| == 1 then lines[0]
    else lines[0] + "\n" + JoinLines(lines[1..])
  }

  /** The first line opens the joined text. */
  lemma JoinLinesHead(lines: seq<string>)
    requires lines != []
    ensures |lines[0]| <= |JoinLines(lines)| && JoinLines(lines)[..|lines[0]|] == lines[0]
  {
    if |lines| > 1 {
      assert JoinLines(lines) == lines[0] + ("\n" + JoinLines(lines[1..]));
    }
  }

  /** Dropping a prefix of the joined text that lies within the first line drops it from that line. */
  lemma JoinLinesDrop(lines: seq<string>, k: nat)
    requires lines != [] && k <= |lines[0]|
    ensures JoinLines(lines)[k..] == JoinLines([lines[0][k..]] + lines[1..])
  {
    var lines' := [lines[0][k..]] + lines[1..];
    if |lines| > 1 {
      assert lines'[1..] == lines[1..];
      var tail := "\n" + JoinLines(lines[1..]);
      assert JoinLines(lines) == lines[0] + tail;
      assert JoinLines(lines') == lines[0][k..] + tail;
      assert (lines[0] + tail)[k..] == lines[0][k..] + tail;
    }
  }

  /**
   * Cutting a proper prefix of the first line from the joined text and
   * splitting gives the lines back with that prefix cut from the first.
   */
  lemma SplitJoinLinesDrop(lines: seq<string>, k: nat)
    requires lines != [] && k < |lines[0]|
    requires forall i :: 0 <= i < |lines| ==> NoBreak(lines[i])
    requires lines[|lines| - 1] != []
    ensures SplitLines(JoinLines(lines)[k..]) == [lines[0][k..]] + lines[1..]
  {
    var lines' := [lines[0][k..]] + lines[1..];
    JoinLinesDrop(lines, k);
    assert NoBreak(lines'[0]) by {
      assert NoBreak(lines[0]);
      assert forall j :: 0 <= j < |lines'[0]| ==> lines'[0][j] == lines[0][k + j];
    }
    assert forall i :: 1 <= i < |lines'| ==> lines'[i] == lines[i];
    SplitJoinLines(lines');
  }

  /** `'c' not in "\n".join(lines)` when no line holds `c` and `c` is not the newline. */
  lemma {:induction false} JoinLinesAvoids(lines: seq<string>, c: char)
    requires c != '\n'
    requires forall i :: 0 <= i < |lines| ==> c !in lines[i]
    ensures c !in JoinLines(lines)
  {
    if |lines| > 1 {
      JoinLinesAvoids(lines[1..], c);
      assert c !in lines[0];
    }
  }

  /**
   * Joining lines without boundaries by "\n" and splitting again gives the
   * lines back, provided the last one is not empty (a trailing empty line is
   * lost by `splitlines`).
   */
  lemma {:induction false} SplitJoinLines(lines: seq<string>)
    requires forall i :: 0 <= i < |lines| ==> NoBreak(lines[i])
    requires lines != [] ==> lines[|lines| - 1] != []
    ensures SplitLines(JoinLines(lines)) == lines
  {
    if |lines| == 1 {
      assert NoBreak(lines[0]);
    } else if |lines| > 1 {
      var rest := lines[1..];
      assert rest[|rest| - 1] == lines[|lines| - 1];
      SplitJoinLines(rest);
      assert NoBreak(lines[0]);
      SplitLinesNewline(lines[0], JoinLines(rest));
      assert lines == [lines[0]] + rest;
    }
  }
}
