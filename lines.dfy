/**
 * Step 2 of `chat_text_to_df`: every line of the chat section is stripped,
 * blank lines are skipped, and `^\s*(.*?)\s*>\s*(.+?)\s*$` splits the rest
 * into a sender and a message.  On a stripped line that pattern matches
 * exactly when some '>' is not the last character, and its lazy first group
 * ends at the first '>'; `MatchLine` is that rule, and `IsMatch` with
 * `ParseLineIsRegexMatch` ties it back to the pattern.
 */
module LineParse {
  import opened Wrappers
  import opened Text

  /** One `(name, msg)` tuple appended to `records`. */
  datatype Record = Record(name: string, message: string)

  /** Index of the first occurrence of `c` in `s`, if any. */
  function FirstIndexOf(s: string, c: char): (r: Option<nat>)
    ensures r.None? <==> c !in s
    ensures r.Some? ==> r.value < |s| && s[r.value] == c && c !in s[..r.value]
  {
    if s == [] then None
    else if s[0] == c then Some(0)
    else
      match FirstIndexOf(s[1..], c)
      case None => None
      case Some(i) =>
        assert s[..i + 1] == [s[0]] + s[1..][..i];
        Some(i + 1)
  }

  /** `c` is absent from `s[..k]`, read index by index. */
  lemma NotInPrefix(s: string, c: char, k: nat)
    requires k <= |s| && c !in s[..k]
    ensures forall j :: 0 <= j < k ==> s[j] != c
  {
    assert forall j :: 0 <= j < k ==> s[..k][j] == s[j];
  }

  /** A stripped line whose last character is not whitespace strips to a non-empty tail. */
  lemma TailNotBlank(line: string, k: nat)
    requires Stripped(line) && k < |line| - 1
    ensures Strip(line[k + 1..]) != []
  {
    var msg := line[k + 1..];
    assert msg[|msg| - 1] == line[|line| - 1];
    assert !AllSpace(msg);
    var r, i := Strip(msg), StripStart(msg);
    assert msg == msg[..i] + r + msg[i + |r|..];
  }

  /**
   * `pattern.match(line)` on a line that has already been stripped, with the
   * captured groups stripped again.  Its contract is `MatchLineSpec`.
   */
  function MatchLine(line: string): (r: Option<Record>)
    requires Stripped(line)
    ensures r.Some? ==> r.value.message != []
  {
    match FirstIndexOf(line, '>')
    case None => None
    case Some(k) =>
      if k == |line| - 1 then None
      else
        TailNotBlank(line, k);
        Some(Record(Strip(line[..k]), Strip(line[k + 1..])))
  }

  /**
   * A stripped line yields a record exactly when some '>' stands before its
   * last character; the name and message are what lies before and after the
   * first '>', stripped.
   */
  lemma MatchLineSpec(line: string)
    requires Stripped(line)
    ensures MatchLine(line).Some? <==> exists k :: 0 <= k < |line| - 1 && line[k] == '>'
    ensures MatchLine(line).Some? ==>
      exists k :: 0 <= k < |line| - 1 && line[k] == '>' && '>' !in line[..k]
                  && MatchLine(line).value == Record(Strip(line[..k]), Strip(line[k + 1..]))
  {
    match FirstIndexOf(line, '>')
    case None =>
    case Some(k) =>
      NotInPrefix(line, '>', k);
  }

  /** The body of the `for` loop for one raw line: strip, skip blanks, match. */
  function ParseLine(raw: string): (r: Option<Record>)
    ensures r.Some? ==> r.value.message != []
  {
    var line := Strip(raw);
    if line == [] then None else MatchLine(line)
  }

  /**
   * A raw line contributes a record exactly when, once stripped, it has a '>'
   * before its last character; name and message are the stripped text around
   * the first '>', and both come out stripped with a non-empty message.
   */
  lemma ParseLineSpec(raw: string)
    ensures var line := Strip(raw);
      ParseLine(raw).Some? <==> exists k :: 0 <= k < |line| - 1 && line[k] == '>'
    ensures var line := Strip(raw);
      ParseLine(raw).Some? ==>
        exists k :: 0 <= k < |line| - 1 && line[k] == '>' && '>' !in line[..k]
                    && ParseLine(raw).value == Record(Strip(line[..k]), Strip(line[k + 1..]))
    ensures ParseLine(raw).Some? ==>
      ParseLine(raw).value.message != [] && Stripped(ParseLine(raw).value.name) && Stripped(ParseLine(raw).value.message)
  {
    var line := Strip(raw);
    if line != [] {
      MatchLineSpec(line);
    }
  }

  /** The first '>' of `s`, located from what surrounds it. */
  lemma FirstIndexOfAt(s: string, c: char, k: nat)
    requires k < |s| && s[k] == c && forall j :: 0 <= j < k ==> s[j] != c
    ensures FirstIndexOf(s, c) == Some(k)
  {
    assert s[k] in s;
    NotInPrefix(s, c, FirstIndexOf(s, c).value);
  }

  /** The stripped form of "name > message": the leading blank goes when the name is empty. */
  function FormattedCore(name: string, msg: string): string {
    if name == [] then "> " + msg else name + " > " + msg
  }

  lemma FormattedStrip(name: string, msg: string)
    requires Stripped(name) && Stripped(msg) && msg != []
    ensures Strip(name + " > " + msg) == FormattedCore(name, msg)
  {
    var line := name + " > " + msg;
    var l := FormattedCore(name, msg);
    if name == [] {
      assert line == " " + l + [];
      StripUnique(line, " ", l, []);
    } else {
      assert line == [] + line + [];
      assert line[0] == name[0] && line[|line| - 1] == msg[|msg| - 1];
      StripUnique(line, [], line, []);
    }
  }

  lemma FormattedSeparator(name: string, msg: string)
    requires '>' !in name
    ensures var l := FormattedCore(name, msg);
      FirstIndexOf(l, '>') == Some(|l| - |msg| - 2)
      && l[..|l| - |msg| - 2] == (if name == [] then [] else name + " ")
      && l[|l| - |msg| - 1..] == " " + msg
  {
    var l := FormattedCore(name, msg);
    var k := |l| - |msg| - 2;
    assert l[k] == '>';
    forall j | 0 <= j < k ensures l[j] != '>' {
      if j < |name| { assert l[j] == name[j] && name[j] in name; }
    }
    FirstIndexOfAt(l, '>', k);
  }

  /** A blank before a stripped message is stripped away. */
  lemma StripAfterBlank(msg: string)
    requires Stripped(msg)
    ensures Strip(" " + msg) == msg
  {
    assert " " + msg == " " + msg + [];
    StripUnique(" " + msg, " ", msg, []);
  }

  /** A blank after a stripped name is stripped away. */
  lemma StripBeforeBlank(name: string)
    requires Stripped(name)
    ensures Strip(name + " ") == name
  {
    assert name + " " == [] + name + " ";
    StripUnique(name + " ", [], name, " ");
  }

  /**
   * A line as the chat export writes it, "name > message", parses back to
   * that name and message, whenever both are already stripped, the message is
   * not empty and the name holds no '>'. The name may be empty.
   */
  lemma FormattedLineParses(name: string, msg: string)
    requires Stripped(name) && '>' !in name
    requires Stripped(msg) && msg != []
    ensures ParseLine(name + " > " + msg) == Some(Record(name, msg))
  {
    var l := FormattedCore(name, msg);
    var k := |l| - |msg| - 2;
    FormattedStrip(name, msg);
    FormattedSeparator(name, msg);
    MatchLineAt(l, k);
    if name != [] {
      StripBeforeBlank(name);
    }
    StripAfterBlank(msg);
  }

  /** A stripped line whose first '>' is at `k`, before its last character, gives the record around `k`. */
  lemma MatchLineAt(line: string, k: nat)
    requires Stripped(line) && FirstIndexOf(line, '>') == Some(k) && k < |line| - 1
    ensures MatchLine(line) == Some(Record(Strip(line[..k]), Strip(line[k + 1..])))
  {
  }


  /** A blank or whitespace-only line yields nothing; it cannot hold a '>'. */
  lemma BlankLineSkipped(raw: string)
    requires AllSpace(raw)
    ensures ParseLine(raw) == None
  {
    var line := Strip(raw);
    assert |line| <= |raw|;
    StripUnique(raw, raw, [], []);
  }

  /** `records` after the loop has run over `lines`. */
  function ParseLines(lines: seq<string>): (records: seq<Record>)
    ensures |records| <= |lines|
    ensures forall r :: r in records ==> r.message != []
  {
    if lines == [] then []
    else
      var init := ParseLines(lines[..|lines| - 1]);
      match ParseLine(lines[|lines| - 1])
      case None => init
      case Some(r) => init + [r]
  }

  /** The chat line `name > message` that records `r`. */
  function FormatLine(r: Record): string {
    r.name + " > " + r.message
  }

  /** A record that a chat line can carry and parsing gives back unchanged. */
  predicate Printable(r: Record) {
    Stripped(r.name) && '>' !in r.name && Stripped(r.message) && r.message != []
  }

  /** One chat line per record, in order. */
  function FormatLines(recs: seq<Record>): (lines: seq<string>)
    ensures |lines| == |recs|
  {
    if recs == [] then [] else FormatLines(recs[..|recs| - 1]) + [FormatLine(recs[|recs| - 1])]
  }

  /** A line that parses adds its record after those of the lines before it. */
  lemma ParseLinesSnoc(xs: seq<string>, l: string, r: Record)
    requires ParseLine(l) == Some(r)
    ensures ParseLines(xs + [l]) == ParseLines(xs) + [r]
  {
    assert (xs + [l])[..|xs|] == xs;
  }

  /** Line `i` is the line of record `i`. */
  lemma {:induction false} FormatLinesAt(recs: seq<Record>)
    ensures forall i :: 0 <= i < |recs| ==> FormatLines(recs)[i] == FormatLine(recs[i])
  {
    if recs != [] {
      var init := recs[..|recs| - 1];
      FormatLinesAt(init);
      assert forall i :: 0 <= i < |init| ==> init[i] == recs[i];
    }
  }

  /** Parsing the lines written for printable records gives those records back. */
  lemma {:induction false} FormatLinesParse(recs: seq<Record>)
    requires forall i :: 0 <= i < |recs| ==> Printable(recs[i])
    ensures ParseLines(FormatLines(recs)) == recs
  {
    if recs != [] {
      var init := recs[..|recs| - 1];
      var last := recs[|recs| - 1];
      assert recs == init + [last];
      FormatLinesParse(init);
      FormattedLineParses(last.name, last.message);
      ParseLinesSnoc(FormatLines(init), FormatLine(last), last);
    }
  }

  /** Lines are parsed independently: the records of a concatenation are concatenated. */
  lemma {:induction false} ParseLinesAppend(xs: seq<string>, ys: seq<string>)
    ensures ParseLines(xs + ys) == ParseLines(xs) + ParseLines(ys)
    decreases |ys|
  {
    if ys == [] {
      assert xs + ys == xs;
    } else {
      var ys' := ys[..|ys| - 1];
      assert (xs + ys)[..|xs + ys| - 1] == xs + ys';
      assert (xs + ys)[|xs + ys| - 1] == ys[|ys| - 1];
      ParseLinesAppend(xs, ys');
    }
  }

  /** Blanks cut from the front of the first line change no record. */
  lemma ParseLinesDropBlank(lines: seq<string>, k: nat)
    requires lines != [] && k <= |lines[0]| && AllSpace(lines[0][..k])
    ensures ParseLines([lines[0][k..]] + lines[1..]) == ParseLines(lines)
  {
    var l0 := lines[0];
    var w, l0' := l0[..k], l0[k..];
    assert w + l0' == l0;
    assert w + l0' + [] == w + l0';
    StripSurrounded(w, l0', []);
    SameFirstRecord(l0', lines);
  }

  /** Replacing the first line by one that strips alike changes no record. */
  lemma SameFirstRecord(a: string, lines: seq<string>)
    requires lines != [] && Strip(a) == Strip(lines[0])
    ensures ParseLines([a] + lines[1..]) == ParseLines(lines)
  {
    var b, rest := lines[0], lines[1..];
    assert ParseLine(a) == ParseLine(b);
    assert [a][..0] == [] && [b][..0] == [];
    assert ParseLines([a]) == ParseLines([b]);
    ParseLinesAppend([a], rest);
    ParseLinesAppend([b], rest);
    assert lines == [b] + rest;
  }

  /** One more line adds its record, if any. */
  lemma ParseLinesStep(lines: seq<string>, i: nat)
    requires i < |lines|
    ensures ParseLines(lines[..i + 1]) ==
      ParseLines(lines[..i]) + (match ParseLine(lines[i]) case None => [] case Some(r) => [r])
  {
    assert lines[..i + 1][..i] == lines[..i];
  }

  /**
   * A line that yields no record (blank, whitespace only, or without a usable
   * '>') can be removed without changing the records, hence without changing
   * any count built from them.
   */
  lemma SkippedLineIrrelevant(xs: seq<string>, l: string, ys: seq<string>)
    requires ParseLine(l) == None
    ensures ParseLines(xs + [l] + ys) == ParseLines(xs + ys)
  {
    ParseLinesAppend(xs + [l], ys);
    ParseLinesAppend(xs, [l]);
    ParseLinesAppend(xs, ys);
    assert ParseLines([l]) == [] by {
      assert [l][..0] == [];
    }
  }

  /** The loop of `chat_text_to_df` that collects `records` from the chat section. */
  method CollectRecords(chatPart: string) returns (records: seq<Record>)
    ensures records == ParseLines(SplitLines(chatPart))
  {
    var lines := SplitLines(chatPart);
    records := [];
    for i := 0 to |lines|
      invariant records == ParseLines(lines[..i])
    {
      ParseLinesStep(lines, i);
      var line := Strip(lines[i]);
      if line == [] {
        assert ParseLine(lines[i]) == None;
        continue;
      }
      var m := MatchLine(line);
      assert ParseLine(lines[i]) == m;
      if m.Some? {
        records := records + [m.value];
      }
    }
    assert lines[..|lines|] == lines;
  }

  /** The boundaries of one match of `^\s*(.*?)\s*>\s*(.+?)\s*$`. */
  datatype LineSpan = LineSpan(nameStart: nat, nameEnd: nat, sep: nat, msgStart: nat, msgEnd: nat)

  /**
   * `d` splits `line` as the pattern does: leading blanks, group 1 (no
   * newline), blanks, '>', blanks, group 2 (non-empty, no newline), blanks.
   */
  ghost predicate IsMatch(line: string, d: LineSpan) {
    && d.nameStart <= d.nameEnd <= d.sep < d.msgStart < d.msgEnd <= |line|
    && AllSpace(line[..d.nameStart])
    && '\n' !in line[d.nameStart..d.nameEnd]
    && AllSpace(line[d.nameEnd..d.sep])
    && line[d.sep] == '>'
    && AllSpace(line[d.sep + 1..d.msgStart])
    && '\n' !in line[d.msgStart..d.msgEnd]
    && AllSpace(line[d.msgEnd..])
  }

  /** The lazy group 1 of `d` is as short as in any match: the match the engine reports. */
  ghost predicate ShortestName(line: string, d: LineSpan) {
    forall d' :: IsMatch(line, d') ==> d.nameEnd <= d'.nameEnd
  }

  /** The match reported for a stripped line with a '>' before its end. */
  function ChosenSpan(line: string): LineSpan
    requires Stripped(line) && FirstIndexOf(line, '>').Some?
  {
    var k := FirstIndexOf(line, '>').value;
    LineSpan(0, SpaceStartBack(line, 0, k), k, k + 1, |line|)
  }

  /**
   * On a stripped line every match starts group 1 at 0, has its '>' no
   * earlier than the first '>', does not end group 1 before the trailing
   * blanks ahead of that '>', and has a group 2 that strips like the text
   * after its '>'.
   */
  lemma AnyMatchBounds(line: string, d: LineSpan)
    requires Stripped(line) && IsMatch(line, d)
    ensures FirstIndexOf(line, '>').Some?
    ensures FirstIndexOf(line, '>').value <= d.sep
    ensures d.nameStart == 0
    ensures SpaceStartBack(line, 0, FirstIndexOf(line, '>').value) <= d.nameEnd
    ensures Strip(line[d.msgStart..d.msgEnd]) == Strip(line[d.sep + 1..])
  {
    assert line[d.sep] == '>';
    var k := FirstIndexOf(line, '>').value;
    NotInPrefix(line, '>', k);
    AllSpaceSlice(line, 0, d.nameStart);
    AllSpaceSlice(line, d.nameEnd, d.sep);
    assert d.nameStart == 0;
    var t := SpaceStartBack(line, 0, k);
    assert t <= d.nameEnd;
    var tail := line[d.sep + 1..];
    assert tail == line[d.sep + 1..d.msgStart] + line[d.msgStart..d.msgEnd] + line[d.msgEnd..];
    StripSurrounded(line[d.sep + 1..d.msgStart], line[d.msgStart..d.msgEnd], line[d.msgEnd..]);
  }

  /** A match whose group 1 ends no later than the first '>' uses that '>' as separator. */
  lemma ShortMatchSeparator(line: string, d: LineSpan)
    requires Stripped(line) && IsMatch(line, d)
    requires FirstIndexOf(line, '>').Some? && d.nameEnd <= FirstIndexOf(line, '>').value
    ensures d.sep == FirstIndexOf(line, '>').value
  {
    var k := FirstIndexOf(line, '>').value;
    AnyMatchBounds(line, d);
    AllSpaceSlice(line, d.nameEnd, d.sep);
    assert !IsSpace(line[k]);
  }

  /** `line[..k].strip()` keeps what lies before the blanks ahead of `k`, stripped. */
  lemma NameStrip(line: string, k: nat)
    requires k <= |line|
    ensures Strip(line[..k]) == Strip(line[..SpaceStartBack(line, 0, k)])
  {
    var t := SpaceStartBack(line, 0, k);
    assert line[..k] == [] + line[..t] + line[t..k];
    AllSpaceSlice(line, t, k);
    StripSurrounded([], line[..t], line[t..k]);
  }

  /** The match with the shortest group 1 strips to exactly the record `MatchLine` builds. */
  lemma ShortestMatchRecord(line: string, d: LineSpan)
    requires '\n' !in line && Stripped(line)
    requires IsMatch(line, d) && ShortestName(line, d)
    ensures MatchLine(line) == Some(Record(Strip(line[d.nameStart..d.nameEnd]), Strip(line[d.msgStart..d.msgEnd])))
  {
    ShortestMatchPlace(line, d);
    var k := d.sep;
    NameStrip(line, k);
    assert line[d.nameStart..d.nameEnd] == line[..SpaceStartBack(line, 0, k)];
  }

  /** Where the shortest match puts its parts: group 1 ends at the blanks before the first '>'. */
  lemma ShortestMatchPlace(line: string, d: LineSpan)
    requires '\n' !in line && Stripped(line)
    requires IsMatch(line, d) && ShortestName(line, d)
    ensures FirstIndexOf(line, '>') == Some(d.sep) && d.sep < |line| - 1
    ensures d.nameStart == 0 && d.nameEnd == SpaceStartBack(line, 0, d.sep)
    ensures Strip(line[d.msgStart..d.msgEnd]) == Strip(line[d.sep + 1..])
  {
    AnyMatchBounds(line, d);
    ChosenSpanMatches(line);
    assert d.nameEnd <= ChosenSpan(line).nameEnd;
    ShortMatchSeparator(line, d);
  }

  /**
   * `MatchLine` agrees with the regular expression on a stripped line: the
   * pattern matches exactly when a record is produced, and every match with
   * the shortest group 1 (the one a backtracking engine reports for a lazy
   * group) strips to the record's name and message.
   */
  lemma MatchLineIsRegexMatch(line: string)
    requires '\n' !in line && Stripped(line)
    ensures MatchLine(line).Some? <==> exists d :: IsMatch(line, d)
    ensures forall d :: IsMatch(line, d) && ShortestName(line, d) ==>
      MatchLine(line) == Some(Record(Strip(line[d.nameStart..d.nameEnd]), Strip(line[d.msgStart..d.msgEnd])))
  {
    if MatchLine(line).Some? {
      ChosenSpanMatches(line);
    }
    forall d | IsMatch(line, d) ensures MatchLine(line).Some? {
      AnyMatchBounds(line, d);
    }
    forall d | IsMatch(line, d) && ShortestName(line, d)
      ensures MatchLine(line) == Some(Record(Strip(line[d.nameStart..d.nameEnd]), Strip(line[d.msgStart..d.msgEnd])))
    {
      ShortestMatchRecord(line, d);
    }
  }

  /**
   * The same for a raw line of the chat section (which never holds a
   * newline): `pattern.match` is applied to `line.strip()`, and a blank line
   * has no match, so skipping it first changes nothing.
   */
  lemma ParseLineIsRegexMatch(raw: string)
    requires '\n' !in raw
    ensures var line := Strip(raw);
      ParseLine(raw).Some? <==> exists d :: IsMatch(line, d)
    ensures var line := Strip(raw);
      forall d :: IsMatch(line, d) && ShortestName(line, d) ==>
        ParseLine(raw) == Some(Record(Strip(line[d.nameStart..d.nameEnd]), Strip(line[d.msgStart..d.msgEnd])))
  {
    var line := Strip(raw);
    assert '\n' !in line by {
      assert forall j :: 0 <= j < |line| ==> line[j] == raw[StripStart(raw) + j];
    }
    MatchLineIsRegexMatch(line);
  }

  /** The span `ChosenSpan` describes is a match with the shortest group 1. */
  lemma ChosenSpanMatches(line: string)
    requires '\n' !in line && Stripped(line)
    requires FirstIndexOf(line, '>').Some? && FirstIndexOf(line, '>').value < |line| - 1
    ensures IsMatch(line, ChosenSpan(line)) && ShortestName(line, ChosenSpan(line))
  {
    var k := FirstIndexOf(line, '>').value;
    var t := SpaceStartBack(line, 0, k);
    var d := ChosenSpan(line);
    AllSpaceSlice(line, t, k);
    assert line[k + 1..k + 1] == [] && line[|line|..] == [];
    assert '\n' !in line[0..t] && '\n' !in line[k + 1..|line|];
    assert IsMatch(line, d);
    forall d' | IsMatch(line, d') ensures d.nameEnd <= d'.nameEnd {
      AnyMatchBounds(line, d');
    }
  }
}
