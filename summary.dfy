/**
 * `chat_text_to_df` as a whole: the chat section is cut out of the text,
 * its lines are parsed into records, and the records are grouped, counted,
 * joined and sorted into the result table.
 */
module ChatSummary {
  import opened Text
  import opened ChatSection
  import opened LineParse
  import opened Aggregate

  /** The `records` list `chat_text_to_df` builds from `text`. */
  function Records(text: string): seq<Record> {
    ParseLines(SplitLines(ChatPart(text)))
  }

  /** The table `chat_text_to_df` returns for `text`. */
  function Summarize(text: string): seq<Summary> {
    SummarizeRecords(Records(text))
  }

  /** `chat_text_to_df(text)`. */
  method ChatTextToDf(text: string) returns (rows: seq<Summary>)
    ensures rows == Summarize(text)
    ensures rows == [] <==> Records(text) == []
    ensures NonIncreasing(rows) && DistinctNames(rows)
    ensures SumCounts(rows) == |Records(text)|
  {
    var chatPart := ChatPart(text);
    var records := CollectRecords(chatPart);
    SummarizeRecordsOrder(records);
    if records == [] {
      return [];
    }
    rows := SortDesc(Groups(records));
  }

  /** An empty text gives a table with no rows. */
  lemma EmptyTextNoRows()
    ensures Summarize("") == []
  {
  }

  /** The records of the first scenario. */
  function ScenarioRecords(): seq<Record> {
    [Record("Alice", "hi"), Record("Bob", "yo"), Record("Alice", "bye")]
  }

  lemma ScenarioNames()
    ensures Names(ScenarioRecords()) == ["Alice", "Bob"]
  {
    var recs := ScenarioRecords();
    assert recs[..1] == [Record("Alice", "hi")] && recs[..1][..0] == [];
    assert recs[..2] == [Record("Alice", "hi"), Record("Bob", "yo")] && recs[..2][..1] == recs[..1];
    assert Names(recs[..1]) == ["Alice"];
    assert "Bob" != "Alice";
    assert Names(recs[..2]) == ["Alice", "Bob"];
  }

  lemma ScenarioMessages()
    ensures MessagesOf(ScenarioRecords(), "Alice") == ["hi", "bye"]
    ensures MessagesOf(ScenarioRecords(), "Bob") == ["yo"]
  {
    var recs := ScenarioRecords();
    assert recs[..1] == [Record("Alice", "hi")] && recs[..1][..0] == [];
    assert recs[..2] == [Record("Alice", "hi"), Record("Bob", "yo")] && recs[..2][..1] == recs[..1];
    assert "Bob" != "Alice";
    assert MessagesOf(recs[..1], "Alice") == ["hi"] && MessagesOf(recs[..1], "Bob") == [];
    assert MessagesOf(recs[..2], "Alice") == ["hi"] && MessagesOf(recs[..2], "Bob") == ["yo"];
  }

  /** Before sorting, the scenario's groups are "Alice" then "Bob". */
  lemma ScenarioGroups()
    ensures Groups(ScenarioRecords()) == [Summary("Alice", 2, "hi | bye"), Summary("Bob", 1, "yo")]
  {
    var recs := ScenarioRecords();
    ScenarioNames();
    ScenarioMessages();
    assert Join(["hi", "bye"], Separator) == "hi | bye";
    var gs := Groups(recs);
    assert |gs| == 2;
    assert gs[0] == GroupRow(recs, "Alice");
    assert gs[1] == GroupRow(recs, "Bob");
  }

  /** The three records of the first scenario group into "Alice" (two messages) ahead of "Bob". */
  lemma TwoSendersGrouped()
    ensures SummarizeRecords(ScenarioRecords())
      == [Summary("Alice", 2, "hi | bye"), Summary("Bob", 1, "yo")]
  {
    ScenarioGroups();
    var gs := [Summary("Alice", 2, "hi | bye"), Summary("Bob", 1, "yo")];
    assert gs[1..] == [gs[1]] && gs[1..][1..] == [];
  }

  /** Neither field of the record holds a line boundary. */
  predicate OnOneLine(r: Record) {
    NoBreak(r.name) && NoBreak(r.message)
  }

  /** The chat text for `recs`: their formatted lines joined by "\n". */
  function ChatText(recs: seq<Record>): string {
    JoinLines(FormatLines(recs))
  }

  /** Formatted lines hold no boundary and are not empty. */
  lemma FormatLinesOneLine(recs: seq<Record>)
    requires forall i :: 0 <= i < |recs| ==> OnOneLine(recs[i])
    ensures forall i :: 0 <= i < |recs| ==> NoBreak(FormatLines(recs)[i]) && FormatLines(recs)[i] != []
  {
    FormatLinesAt(recs);
    forall i | 0 <= i < |recs|
      ensures NoBreak(FormatLines(recs)[i]) && FormatLines(recs)[i] != []
    {
      FormatLineOneLine(recs[i]);
    }
  }

  /** A record on one line gives a formatted line without boundaries. */
  lemma FormatLineOneLine(r: Record)
    requires OnOneLine(r)
    ensures NoBreak(FormatLine(r)) && FormatLine(r) != []
  {
    assert NoBreak(" > ");
    NoBreakConcat(r.name, " > ");
    NoBreakConcat(r.name + " > ", r.message);
  }

  /** Parsing the chat text of printable one-line records gives them back. */
  lemma ChatTextRecords(recs: seq<Record>)
    requires forall i :: 0 <= i < |recs| ==> Printable(recs[i]) && OnOneLine(recs[i])
    ensures ParseLines(SplitLines(ChatText(recs))) == recs
  {
    var lines := FormatLines(recs);
    FormatLinesOneLine(recs);
    SplitJoinLines(lines);
    FormatLinesParse(recs);
  }

  /** A character that no record, no " > " and no newline holds is nowhere in the chat text. */
  lemma ChatTextAvoids(recs: seq<Record>, c: char)
    requires c != '\n' && c != ' ' && c != '>'
    requires forall i :: 0 <= i < |recs| ==> c !in recs[i].name && c !in recs[i].message
    ensures c !in ChatText(recs)
  {
    var lines := FormatLines(recs);
    FormatLinesAt(recs);
    forall i | 0 <= i < |lines| ensures c !in lines[i] {
      var r := recs[i];
      assert lines[i] == r.name + " > " + r.message;
    }
    JoinLinesAvoids(lines, c);
  }

  /** Without a banner the whole chat text is parsed and summarised. */
  lemma PlainChatSummary(recs: seq<Record>)
    requires forall i :: 0 <= i < |recs| ==> Printable(recs[i]) && OnOneLine(recs[i])
    requires FindMarker(ChatText(recs)).None?
    ensures Records(ChatText(recs)) == recs
    ensures Summarize(ChatText(recs)) == SummarizeRecords(recs)
  {
    ChatTextRecords(recs);
  }

  /**
   * The whitespace that opens the chat text lies within its first line and
   * is blank there (a formatted line always holds a '>').
   */
  lemma FirstLineBlankPrefix(recs: seq<Record>)
    requires recs != []
    ensures var s := StripStart(ChatText(recs));
      s < |FormatLines(recs)[0]| && AllSpace(FormatLines(recs)[0][..s])
  {
    var body, lines := ChatText(recs), FormatLines(recs);
    var s := StripStart(body);
    FormatLinesAt(recs);
    var l0, r0 := lines[0], recs[0];
    assert l0 == r0.name + " > " + r0.message;
    var p := |r0.name| + 1;
    assert l0[p] == '>';
    JoinLinesHead(lines);
    assert forall k :: 0 <= k < |l0| ==> body[k] == l0[k] by {
      forall k | 0 <= k < |l0| ensures body[k] == l0[k] {
        assert body[..|l0|][k] == body[k];
      }
    }
    SpaceEndFacts(body, 0);
    assert !IsSpace(body[p]);
    AllSpaceSlice(l0, 0, s);
  }

  /**
   * Parsing the chat text from its first non-blank character on still gives
   * the records: whatever whitespace is cut from the front of the first line
   * is stripped from that line anyway.
   */
  lemma ChatTextFromFirstNonBlank(recs: seq<Record>)
    requires forall i :: 0 <= i < |recs| ==> Printable(recs[i]) && OnOneLine(recs[i])
    ensures ParseLines(SplitLines(ChatText(recs)[StripStart(ChatText(recs))..])) == recs
  {
    var body := ChatText(recs);
    var s := StripStart(body);
    if recs == [] {
      ChatTextRecords(recs);
    } else {
      var lines := FormatLines(recs);
      FormatLinesOneLine(recs);
      FirstLineBlankPrefix(recs);
      SplitJoinLinesDrop(lines, s);
      ParseLinesDropBlank(lines, s);
      FormatLinesParse(recs);
    }
  }

  /**
   * Behind a preamble without '=' and a banner line, the chat text is what
   * gets parsed and summarised; the preamble is ignored.
   */
  lemma BannerChatSummary(pre: string, recs: seq<Record>)
    requires '=' !in pre
    requires forall i :: 0 <= i < |recs| ==> Printable(recs[i]) && OnOneLine(recs[i])
    ensures Records(pre + Banner + "\n" + ChatText(recs)) == recs
    ensures Summarize(pre + Banner + "\n" + ChatText(recs)) == SummarizeRecords(recs)
  {
    BannerLineCut(pre, ChatText(recs));
    ChatTextFromFirstNonBlank(recs);
  }

  /** The scenario's records can be written as chat lines and read back. */
  lemma ScenarioPrintable()
    ensures forall i :: 0 <= i < |ScenarioRecords()| ==>
      Printable(ScenarioRecords()[i]) && OnOneLine(ScenarioRecords()[i]) &&
      '=' !in ScenarioRecords()[i].name && '=' !in ScenarioRecords()[i].message
  {
    var recs := ScenarioRecords();
    assert Stripped("Alice") && Stripped("Bob") && Stripped("hi") && Stripped("yo") && Stripped("bye");
  }

  /** Without a banner every line counts; "Alice" has two messages and comes first. */
  lemma TwoSendersNoBanner()
    ensures Summarize(ChatText(ScenarioRecords()))
      == [Summary("Alice", 2, "hi | bye"), Summary("Bob", 1, "yo")]
  {
    ScenarioPrintable();
    ChatTextAvoids(ScenarioRecords(), '=');
    NoEqualsWholeText(ChatText(ScenarioRecords()));
    PlainChatSummary(ScenarioRecords());
    TwoSendersGrouped();
  }

  /** A preamble before the banner contributes nothing. */
  lemma TwoSendersAfterBanner()
    ensures Summarize("Exported by the chat tool\n" + Banner + "\n" + ChatText(ScenarioRecords()))
      == [Summary("Alice", 2, "hi | bye"), Summary("Bob", 1, "yo")]
  {
    ScenarioPrintable();
    BannerChatSummary("Exported by the chat tool\n", ScenarioRecords());
    TwoSendersGrouped();
  }
}
