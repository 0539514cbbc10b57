# Chat history summariser, modelled in Dafny

`chat_text_to_df` (main.py) turns the plain-text export of a meeting chat
into a per-sender table. It works in four steps:

1. **Section extraction.** It searches for a banner of the form
   `=+\s*Chat History\s*=+\s*`, case-insensitively, and keeps only what
   follows the leftmost one. Without a banner it keeps the whole text.
2. **Line parsing.** Every line of that section is stripped, and blank lines
   are skipped. `^\s*(.*?)\s*>\s*(.+?)\s*$` splits each remaining line into
   a sender name and a message, and both are stripped again.
3. **Grouping.** Records are grouped by exact name. Each group gives a row
   with its size (`message_count`) and its messages joined by `" | "` in
   encounter order (`messages_concat`).
4. **Sorting.** Rows are ordered by descending count. If no record was
   parsed, the table has no rows.

The project has one module per step, plus two support modules:

| file | module | content |
|---|---|---|
| `wrappers.dfy` | `Wrappers` | `Option` |
| `text.dfy` | `Text` | what the parser uses of Python strings: `str.isspace` (the set `\s` matches), `str.strip` and `str.splitlines` |
| `marker.dfy` | `ChatSection` | step 1 |
| `lines.dfy` | `LineParse` | step 2, including the record-collecting loop as a method |
| `aggregate.dfy` | `Aggregate` | steps 3 and 4 |
| `summary.dfy` | `ChatSummary` | the whole function and worked scenarios |

Both regular expressions are replaced by scanners. For each pattern, a
declarative predicate states the pattern's language over explicit spans:
`MarkerMatch` for the banner and `IsMatch` for a chat line. Lemmas prove
that a scanner accepts exactly the strings the pattern matches. They also
prove it picks the split a backtracking engine reports: greedy runs for the
banner, and the lazy, shortest name group for a chat line.

The result table is a `seq<Summary>`. Each `Summary(studentName,
messageCount, messagesConcat)` is one row.

## Model

| member | source | states |
|---|---|---|
| `Text.Strip` | main.py:21 | the result is the input with a whitespace-only prefix and suffix removed, and neither of its ends is whitespace |
| `Text.StripUnique` | main.py:21 | any split of a string into blank, stripped core and blank strips to that core, so `strip` is determined by its defining property |
| `Text.StripIdempotent` | main.py:27-28 | stripping twice is stripping once, so re-stripping the captured groups of a stripped line is harmless |
| `Text.SplitLines` | main.py:20 | no line holds a line boundary; the empty text has no lines; a text without a boundary is one line |
| `Text.SplitLinesNewline` | main.py:20 | a boundary-free line followed by "\n" becomes its own line, and splitting carries on after it |
| `Text.SplitLinesCrLf` | main.py:20 | "\r\n" counts as a single boundary |
| `Text.SplitJoinLines` | main.py:20 | splitting lines joined by "\n" gives them back when none holds a boundary and the last is not empty |
| `ChatSection.FindMarker` | main.py:11 | a result is the leftmost position where the banner matches; no result means the banner occurs nowhere |
| `ChatSection.ChatPart` | main.py:11-12 | without a banner, the section is the whole text; otherwise it is the text after the leftmost banner's closing `=` run and the whitespace that follows it |
| `ChatSection.MarkerAtIffMatch` | main.py:11 | the scanner accepts position i exactly when some split of the text at i matches `=+\s*Chat History\s*=+\s*` |
| `ChatSection.GreedySpanMatches` | main.py:11 | the split that the scanner's maximal runs describe is such a match, and it ends where the section starts |
| `ChatSection.MatchIsGreedyBounded` | main.py:11-12 | every match at i is accepted by the scanner and ends no later than the scanner's end, so group 1 starts where the greedy engine puts it |
| `ChatSection.NoEqualsWholeText` | main.py:12 | a text without '=' holds no banner and is parsed whole |
| `ChatSection.BannerLineCut` | main.py:11-12 | after a preamble without '=', a "=== Chat History ===" line cuts the text down to what follows that line, minus any whitespace that opens it (the pattern's last `\s*` takes it); any body, including one starting with '=' |
| `LineParse.MatchLineSpec` | main.py:17-28 | a stripped line matches exactly when it holds a '>' before its last character; name and message are the stripped text around the first '>' |
| `LineParse.ParseLineSpec` | main.py:20-29 | a raw line gives a record exactly when its stripped form has a '>' before its last character; the record is the stripped text around the first '>', and both fields are stripped with a non-empty message |
| `LineParse.MatchLineIsRegexMatch` | main.py:17-28 | on a stripped line the first-'>' rule succeeds exactly when `^\s*(.*?)\s*>\s*(.+?)\s*$` has a match; every match with the shortest group 1 strips to the same record |
| `LineParse.ParseLineIsRegexMatch` | main.py:21-28 | the same for a raw line: stripping, the blank-line skip and `pattern.match` together give a record exactly when the pattern matches the stripped line |
| `LineParse.ChosenSpanMatches` | main.py:17 | when a '>' precedes the last character, the split at the first '>' is a match whose group 1 is no longer than that of any other match |
| `LineParse.BlankLineSkipped` | main.py:21-23 | a blank or whitespace-only line produces no record |
| `LineParse.SkippedLineIrrelevant` | main.py:22-26 | removing a line that produces no record leaves the records unchanged |
| `LineParse.ParseLinesAppend` | main.py:19-29 | the records of concatenated line lists are the concatenated records, in order |
| `LineParse.FormattedLineParses` | main.py:17-29 | a line "name > message" with stripped fields, a non-empty message and no '>' in the name reads back as that record |
| `LineParse.FormatLinesParse` | main.py:19-29 | formatting printable records one per line and parsing the lines gives the records back |
| `LineParse.CollectRecords` | main.py:19-29 | the loop over the section's lines returns exactly the records `ParseLines` assigns to those lines |
| `Aggregate.Names` | main.py:38 | the group keys are pairwise distinct and are exactly the names of the records |
| `Aggregate.MessagesOfFrom` | main.py:38-41 | every message grouped under a name comes from a record with that name |
| `Aggregate.MessagesOfAppend` | main.py:41 | a name's messages in concatenated records are its messages in each part, in encounter order |
| `Aggregate.GroupsCountTotal` | main.py:38-40 | the group sizes add up to the number of records |
| `Aggregate.GroupsShape` | main.py:38-41 | the groups have distinct names and cover every record's name and no other; each group is counted at least once and holds that name's messages joined by `Separator` |
| `Aggregate.SortDescSorted` | main.py:43 | the sorted table is non-increasing in `message_count` |
| `Aggregate.SortDesc` | main.py:43 | sorting permutes the rows (equal multisets) |
| `Aggregate.SortDescDistinct` | main.py:43 | sorting keeps the names pairwise distinct |
| `Aggregate.SortDescSum` | main.py:43 | sorting keeps the total count |
| `Aggregate.SummarizeRecordsOrder` | main.py:33-45 | no rows exactly when no records; rows non-increasing in count and a permutation of the groups; names distinct; counts adding up to the number of records |
| `Aggregate.SummarizeRecordsRows` | main.py:37-45 | one row per distinct parsed name (the empty name included) and no other, with that name's count (at least one) and its messages joined by `Separator` (space, bar, space) in encounter order |
| `Aggregate.SplitJoin` | main.py:41 | splitting `messages_concat` on `Separator` gives back exactly the group's messages, provided no message contains a bar character |
| `Aggregate.SplitJoinNeedsNoSeparator` | main.py:41 | without that proviso the round trip fails: a single message holding `Separator` splits into two |
| `Aggregate.SplitJoinNeedsNoTrailingBar` | main.py:41 | a message can break the round trip without holding `Separator`: the messages "a" + blank + bar and "b" join to a text that splits into "a" and bar + blank + "b" |
| `ChatSummary.ChatTextToDf` | main.py:4-47 | the returned table is the summary of the text; it is empty exactly when no record was parsed, non-increasing in count, has distinct names, and its counts add up to the number of records |
| `ChatSummary.EmptyTextNoRows` | main.py:33-34 | an empty text gives a table with no rows |
| `ChatSummary.PlainChatSummary` | main.py:4-47 | a chat text "name > message" per line, in which the banner occurs nowhere, reads back as its records, and its table is theirs; the records' names and messages must be stripped and on one line, the names free of '>', the messages non-empty |
| `ChatSummary.BannerChatSummary` | main.py:4-47 | a preamble without '=' before the banner line is ignored: the chat text after the banner reads back as its records and gives their table, under the same conditions on the records as above; an empty first name is allowed |
| `ChatSummary.TwoSendersGrouped` | main.py:37-45 | records (Alice, hi), (Bob, yo), (Alice, bye) give the rows (Alice, 2, "hi" and "bye" joined by `Separator`) then (Bob, 1, "yo") |
| `ChatSummary.TwoSendersNoBanner` | main.py:4-47 | the chat text "Alice > hi\nBob > yo\nAlice > bye" gives those two rows |
| `ChatSummary.TwoSendersAfterBanner` | main.py:4-47 | the same chat text behind a preamble and the banner line gives the same two rows |

## Left out

- The pandas DataFrame machinery (main.py:31, 34, 37-45) is not modelled, because pandas is a foreign library. The table is a sequence of `Summary` rows, and the empty table's column schema is not modelled.
- Tie order among rows with equal counts is not stated. `groupby` sorts its keys and `sort_values` defaults to a non-stable sort, so the code promises no order for ties. The model groups by first appearance and inserts ties ahead. The lemmas claim only a permutation of the groups with non-increasing counts. A stable first-appearance tie order is described for this program, but the code does not guarantee it. The model follows the code.
- The general regular-expression engine is not modelled. Both patterns are replaced by scanners, and the scanners are proved equivalent to declarative statements of the patterns.
- ChatSection.EqualsIgnoreCase: `re.IGNORECASE` is modelled for ASCII letters only. Unicode folding (for example 'ſ' matching 's', or 'İ' matching 'i') is not.
- LineParse.ParseLineIsRegexMatch: it is stated for lines without '\n', which is every line `splitlines` produces. `.` in the line pattern does not match '\n'.
- Aggregate.SplitJoin: the round trip is proved only when no message contains a bar. For stripped messages a weaker condition should suffice: no message holds `Separator`, and no message except the last ends with a blank followed by a bar. That is not proved here. `SplitJoinNeedsNoSeparator` and `SplitJoinNeedsNoTrailingBar` show that neither half of it can be dropped.
- An empty sender name is a valid group key, as in the code. The model does not exclude whitespace-only names, because stripping turns them into the empty name, which the code keeps.
- The `__main__` block (main.py:50-54) is not modelled: it only prints the table, and its CSV write is commented out. Reading the input is the caller's concern.
