/**
 * Steps 3 and 4 of `chat_text_to_df`: `groupby("student_name")` with
 * `message_count` (the group's size) and `messages_concat` (its messages
 * joined with " | "), then `sort_values("message_count", ascending=False)`,
 * with the explicit empty result when no record was parsed.
 */
module Aggregate {
  import opened Wrappers
  import opened LineParse

  /** One row of the result table. */
  datatype Summary = Summary(studentName: string, messageCount: nat, messagesConcat: string)

  /** The separator of `" | ".join(x)`. */
  const Separator: string := " | "

  /** Python's `sep.join(parts)`. */
  function Join(parts: seq<string>, sep: string): string {
    if parts == [] then []
    else if |parts| == 1 then parts[0]
    else parts[0] + sep + Join(parts[1..], sep)
  }

  predicate Distinct(names: seq<string>) {
    forall i, j :: 0 <= i < j < |names| ==> names[i] != names[j]
  }

  /** The group keys: each distinct name once, in order of first appearance. */
  function Names(recs: seq<Record>): (names: seq<string>)
    ensures Distinct(names)
    ensures forall n :: n in names <==> exists r :: r in recs && r.name == n
  {
    if recs == [] then []
    else
      var init := Names(recs[..|recs| - 1]);
      var last := recs[|recs| - 1];
      assert recs == recs[..|recs| - 1] + [last];
      if last.name in init then init else init + [last.name]
  }

  /** The messages of the records sent by `name`, in the order they were read. */
  function MessagesOf(recs: seq<Record>, name: string): (msgs: seq<string>)
    ensures |msgs| <= |recs|
  {
    if recs == [] then []
    else
      var init := MessagesOf(recs[..|recs| - 1], name);
      var last := recs[|recs| - 1];
      if last.name == name then init + [last.message] else init
  }

  /** The aggregated row of the group `name`. */
  function GroupRow(recs: seq<Record>, name: string): Summary {
    var msgs := MessagesOf(recs, name);
    Summary(name, |msgs|, Join(msgs, Separator))
  }

  /** The rows of the groups `names`, in that order. */
  function Rows(names: seq<string>, recs: seq<Record>): (rows: seq<Summary>)
    ensures |rows| == |names|
    ensures forall i :: 0 <= i < |names| ==> rows[i] == GroupRow(recs, names[i])
  {
    if names == [] then []
    else Rows(names[..|names| - 1], recs) + [GroupRow(recs, names[|names| - 1])]
  }

  /** The grouped table before sorting. */
  function Groups(recs: seq<Record>): seq<Summary> {
    Rows(Names(recs), recs)
  }

  function SumCounts(rows: seq<Summary>): nat {
    if rows == [] then 0 else rows[0].messageCount + SumCounts(rows[1..])
  }

  predicate NonIncreasing(rows: seq<Summary>) {
    forall i, j :: 0 <= i < j < |rows| ==> rows[i].messageCount >= rows[j].messageCount
  }

  predicate DistinctNames(rows: seq<Summary>) {
    forall i, j :: 0 <= i < j < |rows| ==> rows[i].studentName != rows[j].studentName
  }

  /** Inserts `x` into a table ordered by descending count, ahead of rows with the same count. */
  function InsertDesc(x: Summary, rows: seq<Summary>): (r: seq<Summary>)
    ensures multiset(r) == multiset(rows) + multiset{x}
  {
    if rows == [] || x.messageCount >= rows[0].messageCount then [x] + rows
    else
      assert rows == [rows[0]] + rows[1..];
      [rows[0]] + InsertDesc(x, rows[1..])
  }

  /** `sort_values("message_count", ascending=False)`, as an insertion sort. */
  function SortDesc(rows: seq<Summary>): (r: seq<Summary>)
    ensures multiset(r) == multiset(rows)
  {
    if rows == [] then []
    else
      assert rows == [rows[0]] + rows[1..];
      InsertDesc(rows[0], SortDesc(rows[1..]))
  }

  /** A table with a head row is ordered when its tail is and no tail row outcounts the head. */
  lemma NonIncreasingCons(h: Summary, t: seq<Summary>)
    requires NonIncreasing(t)
    requires forall y :: y in t ==> h.messageCount >= y.messageCount
    ensures NonIncreasing([h] + t)
  {
    var r := [h] + t;
    forall i, j | 0 <= i < j < |r| ensures r[i].messageCount >= r[j].messageCount {
      if i > 0 {
        assert r[i] == t[i - 1] && r[j] == t[j - 1];
      } else {
        assert r[j] == t[j - 1];
        assert r[j] in t;
      }
    }
  }

  lemma {:induction false} InsertDescSorted(x: Summary, rows: seq<Summary>)
    requires NonIncreasing(rows)
    ensures NonIncreasing(InsertDesc(x, rows))
  {
    if rows == [] {
      assert InsertDesc(x, rows) == [x];
    } else if x.messageCount >= rows[0].messageCount {
      assert forall y :: y in rows ==> x.messageCount >= y.messageCount by {
        forall y | y in rows ensures x.messageCount >= y.messageCount {
          var j :| 0 <= j < |rows| && rows[j] == y;
          if j > 0 { assert rows[0].messageCount >= rows[j].messageCount; }
        }
      }
      NonIncreasingCons(x, rows);
    } else {
      var rest := rows[1..];
      assert NonIncreasing(rest) by {
        forall i, j | 0 <= i < j < |rest| ensures rest[i].messageCount >= rest[j].messageCount {
          assert rest[i] == rows[i + 1] && rest[j] == rows[j + 1];
        }
      }
      InsertDescSorted(x, rest);
      InsertDescMembers(x, rest);
      assert forall y :: y in rest ==> rows[0].messageCount >= y.messageCount by {
        forall y | y in rest ensures rows[0].messageCount >= y.messageCount {
          var j :| 0 <= j < |rest| && rest[j] == y;
          assert rows[j + 1] == y;
        }
      }
      NonIncreasingCons(rows[0], InsertDesc(x, rest));
    }
  }

  /** The sorted table is ordered by non-increasing `message_count`. */
  lemma {:induction false} SortDescSorted(rows: seq<Summary>)
    ensures NonIncreasing(SortDesc(rows))
  {
    if rows != [] {
      SortDescSorted(rows[1..]);
      InsertDescSorted(rows[0], SortDesc(rows[1..]));
    }
  }

  lemma InsertDescMembers(x: Summary, rows: seq<Summary>)
    ensures forall y :: y in InsertDesc(x, rows) <==> y == x || y in rows
  {
    var r := InsertDesc(x, rows);
    assert forall y :: y in r <==> y in multiset(r);
    assert forall y :: y in rows <==> y in multiset(rows);
  }

  lemma {:induction false} InsertDescDistinct(x: Summary, rows: seq<Summary>)
    requires DistinctNames(rows)
    requires forall y :: y in rows ==> y.studentName != x.studentName
    ensures DistinctNames(InsertDesc(x, rows))
  {
    if rows == [] || x.messageCount >= rows[0].messageCount {
      var r := [x] + rows;
      forall i, j | 0 <= i < j < |r| ensures r[i].studentName != r[j].studentName {
        assert r[j] == rows[j - 1];
        if i > 0 { assert r[i] == rows[i - 1]; }
      }
    } else {
      var tail := InsertDesc(x, rows[1..]);
      assert DistinctNames(rows[1..]) by {
        forall i, j | 0 <= i < j < |rows| - 1 ensures rows[1..][i].studentName != rows[1..][j].studentName {
          assert rows[1..][i] == rows[i + 1] && rows[1..][j] == rows[j + 1];
        }
      }
      assert forall y :: y in rows[1..] ==> y in rows;
      InsertDescDistinct(x, rows[1..]);
      InsertDescMembers(x, rows[1..]);
      var r := [rows[0]] + tail;
      forall i, j | 0 <= i < j < |r| ensures r[i].studentName != r[j].studentName {
        if i > 0 {
          assert r[i] == tail[i - 1] && r[j] == tail[j - 1];
        } else {
          assert r[j] in tail;
          if r[j] != x {
            var m :| 0 <= m < |rows| - 1 && rows[1..][m] == r[j];
            assert rows[m + 1] == r[j];
          }
        }
      }
    }
  }

  /** Sorting keeps the rows' names pairwise distinct. */
  lemma {:induction false} SortDescDistinct(rows: seq<Summary>)
    requires DistinctNames(rows)
    ensures DistinctNames(SortDesc(rows))
  {
    if rows != [] {
      var rest := rows[1..];
      assert DistinctNames(rest) by {
        forall i, j | 0 <= i < j < |rest| ensures rest[i].studentName != rest[j].studentName {
          assert rest[i] == rows[i + 1] && rest[j] == rows[j + 1];
        }
      }
      SortDescDistinct(rest);
      var sorted := SortDesc(rest);
      assert forall y :: y in sorted <==> y in multiset(rest);
      forall y | y in sorted ensures y.studentName != rows[0].studentName {
        var m :| 0 <= m < |rest| && rest[m] == y;
        assert rows[m + 1] == y;
      }
      InsertDescDistinct(rows[0], sorted);
    }
  }

  lemma {:induction false} InsertDescSum(x: Summary, rows: seq<Summary>)
    ensures SumCounts(InsertDesc(x, rows)) == x.messageCount + SumCounts(rows)
  {
    if rows == [] || x.messageCount >= rows[0].messageCount {
      assert ([x] + rows)[1..] == rows;
    } else {
      InsertDescSum(x, rows[1..]);
      var r := [rows[0]] + InsertDesc(x, rows[1..]);
      assert r[1..] == InsertDesc(x, rows[1..]);
    }
  }

  /** Sorting keeps the total of the counts. */
  lemma {:induction false} SortDescSum(rows: seq<Summary>)
    ensures SumCounts(SortDesc(rows)) == SumCounts(rows)
  {
    if rows != [] {
      SortDescSum(rows[1..]);
      InsertDescSum(rows[0], SortDesc(rows[1..]));
    }
  }

  lemma {:induction false} SumCountsAppend(a: seq<Summary>, b: seq<Summary>)
    ensures SumCounts(a + b) == SumCounts(a) + SumCounts(b)
    decreases |a|
  {
    if a == [] {
      assert a + b == b;
    } else {
      assert (a + b)[1..] == a[1..] + b;
      SumCountsAppend(a[1..], b);
    }
  }

  /** A name has messages exactly when it is one of the group keys. */
  lemma {:induction false} MessagesOfNonEmpty(recs: seq<Record>, name: string)
    ensures MessagesOf(recs, name) != [] <==> name in Names(recs)
  {
    if recs != [] {
      var init := recs[..|recs| - 1];
      MessagesOfNonEmpty(init, name);
    }
  }

  /** Every message grouped under `name` comes from a record sent by `name`. */
  lemma {:induction false} MessagesOfFrom(recs: seq<Record>, name: string)
    ensures forall m :: m in MessagesOf(recs, name) ==> Record(name, m) in recs
  {
    if recs != [] {
      var init := recs[..|recs| - 1];
      MessagesOfFrom(init, name);
      assert recs == init + [recs[|recs| - 1]];
    }
  }

  /** Grouping keeps encounter order: the messages of a concatenation are concatenated. */
  lemma {:induction false} MessagesOfAppend(a: seq<Record>, b: seq<Record>, name: string)
    ensures MessagesOf(a + b, name) == MessagesOf(a, name) + MessagesOf(b, name)
    decreases |b|
  {
    if b == [] {
      assert a + b == a;
    } else {
      var b' := b[..|b| - 1];
      assert (a + b)[..|a + b| - 1] == a + b';
      assert (a + b)[|a + b| - 1] == b[|b| - 1];
      MessagesOfAppend(a, b', name);
    }
  }

  /** How many times `x` occurs in `names`. */
  function Occurrences(names: seq<string>, x: string): nat {
    if names == [] then 0
    else Occurrences(names[..|names| - 1], x) + (if names[|names| - 1] == x then 1 else 0)
  }

  lemma {:induction false} OccurrencesDistinct(names: seq<string>, x: string)
    requires Distinct(names)
    ensures Occurrences(names, x) == if x in names then 1 else 0
  {
    if names != [] {
      var init := names[..|names| - 1];
      assert Distinct(init);
      OccurrencesDistinct(init, x);
      assert names == init + [names[|names| - 1]];
      assert names[|names| - 1] == x ==> x !in init;
    }
  }

  lemma RowsSnoc(names: seq<string>, x: string, recs: seq<Record>)
    ensures SumCounts(Rows(names + [x], recs)) == SumCounts(Rows(names, recs)) + |MessagesOf(recs, x)|
  {
    assert (names + [x])[..|names|] == names;
    SumCountsAppend(Rows(names, recs), [GroupRow(recs, x)]);
  }

  /** One more record adds one to the count of every group key equal to its name. */
  lemma {:induction false} RowsOneMore(names: seq<string>, p: seq<Record>, r: Record)
    ensures SumCounts(Rows(names, p + [r])) == SumCounts(Rows(names, p)) + Occurrences(names, r.name)
  {
    if names != [] {
      var init, x := names[..|names| - 1], names[|names| - 1];
      RowsOneMore(init, p, r);
      RowsLast(names, p + [r]);
      RowsLast(names, p);
      MessagesOfSnoc(p, r, x);
    }
  }

  lemma RowsLast(names: seq<string>, recs: seq<Record>)
    requires names != []
    ensures SumCounts(Rows(names, recs))
      == SumCounts(Rows(names[..|names| - 1], recs)) + |MessagesOf(recs, names[|names| - 1])|
  {
    SumCountsAppend(Rows(names[..|names| - 1], recs), [GroupRow(recs, names[|names| - 1])]);
  }

  lemma MessagesOfSnoc(p: seq<Record>, r: Record, x: string)
    ensures |MessagesOf(p + [r], x)| == |MessagesOf(p, x)| + (if r.name == x then 1 else 0)
  {
    assert (p + [r])[..|p|] == p;
  }

  /** Count conservation: the group sizes add up to the number of records. */
  lemma {:induction false} GroupsCountTotal(recs: seq<Record>)
    ensures SumCounts(Groups(recs)) == |recs|
  {
    if recs != [] {
      var p, r := recs[..|recs| - 1], recs[|recs| - 1];
      assert recs == p + [r];
      GroupsCountTotal(p);
      var names := Names(p);
      RowsOneMore(names, p, r);
      OccurrencesDistinct(names, r.name);
      if r.name !in names {
        RowsSnoc(names, r.name, recs);
        MessagesOfNonEmpty(p, r.name);
      }
    }
  }

  /** Every group has a distinct key that is a parsed name, a size of at least one, and its messages in order. */
  lemma GroupsShape(recs: seq<Record>)
    ensures DistinctNames(Groups(recs))
    ensures forall g :: g in Groups(recs) ==> exists r :: r in recs && r.name == g.studentName
    ensures forall r :: r in recs ==> exists g :: g in Groups(recs) && g.studentName == r.name
    ensures forall g :: g in Groups(recs) ==>
      g.messageCount == |MessagesOf(recs, g.studentName)| >= 1
      && g.messagesConcat == Join(MessagesOf(recs, g.studentName), Separator)
  {
    var names, gs := Names(recs), Groups(recs);
    forall g | g in gs ensures g.studentName in names && g == GroupRow(recs, g.studentName) {
      var i :| 0 <= i < |gs| && gs[i] == g;
    }
    forall r | r in recs ensures exists g :: g in gs && g.studentName == r.name {
      assert r.name in names;
      var i :| 0 <= i < |names| && names[i] == r.name;
      assert gs[i] in gs;
    }
    forall g | g in gs ensures |MessagesOf(recs, g.studentName)| >= 1 {
      MessagesOfNonEmpty(recs, g.studentName);
    }
  }

  /** The grouped, aggregated and sorted table; empty when there is no record. */
  function SummarizeRecords(recs: seq<Record>): seq<Summary> {
    if recs == [] then [] else SortDesc(Groups(recs))
  }

  lemma SortDescMembers(rows: seq<Summary>)
    ensures forall y :: y in SortDesc(rows) <==> y in rows
  {
    var r := SortDesc(rows);
    assert forall y :: y in r <==> y in multiset(r);
    assert forall y :: y in rows <==> y in multiset(rows);
  }

  /**
   * What `chat_text_to_df` promises about the shape of its table, for the
   * records it parsed: no rows exactly when no records; rows ordered by
   * non-increasing count and a permutation of the groups, with pairwise
   * distinct names; counts adding up to the number of records.
   */
  lemma SummarizeRecordsOrder(recs: seq<Record>)
    ensures SummarizeRecords(recs) == [] <==> recs == []
    ensures NonIncreasing(SummarizeRecords(recs))
    ensures multiset(SummarizeRecords(recs)) == multiset(Groups(recs))
    ensures DistinctNames(SummarizeRecords(recs))
    ensures SumCounts(SummarizeRecords(recs)) == |recs|
  {
    var gs := Groups(recs);
    GroupsShape(recs);
    GroupsCountTotal(recs);
    if recs != [] {
      SortDescSorted(gs);
      SortDescDistinct(gs);
      SortDescSum(gs);
    }
  }

  /**
   * The rows of the table, for the records it was built from: one row per
   * distinct name (the empty name included) and no other, with that name's
   * message count (at least one) and its messages joined by " | " in
   * encounter order.
   */
  lemma SummarizeRecordsRows(recs: seq<Record>)
    ensures forall g :: g in SummarizeRecords(recs) ==> exists r :: r in recs && r.name == g.studentName
    ensures forall r :: r in recs ==> exists g :: g in SummarizeRecords(recs) && g.studentName == r.name
    ensures forall g :: g in SummarizeRecords(recs) ==>
      g.messageCount == |MessagesOf(recs, g.studentName)| >= 1
      && g.messagesConcat == Join(MessagesOf(recs, g.studentName), Separator)
  {
    GroupsShape(recs);
    SortDescMembers(Groups(recs));
  }

  /** A " | " starts at index `j` of `s`. */
  predicate SeparatorAt(s: string, j: int) {
    0 <= j && j + 3 <= |s| && s[j] == ' ' && s[j + 1] == '|' && s[j + 2] == ' '
  }

  /** Index of the first " | " in `s`, if any. */
  function FindSeparator(s: string): (r: Option<nat>)
    ensures r.Some? ==> SeparatorAt(s, r.value) && forall j :: 0 <= j < r.value ==> !SeparatorAt(s, j)
    ensures r.None? ==> forall j :: !SeparatorAt(s, j)
  {
    if |s| < 3 then None
    else if SeparatorAt(s, 0) then Some(0)
    else
      assert forall j :: 1 <= j ==> (SeparatorAt(s, j) <==> SeparatorAt(s[1..], j - 1));
      match FindSeparator(s[1..])
      case None => None
      case Some(i) => Some(i + 1)
  }

  /** A string without '|' holds no " | ". */
  lemma NoBarNoSeparator(p: string)
    requires '|' !in p
    ensures forall j :: !SeparatorAt(p, j)
  {
    forall k | 0 <= k < |p| ensures p[k] != '|' {
      assert p[k] in p;
    }
  }

  /** `s.split(" | ")`: the reading back of `messages_concat`. */
  function SplitOnSeparator(s: string): seq<string>
    decreases |s|
  {
    match FindSeparator(s)
    case None => [s]
    case Some(i) => [s[..i]] + SplitOnSeparator(s[i + |Separator|..])
  }

  /**
   * `messages_concat` splits back into the group's messages, one segment per
   * counted message, provided no message itself contains a '|'.
   */
  lemma {:induction false} SplitJoin(parts: seq<string>)
    requires parts != []
    requires forall p :: p in parts ==> '|' !in p
    ensures SplitOnSeparator(Join(parts, Separator)) == parts
  {
    var p := parts[0];
    assert p in parts;
    if |parts| == 1 {
      NoBarNoSeparator(p);
    } else {
      var rest := Join(parts[1..], Separator);
      SplitFirst(p, rest);
      assert forall q :: q in parts[1..] ==> q in parts;
      SplitJoin(parts[1..]);
      assert parts == [p] + parts[1..];
    }
  }

  /** Splitting stops at the first " | " when the text before it has no '|'. */
  lemma SplitFirst(p: string, rest: string)
    requires '|' !in p
    ensures SplitOnSeparator(p + Separator + rest) == [p] + SplitOnSeparator(rest)
  {
    var s := p + Separator + rest;
    assert s[|p|] == ' ' && s[|p| + 1] == '|' && s[|p| + 2] == ' ';
    forall j | 0 <= j < |p| ensures !SeparatorAt(s, j) {
      if j + 1 < |p| {
        assert s[j + 1] == p[j + 1] && p[j + 1] in p;
      }
    }
    assert SeparatorAt(s, |p|);
    assert FindSeparator(s) == Some(|p|);
    assert s[..|p|] == p && s[|p| + |Separator|..] == rest;
  }

  /** Without that proviso the round trip fails: one message "a | b" reads back as two. */
  lemma SplitJoinNeedsNoSeparator()
    ensures Join(["a | b"], Separator) == "a | b"
    ensures SplitOnSeparator("a | b") == ["a", "b"]
  {
    var s := "a | b";
    assert !SeparatorAt(s, 0) && SeparatorAt(s, 1);
    assert FindSeparator(s) == Some(1);
    assert s[..1] == "a" && s[4..] == "b";
    assert FindSeparator("b") == None;
  }

  /**
   * Nor is "no message holds a separator" enough: a message ending in " |"
   * forms one with the blank that the join puts after it.
   */
  lemma SplitJoinNeedsNoTrailingBar()
    ensures Join(["a |", "b"], Separator) == "a | | b"
    ensures SplitOnSeparator("a | | b") == ["a", "| b"]
  {
    var s := "a | | b";
    assert !SeparatorAt(s, 0) && SeparatorAt(s, 1);
    assert FindSeparator(s) == Some(1);
    assert s[..1] == "a" && s[4..] == "| b";
    var t := "| b";
    assert !SeparatorAt(t, 0);
    assert FindSeparator(t[1..]) == None;
    assert FindSeparator(t) == None;
  }
}
