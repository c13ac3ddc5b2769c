/**
 * The dashboard (src/pages/Dashboard.tsx): the month's schedule issues,
 * bucketed by date, counted by severity, listed by ascending date, each
 * with a badge for its severity. The issues themselves come from the
 * store's issue finder and are an input here.
 */
module DashboardPage {
  import opened Types
  import opened Seqs

  // ---------------------------------------------------------------------
  // Buckets by date
  // ---------------------------------------------------------------------

  /** The issues dated `date`, in their original order. */
  function IssuesOn(issues: seq<ScheduleIssue>, date: DateStr): (r: seq<ScheduleIssue>)
    ensures forall x {:trigger x in r} :: x in r <==> x in issues && x.date == date
    decreases |issues|
  {
    if issues == [] then []
    else
      var init, last := issues[..|issues| - 1], issues[|issues| - 1];
      var rest := IssuesOn(init, date);
      assert issues == init + [last];
      if last.date == date then rest + [last] else rest
  }

  /** A date's issues keep the order they have in the whole list. */
  lemma {:induction false} IssuesOnIsSubsequence(issues: seq<ScheduleIssue>, date: DateStr)
    ensures IsSubsequence(IssuesOn(issues, date), issues)
    decreases |issues|
  {
    if issues != [] {
      var init, last := issues[..|issues| - 1], issues[|issues| - 1];
      var rest := IssuesOn(init, date);
      IssuesOnIsSubsequence(init, date);
      assert issues == init + [last];
      if last.date == date {
        SubsequenceAppendBoth(rest, init, last);
      } else {
        SubsequenceAppendRight(rest, init, last);
      }
    } else {
      assert IssuesOn(issues, date) == [];
    }
  }

  /** The dates of `issues`, each once, in the order they first occur: the key order of the object the reduce builds. */
  function FirstDates(issues: seq<ScheduleIssue>): (r: seq<DateStr>)
    ensures forall d {:trigger d in r} :: d in r <==> exists x | x in issues :: x.date == d
    ensures forall i, j | 0 <= i < j < |r| :: r[i] != r[j]
    decreases |issues|
  {
    if issues == [] then []
    else
      var init, last := issues[..|issues| - 1], issues[|issues| - 1];
      var rest := FirstDates(init);
      assert forall x :: x in issues <==> x in init || x == last;
      if last.date in rest then rest else rest + [last.date]
  }

  /** `groups` and `order` are what the reduce has built from `issues`. */
  ghost predicate Grouped(issues: seq<ScheduleIssue>, groups: map<DateStr, seq<ScheduleIssue>>, order: seq<DateStr>) {
    && order == FirstDates(issues)
    && (forall d :: d in groups <==> d in order)
    && (forall d | d in groups :: groups[d] == IssuesOn(issues, d))
  }

  /**
   * `groupedIssues`: the reduce over the issues that creates an empty list
   * the first time a date is met and pushes the issue onto its date's list
   * (here the new list is created holding the issue). `order` is the order
   * in which the dates became keys.
   */
  method GroupIssues(issues: seq<ScheduleIssue>) returns (groups: map<DateStr, seq<ScheduleIssue>>, order: seq<DateStr>)
    ensures order == FirstDates(issues)
    ensures forall d :: d in groups <==> d in order
    ensures forall d | d in groups :: groups[d] == IssuesOn(issues, d)
  {
    groups, order := map[], [];
    var i := 0;
    while i < |issues|
      invariant i <= |issues|
      invariant Grouped(issues[..i], groups, order)
    {
      var issue := issues[i];
      assert issues[..i + 1] == issues[..i] + [issue];
      if issue.date in groups {
        PushOntoBucket(issues[..i], issue, groups, order);
        groups := groups[issue.date := groups[issue.date] + [issue]];
      } else {
        OpenBucket(issues[..i], issue, groups, order);
        groups := groups[issue.date := [issue]];
        order := order + [issue.date];
      }
      i := i + 1;
    }
    assert issues[..i] == issues;
  }

  /** An issue whose date already has a bucket goes to the end of that bucket. */
  lemma PushOntoBucket(before: seq<ScheduleIssue>, x: ScheduleIssue, groups: map<DateStr, seq<ScheduleIssue>>, order: seq<DateStr>)
    requires Grouped(before, groups, order) && x.date in groups
    ensures Grouped(before + [x], groups[x.date := groups[x.date] + [x]], order)
  {
    var groups' := groups[x.date := groups[x.date] + [x]];
    GroupStep(before, x);
    forall d | d in groups'
      ensures groups'[d] == IssuesOn(before + [x], d)
    {
      if d != x.date {
        assert groups'[d] == groups[d];
      }
    }
  }

  /** An issue with a date not seen before opens a new bucket, and its date becomes the last key. */
  lemma OpenBucket(before: seq<ScheduleIssue>, x: ScheduleIssue, groups: map<DateStr, seq<ScheduleIssue>>, order: seq<DateStr>)
    requires Grouped(before, groups, order) && x.date !in groups
    ensures Grouped(before + [x], groups[x.date := [x]], order + [x.date])
  {
    var groups' := groups[x.date := [x]];
    GroupStep(before, x);
    NoBucketWithoutDate(before, x.date);
    assert [] + [x] == [x];
    forall d | d in groups'
      ensures groups'[d] == IssuesOn(before + [x], d)
    {
      if d != x.date {
        assert groups'[d] == groups[d];
      }
    }
  }

  /** What one more issue does to the dates and the buckets. */
  lemma GroupStep(before: seq<ScheduleIssue>, x: ScheduleIssue)
    ensures FirstDates(before + [x]) == (if x.date in FirstDates(before) then FirstDates(before) else FirstDates(before) + [x.date])
    ensures IssuesOn(before + [x], x.date) == IssuesOn(before, x.date) + [x]
    ensures forall d | d != x.date :: IssuesOn(before + [x], d) == IssuesOn(before, d)
  {
    var after := before + [x];
    assert after[..|after| - 1] == before && after[|after| - 1] == x;
  }

  /** A date no issue has gets an empty bucket. */
  lemma {:induction false} NoBucketWithoutDate(issues: seq<ScheduleIssue>, d: DateStr)
    requires d !in FirstDates(issues)
    ensures IssuesOn(issues, d) == []
    decreases |issues|
  {
    if issues != [] {
      var init := issues[..|issues| - 1];
      assert forall x | x in init :: x in issues;
      NoBucketWithoutDate(init, d);
    }
  }

  /** Every issue lands in the bucket of its own date. */
  lemma IssueInOwnBucket(issues: seq<ScheduleIssue>, x: ScheduleIssue)
    requires x in issues
    ensures x.date in FirstDates(issues) && x in IssuesOn(issues, x.date)
  {
  }

  /** How many times `d` is listed. */
  function Occurrences(dates: seq<DateStr>, d: DateStr): nat
  {
    if dates == [] then 0 else (if dates[0] == d then 1 else 0) + Occurrences(dates[1..], d)
  }

  /** A date listed once, or not at all, in a list without repeats. */
  lemma {:induction false} OccurrencesOfDistinct(dates: seq<DateStr>, d: DateStr)
    requires forall i, j | 0 <= i < j < |dates| :: dates[i] != dates[j]
    ensures Occurrences(dates, d) == if d in dates then 1 else 0
  {
    if dates != [] {
      OccurrencesOfDistinct(dates[1..], d);
      if dates[0] == d {
        assert d !in dates[1..];
      }
    }
  }

  /** The total size of the buckets of `dates`. */
  function BucketTotal(issues: seq<ScheduleIssue>, dates: seq<DateStr>): nat
  {
    if dates == [] then 0 else |IssuesOn(issues, dates[0])| + BucketTotal(issues, dates[1..])
  }

  lemma {:induction false} BucketTotalAppend(issues: seq<ScheduleIssue>, x: ScheduleIssue, dates: seq<DateStr>)
    ensures BucketTotal(issues + [x], dates) == BucketTotal(issues, dates) + Occurrences(dates, x.date)
  {
    var s := issues + [x];
    assert s[..|s| - 1] == issues;
    if dates != [] {
      BucketTotalAppend(issues, x, dates[1..]);
    }
  }

  /** The buckets' sizes add up to the number of issues. */
  lemma {:induction false} BucketSizesSum(issues: seq<ScheduleIssue>, dates: seq<DateStr>)
    requires forall i, j | 0 <= i < j < |dates| :: dates[i] != dates[j]
    requires forall x | x in issues :: x.date in dates
    ensures BucketTotal(issues, dates) == |issues|
    decreases |issues|
  {
    if issues == [] {
      BucketTotalOfNothing(dates);
    } else {
      var init, last := issues[..|issues| - 1], issues[|issues| - 1];
      assert issues == init + [last];
      BucketSizesSum(init, dates);
      BucketTotalAppend(init, last, dates);
      OccurrencesOfDistinct(dates, last.date);
    }
  }

  lemma {:induction false} BucketTotalOfNothing(dates: seq<DateStr>)
    ensures BucketTotal([], dates) == 0
  {
    if dates != [] {
      BucketTotalOfNothing(dates[1..]);
    }
  }

  /** The grouping loses no issue and counts none twice. */
  lemma GroupSizesSum(issues: seq<ScheduleIssue>)
    ensures BucketTotal(issues, FirstDates(issues)) == |issues|
  {
    var dates := FirstDates(issues);
    forall x | x in issues ensures x.date in dates {
    }
    BucketSizesSum(issues, dates);
  }

  // ---------------------------------------------------------------------
  // Counts by severity
  // ---------------------------------------------------------------------

  /** `issues.filter(i => i.severity === s).length`. */
  function CountSeverity(issues: seq<ScheduleIssue>, s: Severity): (n: nat)
    ensures n <= |issues|
  {
    if issues == [] then 0 else (if issues[0].severity == s then 1 else 0) + CountSeverity(issues[1..], s)
  }

  /** Every issue is high, medium or low, so the three counts add up to the total shown. */
  lemma {:induction false} SeverityCountsSum(issues: seq<ScheduleIssue>)
    ensures CountSeverity(issues, High) + CountSeverity(issues, Medium) + CountSeverity(issues, Low) == |issues|
  {
    if issues != [] {
      SeverityCountsSum(issues[1..]);
    }
  }

  // ---------------------------------------------------------------------
  // Ordering the dates
  // ---------------------------------------------------------------------

  /** `a.localeCompare(b) < 0`, as code-point order on the characters. */
  predicate StrLt(a: string, b: string) {
    if a == [] then b != []
    else if b == [] then false
    else if a[0] != b[0] then a[0] < b[0]
    else StrLt(a[1..], b[1..])
  }

  lemma {:induction false} StrLtIrreflexive(a: string)
    ensures !StrLt(a, a)
  {
    if a != [] {
      StrLtIrreflexive(a[1..]);
    }
  }

  lemma {:induction false} StrLtTransitive(a: string, b: string, c: string)
    requires StrLt(a, b) && StrLt(b, c)
    ensures StrLt(a, c)
  {
    if a != [] && a[0] == b[0] && b[0] == c[0] {
      StrLtTransitive(a[1..], b[1..], c[1..]);
    }
  }

  /** Two different strings are ordered one way or the other, never both. */
  lemma {:induction false} StrLtTotal(a: string, b: string)
    ensures a != b ==> StrLt(a, b) || StrLt(b, a)
    ensures !(StrLt(a, b) && StrLt(b, a))
  {
    if a != [] && b != [] && a[0] == b[0] {
      StrLtTotal(a[1..], b[1..]);
      if a != b {
        assert a == [a[0]] + a[1..] && b == [b[0]] + b[1..];
      }
    }
  }

  /** No element is smaller than one before it. */
  predicate Ascending(s: seq<DateStr>) {
    forall i, j | 0 <= i < j < |s| :: !StrLt(s[j], s[i])
  }

  /** Insert `x` before the first element not smaller than it. */
  function Insert(x: DateStr, s: seq<DateStr>): (r: seq<DateStr>)
    requires Ascending(s)
    ensures Ascending(r) && multiset(r) == multiset(s) + multiset{x}
  {
    if s == [] then [x]
    else if !StrLt(s[0], x) then
      InsertAtFront(x, s);
      [x] + s
    else
      var rest := Insert(x, s[1..]);
      InsertBehindHead(x, s, rest);
      [s[0]] + rest
  }

  /** An element not above the head of an ascending list can go in front of it. */
  lemma InsertAtFront(x: DateStr, s: seq<DateStr>)
    requires Ascending(s) && s != [] && !StrLt(s[0], x)
    ensures Ascending([x] + s)
  {
    var r := [x] + s;
    forall i, j | 0 <= i < j < |r| ensures !StrLt(r[j], r[i]) {
      if i == 0 {
        var k := j - 1;
        assert r[j] == s[k];
        if k > 0 && StrLt(s[k], x) {
          StrLtTotal(s[0], s[k]);
          if s[0] != s[k] {
            StrLtTransitive(s[0], s[k], x);
          }
        }
      } else {
        assert r[i] == s[i - 1] && r[j] == s[j - 1];
      }
    }
  }

  /** The head of an ascending list, when it is below `x`, can stay in front of the insertion into its tail. */
  lemma InsertBehindHead(x: DateStr, s: seq<DateStr>, rest: seq<DateStr>)
    requires Ascending(s) && s != [] && StrLt(s[0], x)
    requires Ascending(rest) && multiset(rest) == multiset(s[1..]) + multiset{x}
    ensures Ascending([s[0]] + rest) && multiset([s[0]] + rest) == multiset(s) + multiset{x}
  {
    StrLtTotal(s[0], x);
    assert s == [s[0]] + s[1..];
    var r := [s[0]] + rest;
    forall i, j | 0 <= i < j < |r| ensures !StrLt(r[j], r[i]) {
      if i == 0 {
        var y := rest[j - 1];
        assert r[j] == y && y in multiset(rest);
        if y != x {
          assert y in multiset(s[1..]);
          var k :| 0 <= k < |s[1..]| && s[1..][k] == y;
          assert s[k + 1] == y;
        }
      } else {
        assert r[i] == rest[i - 1] && r[j] == rest[j - 1];
      }
    }
  }

  /** `.sort(([a], [b]) => a.localeCompare(b))` on the dates. */
  function SortDates(s: seq<DateStr>): (r: seq<DateStr>)
    ensures Ascending(r) && multiset(r) == multiset(s)
  {
    if s == [] then []
    else
      assert s == [s[0]] + s[1..];
      Insert(s[0], SortDates(s[1..]))
  }

  /** Sorting dates listed once gives them in strictly ascending order, each still once. */
  lemma SortedDatesStrictlyAscend(s: seq<DateStr>)
    requires forall i, j | 0 <= i < j < |s| :: s[i] != s[j]
    ensures forall d :: d in SortDates(s) <==> d in s
    ensures forall i, j | 0 <= i < j < |SortDates(s)| :: StrLt(SortDates(s)[i], SortDates(s)[j])
  {
    var r := SortDates(s);
    forall d ensures d in r <==> d in s {
      assert d in r <==> d in multiset(r);
      assert d in s <==> d in multiset(s);
    }
    assert forall d :: multiset(s)[d] <= 1 by {
      forall d ensures multiset(s)[d] <= 1 {
        DistinctCountsOnce(s, d);
      }
    }
    forall i, j | 0 <= i < j < |r| ensures StrLt(r[i], r[j]) {
      if r[i] == r[j] {
        TwoPositionsCountTwice(r, i, j);
      }
      StrLtTotal(r[i], r[j]);
    }
  }

  lemma {:induction false} DistinctCountsOnce(s: seq<DateStr>, d: DateStr)
    requires forall i, j | 0 <= i < j < |s| :: s[i] != s[j]
    ensures multiset(s)[d] <= 1
  {
    if s != [] {
      assert s == [s[0]] + s[1..];
      DistinctCountsOnce(s[1..], d);
      if s[0] == d {
        assert d !in s[1..];
        assert multiset(s[1..])[d] == 0;
      }
    }
  }

  lemma TwoPositionsCountTwice(s: seq<DateStr>, i: int, j: int)
    requires 0 <= i < j < |s| && s[i] == s[j]
    ensures multiset(s)[s[i]] >= 2
  {
    assert s == s[..j] + s[j..];
    assert s[i] in s[..j];
    assert s[j..] == [s[j]] + s[j + 1..];
  }

  // ---------------------------------------------------------------------
  // The issue list
  // ---------------------------------------------------------------------

  /** What the "問題清單" card shows: 本月排班沒有發現問題！, or one box per date. */
  datatype IssueList = NoProblems | DateGroups(groups: seq<(DateStr, seq<ScheduleIssue>)>)

  function IssueListOf(issues: seq<ScheduleIssue>): (v: IssueList)
    ensures v.NoProblems? <==> issues == []
  {
    if |issues| == 0 then NoProblems
    else
      DateGroups(Boxes(issues, SortDates(FirstDates(issues))))
  }

  /** One box per date, in the order of `dates`, each holding that date's bucket. */
  function Boxes(issues: seq<ScheduleIssue>, dates: seq<DateStr>): (g: seq<(DateStr, seq<ScheduleIssue>)>)
    ensures |g| == |dates| && forall i | 0 <= i < |dates| :: g[i] == (dates[i], IssuesOn(issues, dates[i]))
  {
    seq(|dates|, i requires 0 <= i < |dates| => (dates[i], IssuesOn(issues, dates[i])))
  }

  /**
   * With issues present, the boxes are in strictly ascending date order,
   * one per date that has an issue, each listing that date's issues in
   * their original order.
   */
  lemma IssueListOrdered(issues: seq<ScheduleIssue>)
    requires issues != []
    ensures var g := IssueListOf(issues).groups;
      (forall i, j | 0 <= i < j < |g| :: StrLt(g[i].0, g[j].0))
      && (forall d :: d in DatesOf(g) <==> exists x | x in issues :: x.date == d)
      && (forall i | 0 <= i < |g| :: g[i].1 == IssuesOn(issues, g[i].0) && IsSubsequence(g[i].1, issues))
  {
    var firsts := FirstDates(issues);
    var dates := SortDates(firsts);
    SortedDatesStrictlyAscend(firsts);
    var g := IssueListOf(issues).groups;
    assert g == Boxes(issues, dates);
    assert DatesOf(g) == dates;
    forall i, j | 0 <= i < j < |g| ensures StrLt(g[i].0, g[j].0) {
      assert g[i].0 == dates[i] && g[j].0 == dates[j];
      assert StrLt(dates[i], dates[j]);
    }
    forall d ensures d in dates <==> exists x | x in issues :: x.date == d {
      assert d in dates <==> d in firsts;
    }
    forall i | 0 <= i < |g| ensures IsSubsequence(g[i].1, issues) {
      IssuesOnIsSubsequence(issues, g[i].0);
    }
  }

  /** The dates heading the boxes, in order. */
  function DatesOf(g: seq<(DateStr, seq<ScheduleIssue>)>): (r: seq<DateStr>)
    ensures |r| == |g| && forall i | 0 <= i < |g| :: r[i] == g[i].0
  {
    seq(|g|, i requires 0 <= i < |g| => g[i].0)
  }

  /** Render the card from the grouped issues: the empty state, or the buckets under their sorted dates. */
  method ListIssues(issues: seq<ScheduleIssue>) returns (v: IssueList)
    ensures v == IssueListOf(issues)
  {
    if |issues| == 0 {
      return NoProblems;
    }
    var groups, order := GroupIssues(issues);
    var dates := SortDates(order);
    SortedDatesStrictlyAscend(order);
    var entries := seq(|dates|, i requires 0 <= i < |dates| => (dates[i], groups[dates[i]]));
    EntriesAreBoxes(issues, groups, dates, entries);
    v := DateGroups(entries);
  }

  lemma EntriesAreBoxes(issues: seq<ScheduleIssue>, groups: map<DateStr, seq<ScheduleIssue>>, dates: seq<DateStr>,
                        entries: seq<(DateStr, seq<ScheduleIssue>)>)
    requires forall d | d in groups :: groups[d] == IssuesOn(issues, d)
    requires |entries| == |dates| && forall i | 0 <= i < |dates| :: dates[i] in groups && entries[i] == (dates[i], groups[dates[i]])
    ensures entries == Boxes(issues, dates)
  {
  }

  // ---------------------------------------------------------------------
  // Severity badges
  // ---------------------------------------------------------------------

  /** `getSeverityColor`: the badge variant. */
  function BadgeVariant(s: Severity): string
  {
    match s
    case High => "destructive"
    case Medium => "default"
    case Low => "secondary"
  }

  /** The badge text: 高, 中 or 低. */
  function SeverityLabel(s: Severity): string
  {
    if s == High then "高" else if s == Medium then "中" else "低"
  }

  datatype Icon = XCircle | AlertTriangle | CheckCircle

  /** `getSeverityIcon`. */
  function SeverityIcon(s: Severity): Icon
  {
    match s
    case High => XCircle
    case Medium => AlertTriangle
    case Low => CheckCircle
  }

  /** The severity a badge label stands for. */
  function SeverityOfLabel(text: string): (r: Option<Severity>)
  {
    if text == "高" then Some(High)
    else if text == "中" then Some(Medium)
    else if text == "低" then Some(Low)
    else None
  }

  /**
   * The mapping is total and tells the severities apart: each severity has
   * its own variant, its own icon and its own label, and the label reads
   * back as the severity.
   */
  lemma SeverityBadgesDistinct(s: Severity, t: Severity)
    ensures SeverityOfLabel(SeverityLabel(s)) == Some(s)
    ensures s != t ==> BadgeVariant(s) != BadgeVariant(t) && SeverityIcon(s) != SeverityIcon(t)
                       && SeverityLabel(s) != SeverityLabel(t)
  {
    assert "高" != "中" && "高" != "低" && "中" != "低";
    assert "destructive" != "default" && "destructive" != "secondary" && "default" != "secondary";
  }
}
