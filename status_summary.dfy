/** The status summary of the merged records: how many records carry each
    Status value, one entry per value, in ascending order of the value. */
module StatusSummary {
  import opened Cells

  /** The ordering of strings used to sort group keys: lexicographic by code point. */
  predicate LexLess(a: string, b: string)
    decreases |a|
  {
    if |a| == 0 then |b| > 0
    else if |b| == 0 then false
    else if a[0] != b[0] then a[0] < b[0]
    else LexLess(a[1..], b[1..])
  }

  lemma {:induction false} LexLessIrreflexive(a: string)
    ensures !LexLess(a, a)
    decreases |a|
  {
    if |a| > 0 {
      LexLessIrreflexive(a[1..]);
    }
  }

  /** Two different strings are ordered one way or the other. */
  lemma {:induction false} LexLessTotal(a: string, b: string)
    ensures a == b || LexLess(a, b) || LexLess(b, a)
    decreases |a|
  {
    if |a| > 0 && |b| > 0 && a[0] == b[0] {
      LexLessTotal(a[1..], b[1..]);
      if a[1..] == b[1..] {
        assert a == [a[0]] + a[1..] && b == [b[0]] + b[1..];
      }
    }
  }

  lemma {:induction false} LexLessTransitive(a: string, b: string, c: string)
    requires LexLess(a, b) && LexLess(b, c)
    ensures LexLess(a, c)
    decreases |a|
  {
    if |a| > 0 && a[0] == b[0] && b[0] == c[0] {
      LexLessTransitive(a[1..], b[1..], c[1..]);
    }
  }

  /** One row of the summary table. */
  datatype StatusCount = StatusCount(status: string, count: nat)

  predicate Ascending(t: seq<StatusCount>) {
    forall i, j :: 0 <= i < j < |t| ==> LexLess(t[i].status, t[j].status)
  }

  function SummaryKeys(t: seq<StatusCount>): set<string> {
    set e | e in t :: e.status
  }

  /** The count the summary gives for `s`; 0 when it has no entry for `s`. */
  function CountIn(t: seq<StatusCount>, s: string): nat {
    if t == [] then 0 else if t[0].status == s then t[0].count else CountIn(t[1..], s)
  }

  function SumCounts(t: seq<StatusCount>): nat {
    if t == [] then 0 else t[0].count + SumCounts(t[1..])
  }

  /** A status below the first key of an ascending summary has no entry. */
  lemma AbsentBelowHead(t: seq<StatusCount>, s: string)
    requires Ascending(t) && t != [] && LexLess(s, t[0].status)
    ensures s !in SummaryKeys(t)
  {
    if s in SummaryKeys(t) {
      var i :| 0 <= i < |t| && t[i].status == s;
      if i == 0 {
        LexLessIrreflexive(s);
      } else {
        LexLessTransitive(s, t[0].status, t[i].status);
        LexLessIrreflexive(s);
      }
    }
  }

  lemma {:induction false} CountInAbsent(t: seq<StatusCount>, s: string)
    requires s !in SummaryKeys(t)
    ensures CountIn(t, s) == 0
    decreases |t|
  {
    if t != [] {
      assert t[0] in t;
      assert SummaryKeys(t[1..]) <= SummaryKeys(t);
      CountInAbsent(t[1..], s);
    }
  }

  /** An entry placed before an ascending summary whose keys all follow it
      gives an ascending summary with one more key. */
  lemma Prepend(h: StatusCount, t: seq<StatusCount>)
    requires Ascending(t)
    requires forall j | 0 <= j < |t| :: LexLess(h.status, t[j].status)
    ensures Ascending([h] + t)
    ensures SummaryKeys([h] + t) == {h.status} + SummaryKeys(t)
  {
    var r := [h] + t;
    assert forall i | 0 < i < |r| :: r[i] == t[i - 1];
  }

  /** A new key below the first key of an ascending summary goes in front. */
  lemma AddBelowHead(t: seq<StatusCount>, s: string)
    requires Ascending(t) && t != [] && LexLess(s, t[0].status)
    ensures Ascending([StatusCount(s, 1)] + t)
    ensures SummaryKeys([StatusCount(s, 1)] + t) == SummaryKeys(t) + {s}
  {
    forall j | 0 <= j < |t| ensures LexLess(s, t[j].status) {
      if j > 0 { LexLessTransitive(s, t[0].status, t[j].status); }
    }
    Prepend(StatusCount(s, 1), t);
  }

  /** Counting a key already at the head keeps the keys and their order. */
  lemma AddAtHead(t: seq<StatusCount>)
    requires Ascending(t) && t != []
    ensures Ascending([t[0].(count := t[0].count + 1)] + t[1..])
    ensures SummaryKeys([t[0].(count := t[0].count + 1)] + t[1..]) == SummaryKeys(t)
  {
    assert t == [t[0]] + t[1..];
    Prepend(t[0].(count := t[0].count + 1), t[1..]);
    Prepend(t[0], t[1..]);
  }

  /** A key above the head is added to the rest, behind the unchanged head. */
  lemma AddAfterHead(t: seq<StatusCount>, s: string, rest: seq<StatusCount>)
    requires Ascending(t) && t != [] && LexLess(t[0].status, s)
    requires Ascending(rest) && SummaryKeys(rest) == SummaryKeys(t[1..]) + {s}
    ensures Ascending([t[0]] + rest)
    ensures SummaryKeys([t[0]] + rest) == SummaryKeys(t) + {s}
  {
    assert t == [t[0]] + t[1..];
    forall j | 0 <= j < |rest| ensures LexLess(t[0].status, rest[j].status) {
      assert rest[j] in rest;
      assert rest[j].status in SummaryKeys(rest);
    }
    Prepend(t[0], t[1..]);
    Prepend(t[0], rest);
  }

  /** One more record with status `s` counted into an ascending summary. */
  function AddStatus(t: seq<StatusCount>, s: string): (r: seq<StatusCount>)
    requires Ascending(t)
    ensures Ascending(r)
    ensures SummaryKeys(r) == SummaryKeys(t) + {s}
    decreases |t|
  {
    if t == [] then [StatusCount(s, 1)]
    else if t[0].status == s then
      AddAtHead(t);
      [t[0].(count := t[0].count + 1)] + t[1..]
    else if LexLess(s, t[0].status) then
      AddBelowHead(t, s);
      [StatusCount(s, 1)] + t
    else
      LexLessTotal(s, t[0].status);
      var rest := AddStatus(t[1..], s);
      AddAfterHead(t, s, rest);
      [t[0]] + rest
  }

  lemma {:induction false} AddStatusCountIn(t: seq<StatusCount>, s: string, x: string)
    requires Ascending(t)
    ensures CountIn(AddStatus(t, s), x) == CountIn(t, x) + if x == s then 1 else 0
    decreases |t|
  {
    if t == [] {
    } else if t[0].status == s {
      assert ([t[0].(count := t[0].count + 1)] + t[1..])[1..] == t[1..];
    } else if LexLess(s, t[0].status) {
      AbsentBelowHead(t, s);
      CountInAbsent(t, s);
      assert ([StatusCount(s, 1)] + t)[1..] == t;
    } else {
      AddStatusCountIn(t[1..], s, x);
      var rest := AddStatus(t[1..], s);
      assert AddStatus(t, s) == [t[0]] + rest;
      assert ([t[0]] + rest)[1..] == rest;
    }
  }

  lemma {:induction false} AddStatusSum(t: seq<StatusCount>, s: string)
    requires Ascending(t)
    ensures SumCounts(AddStatus(t, s)) == SumCounts(t) + 1
    decreases |t|
  {
    if t == [] {
    } else if t[0].status == s {
      assert ([t[0].(count := t[0].count + 1)] + t[1..])[1..] == t[1..];
    } else if LexLess(s, t[0].status) {
      assert ([StatusCount(s, 1)] + t)[1..] == t;
    } else {
      AddStatusSum(t[1..], s);
      var rest := AddStatus(t[1..], s);
      assert AddStatus(t, s) == [t[0]] + rest;
      assert ([t[0]] + rest)[1..] == rest;
    }
  }

  lemma {:induction false} AddStatusPositive(t: seq<StatusCount>, s: string)
    requires Ascending(t)
    requires forall e | e in t :: e.count >= 1
    ensures forall e | e in AddStatus(t, s) :: e.count >= 1
    decreases |t|
  {
    if t != [] && t[0].status != s && !LexLess(s, t[0].status) {
      assert forall e | e in t[1..] :: e in t;
      AddStatusPositive(t[1..], s);
      var rest := AddStatus(t[1..], s);
      assert AddStatus(t, s) == [t[0]] + rest;
    }
  }

  /** Counting one more record adds one to the count of its status and to the
      total, changes no other count, and keeps every count positive. */
  lemma AddStatusCounts(t: seq<StatusCount>, s: string)
    requires Ascending(t)
    ensures var r := AddStatus(t, s);
      && (forall x :: CountIn(r, x) == CountIn(t, x) + if x == s then 1 else 0)
      && SumCounts(r) == SumCounts(t) + 1
      && ((forall e | e in t :: e.count >= 1) ==> forall e | e in r :: e.count >= 1)
  {
    forall x ensures CountIn(AddStatus(t, s), x) == CountIn(t, x) + if x == s then 1 else 0 {
      AddStatusCountIn(t, s, x);
    }
    AddStatusSum(t, s);
    if forall e | e in t :: e.count >= 1 {
      AddStatusPositive(t, s);
    }
  }

  /** The number of records whose Status is `s`. */
  function CountStatus(records: seq<CaseRecord>, s: string): nat {
    if records == [] then 0
    else CountStatus(records[..|records| - 1], s) + if records[|records| - 1].status == Some(s) then 1 else 0
  }

  /** The number of records that have a Status at all. */
  function PresentCount(records: seq<CaseRecord>): nat {
    if records == [] then 0
    else PresentCount(records[..|records| - 1]) + if records[|records| - 1].status.Some? then 1 else 0
  }

  function PresentStatuses(records: seq<CaseRecord>): set<string> {
    set rec | rec in records && rec.status.Some? :: rec.status.value
  }

  /** The status summary: grouping by Status and taking the size of each
      group. Records with a blank Status belong to no group. */
  function Summarize(records: seq<CaseRecord>): (r: seq<StatusCount>)
    ensures Ascending(r)
    ensures SummaryKeys(r) == PresentStatuses(records)
    ensures forall x :: CountIn(r, x) == CountStatus(records, x)
    ensures forall e | e in r :: e.count >= 1
    ensures SumCounts(r) == PresentCount(records)
  {
    if records == [] then []
    else
      var init, last := records[..|records| - 1], records[|records| - 1];
      var t := Summarize(init);
      assert records == init + [last];
      assert PresentStatuses(records) == PresentStatuses(init) + PresentStatuses([last]);
      match last.status
      case None => t
      case Some(s) =>
        AddStatusCounts(t, s);
        AddStatus(t, s)
  }

  /** In an ascending summary each entry holds the count looked up for its key. */
  lemma {:induction false} CountInAt(t: seq<StatusCount>, i: nat)
    requires Ascending(t) && i < |t|
    ensures CountIn(t, t[i].status) == t[i].count
    decreases i
  {
    if i > 0 {
      if t[0].status == t[i].status {
        LexLessIrreflexive(t[0].status);
      }
      CountInAt(t[1..], i - 1);
    }
  }

  /** Each summary entry counts exactly the records with its Status, and at
      least one; there is an entry for every present Status and no other; the
      entries come in ascending order of Status; and the counts add up to the
      number of records that have a Status. */
  lemma SummaryEntries(records: seq<CaseRecord>)
    ensures var r := Summarize(records);
      && (forall i | 0 <= i < |r| :: r[i].count == CountStatus(records, r[i].status) && r[i].count >= 1)
      && (forall i, j :: 0 <= i < j < |r| ==> LexLess(r[i].status, r[j].status))
      && (forall s :: s in PresentStatuses(records) <==> exists i | 0 <= i < |r| :: r[i].status == s)
      && SumCounts(r) == PresentCount(records) <= |records|
  {
    var r := Summarize(records);
    forall i | 0 <= i < |r|
      ensures r[i].count == CountStatus(records, r[i].status) && r[i].count >= 1
    {
      CountInAt(r, i);
      assert r[i] in r;
    }
    forall s | s in PresentStatuses(records)
      ensures exists i | 0 <= i < |r| :: r[i].status == s
    {
      assert s in SummaryKeys(r);
    }
    PresentCountBound(records);
  }

  lemma {:induction false} PresentCountBound(records: seq<CaseRecord>)
    ensures PresentCount(records) <= |records|
    decreases |records|
  {
    if records != [] {
      PresentCountBound(records[..|records| - 1]);
    }
  }
}
