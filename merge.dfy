/** The integer cast of the Case Number and the grouping of the cleaned rows
    into one record per case. */
module Merge {
  import opened Cells

  /** The text of a cleaned Description cell; cleaning leaves no cell blank,
      so the empty text for a blank one is never used. */
  function TextOf(d: Option<string>): string {
    match d
    case Some(t) => t
    case None => ""
  }

  /** Some row holds a Case Number the integer cast rejects. */
  predicate HasUnparsable(rows: seq<Row>) {
    exists x | x in rows :: x.caseNumber.Some? && x.caseNumber.value.Unparsable?
  }

  /** The integer Case Numbers found in `rows`. */
  function RowIds(rows: seq<Row>): set<int> {
    set x | x in rows && x.caseNumber.Some? && x.caseNumber.value.Id? :: x.caseNumber.value.number
  }

  function FragmentIds(frags: seq<Fragment>): set<int> {
    set f | f in frags :: f.caseNumber
  }

  /** The rows with an integer Case Number, as fragments, in row order. */
  function FragmentsOf(rows: seq<Row>): (r: seq<Fragment>)
    ensures FragmentIds(r) == RowIds(rows)
  {
    if rows == [] then []
    else
      var head := match rows[0].caseNumber
        case Some(Id(n)) => [Fragment(n, rows[0].subject, rows[0].status, TextOf(rows[0].description))]
        case _ => [];
      var rest := FragmentsOf(rows[1..]);
      assert rows == [rows[0]] + rows[1..];
      assert RowIds(rows) == RowIds([rows[0]]) + RowIds(rows[1..]);
      assert FragmentIds(head + rest) == FragmentIds(head) + FragmentIds(rest);
      head + rest
  }

  /** The cast of every Case Number to an integer, row by row; it fails on
      the first value that is not an integer. Blank Case Numbers are left out,
      as grouping leaves out blank keys. */
  function Cast(rows: seq<Row>): (r: Result<seq<Fragment>, LoadError>)
    ensures r.Err? <==> HasUnparsable(rows)
    ensures r.Ok? ==> r.value == FragmentsOf(rows)
  {
    if rows == [] then Ok([])
    else
      assert rows == [rows[0]] + rows[1..];
      match rows[0].caseNumber
      case None => Cast(rows[1..])
      case Some(Unparsable(t)) => Err(CaseNumberNotInteger(t))
      case Some(Id(n)) =>
        match Cast(rows[1..])
        case Err(e) => Err(e)
        case Ok(rest) => Ok([Fragment(n, rows[0].subject, rows[0].status, TextOf(rows[0].description))] + rest)
  }

  predicate StrictlyAscending(ks: seq<int>) {
    forall i, j :: 0 <= i < j < |ks| ==> ks[i] < ks[j]
  }

  /** `k` added to an ascending list of distinct keys, at its place. */
  function InsertKey(ks: seq<int>, k: int): (r: seq<int>)
    requires StrictlyAscending(ks)
    ensures StrictlyAscending(r)
    ensures forall x :: x in r <==> x in ks || x == k
  {
    if ks == [] then [k]
    else if k == ks[0] then ks
    else if k < ks[0] then [k] + ks
    else
      var rest := InsertKey(ks[1..], k);
      forall i | 0 <= i < |rest| ensures ks[0] < rest[i] {
        assert rest[i] in rest;
      }
      var r := [ks[0]] + rest;
      assert forall i | 0 < i < |r| :: r[i] == rest[i - 1];
      assert ks == [ks[0]] + ks[1..];
      r
  }

  /** The distinct Case Numbers of the fragments, in ascending order. */
  function SortedKeys(frags: seq<Fragment>): (r: seq<int>)
    ensures StrictlyAscending(r)
    ensures forall k :: k in r <==> k in FragmentIds(frags)
  {
    if frags == [] then []
    else
      var init := frags[..|frags| - 1];
      assert frags == init + [frags[|frags| - 1]];
      InsertKey(SortedKeys(init), frags[|frags| - 1].caseNumber)
  }

  /** The texts of the fragments of case `k`, in row order. */
  function CaseTexts(frags: seq<Fragment>, k: int): seq<string> {
    if frags == [] then []
    else (if frags[0].caseNumber == k then [frags[0].text] else []) + CaseTexts(frags[1..], k)
  }

  /** Gathering the texts of a case is order-preserving and works across any
      split of the rows, so fragments need not be contiguous. */
  lemma {:induction false} CaseTextsAppend(a: seq<Fragment>, b: seq<Fragment>, k: int)
    ensures CaseTexts(a + b, k) == CaseTexts(a, k) + CaseTexts(b, k)
    decreases |a|
  {
    if a == [] {
      assert a + b == b;
    } else {
      assert (a + b)[1..] == a[1..] + b;
      CaseTextsAppend(a[1..], b, k);
    }
  }

  /** A case has at least one text exactly when one of its fragments is present. */
  lemma {:induction false} CaseTextsNonEmpty(frags: seq<Fragment>, k: int)
    ensures |CaseTexts(frags, k)| > 0 <==> k in FragmentIds(frags)
    decreases |frags|
  {
    if frags != [] {
      CaseTextsNonEmpty(frags[1..], k);
      assert frags == [frags[0]] + frags[1..];
      assert FragmentIds(frags) == {frags[0].caseNumber} + FragmentIds(frags[1..]);
    }
  }

  datatype Field = SubjectField | StatusField

  function FieldOf(f: Fragment, field: Field): Option<string> {
    match field
    case SubjectField => f.subject
    case StatusField => f.status
  }

  /** The first present value of a column among the fragments of case `k`,
      as grouping with "first" picks it. */
  function FirstPresent(frags: seq<Fragment>, k: int, field: Field): (r: Option<string>)
    ensures r.None? <==> forall i | 0 <= i < |frags| && frags[i].caseNumber == k :: FieldOf(frags[i], field).None?
    ensures r.Some? ==> exists i | 0 <= i < |frags| ::
      && frags[i].caseNumber == k && FieldOf(frags[i], field) == r
      && forall j | 0 <= j < i :: frags[j].caseNumber == k ==> FieldOf(frags[j], field).None?
  {
    if frags == [] then None
    else if frags[0].caseNumber == k && FieldOf(frags[0], field).Some? then FieldOf(frags[0], field)
    else
      var r := FirstPresent(frags[1..], k, field);
      assert forall i | 1 <= i < |frags| :: frags[i] == frags[1..][i - 1];
      r
  }

  /** The texts joined with `sep` between neighbours. */
  function Join(sep: string, xs: seq<string>): string {
    if |xs| == 0 then ""
    else if |xs| == 1 then xs[0]
    else xs[0] + sep + Join(sep, xs[1..])
  }

  function TotalLength(xs: seq<string>): nat {
    if xs == [] then 0 else |xs[0]| + TotalLength(xs[1..])
  }

  function Concat(xs: seq<string>): string {
    if xs == [] then "" else xs[0] + Concat(xs[1..])
  }

  /** A join holds every text and one separator between each two of them. */
  lemma {:induction false} JoinLength(sep: string, xs: seq<string>)
    requires |xs| > 0
    ensures |Join(sep, xs)| == TotalLength(xs) + (|xs| - 1) * |sep|
    decreases |xs|
  {
    if |xs| > 1 {
      JoinLength(sep, xs[1..]);
      assert (|xs| - 1) * |sep| == (|xs| - 2) * |sep| + |sep|;
    }
  }

  /** With the empty separator a join is the plain concatenation, so its
      length is the sum of the text lengths. */
  lemma {:induction false} JoinEmptySeparator(xs: seq<string>)
    ensures Join("", xs) == Concat(xs)
    ensures |Join("", xs)| == TotalLength(xs)
    decreases |xs|
  {
    if |xs| > 1 {
      JoinEmptySeparator(xs[1..]);
    } else if |xs| == 1 {
      assert xs[1..] == [];
    }
  }

  /** The rows whose Case Number is the integer `k`, in row order. */
  function CaseRows(rows: seq<Row>, k: int): seq<Row> {
    if rows == [] then []
    else (if rows[0].caseNumber == Some(Id(k)) then [rows[0]] else []) + CaseRows(rows[1..], k)
  }

  lemma {:induction false} CaseRowsAppend(a: seq<Row>, b: seq<Row>, k: int)
    ensures CaseRows(a + b, k) == CaseRows(a, k) + CaseRows(b, k)
    decreases |a|
  {
    if a == [] {
      assert a + b == b;
    } else {
      assert (a + b)[1..] == a[1..] + b;
      CaseRowsAppend(a[1..], b, k);
    }
  }

  /** The Description texts of the rows, in row order. */
  function Texts(rows: seq<Row>): (r: seq<string>)
    ensures |r| == |rows|
  {
    if rows == [] then [] else [TextOf(rows[0].description)] + Texts(rows[1..])
  }

  function RowField(x: Row, field: Field): Option<string> {
    match field
    case SubjectField => x.subject
    case StatusField => x.status
  }

  /** The first present value of a column among the rows. */
  function FirstRowValue(rows: seq<Row>, field: Field): (r: Option<string>)
    ensures r.None? <==> forall i | 0 <= i < |rows| :: RowField(rows[i], field).None?
    ensures r.Some? ==> exists i | 0 <= i < |rows| ::
      && RowField(rows[i], field) == r
      && forall j | 0 <= j < i :: RowField(rows[j], field).None?
  {
    if rows == [] then None
    else if RowField(rows[0], field).Some? then RowField(rows[0], field)
    else
      var r := FirstRowValue(rows[1..], field);
      assert forall i | 1 <= i < |rows| :: rows[i] == rows[1..][i - 1];
      r
  }

  /** The fragments of the rows, split into their first row and the rest. */
  lemma FragmentsOfCons(rows: seq<Row>)
    requires rows != []
    ensures FragmentsOf(rows) == match rows[0].caseNumber
      case Some(Id(n)) => [Fragment(n, rows[0].subject, rows[0].status, TextOf(rows[0].description))] + FragmentsOf(rows[1..])
      case _ => FragmentsOf(rows[1..])
  {
  }

  /** The pieces of a case, gathered from the fragments, are the texts of
      the rows of that case in row order. */
  lemma {:induction false} FragmentsOfCaseTexts(rows: seq<Row>, k: int)
    ensures CaseTexts(FragmentsOf(rows), k) == Texts(CaseRows(rows, k))
    decreases |rows|
  {
    if rows != [] {
      FragmentsOfCaseTexts(rows[1..], k);
      FragmentsOfCons(rows);
      var x := rows[0];
      var rest := FragmentsOf(rows[1..]);
      var restRows := CaseRows(rows[1..], k);
      if x.caseNumber == Some(Id(k)) {
        var f := Fragment(k, x.subject, x.status, TextOf(x.description));
        assert ([f] + rest)[1..] == rest;
        assert CaseRows(rows, k) == [x] + restRows;
        assert ([x] + restRows)[1..] == restRows;
      } else if x.caseNumber.Some? && x.caseNumber.value.Id? {
        var f := Fragment(x.caseNumber.value.number, x.subject, x.status, TextOf(x.description));
        assert ([f] + rest)[1..] == rest;
        assert CaseRows(rows, k) == restRows;
      } else {
        assert CaseRows(rows, k) == restRows;
      }
    }
  }

  /** The `first` value of a column for a case, taken over the fragments, is
      the first present value among the rows of that case. */
  lemma {:induction false} FragmentsOfCaseFirst(rows: seq<Row>, k: int, field: Field)
    ensures FirstPresent(FragmentsOf(rows), k, field) == FirstRowValue(CaseRows(rows, k), field)
    decreases |rows|
  {
    if rows != [] {
      FragmentsOfCaseFirst(rows[1..], k, field);
      FragmentsOfCons(rows);
      var x := rows[0];
      var rest := FragmentsOf(rows[1..]);
      var restRows := CaseRows(rows[1..], k);
      if x.caseNumber == Some(Id(k)) {
        var f := Fragment(k, x.subject, x.status, TextOf(x.description));
        assert ([f] + rest)[1..] == rest;
        assert FieldOf(f, field) == RowField(x, field);
        assert CaseRows(rows, k) == [x] + restRows;
        assert ([x] + restRows)[1..] == restRows;
      } else if x.caseNumber.Some? && x.caseNumber.value.Id? {
        var f := Fragment(x.caseNumber.value.number, x.subject, x.status, TextOf(x.description));
        assert ([f] + rest)[1..] == rest;
        assert CaseRows(rows, k) == restRows;
      } else {
        assert CaseRows(rows, k) == restRows;
      }
    }
  }

  predicate AscendingCaseNumbers(frags: seq<Fragment>) {
    forall i, j :: 0 <= i < j < |frags| ==> frags[i].caseNumber < frags[j].caseNumber
  }

  function CaseNumbersOf(frags: seq<Fragment>): seq<int> {
    seq(|frags|, i requires 0 <= i < |frags| => frags[i].caseNumber)
  }

  /** A key above every key of an ascending list goes at its end. */
  lemma {:induction false} InsertKeyLast(ks: seq<int>, k: int)
    requires StrictlyAscending(ks)
    requires forall i | 0 <= i < |ks| :: ks[i] < k
    ensures InsertKey(ks, k) == ks + [k]
    decreases |ks|
  {
    if ks != [] {
      InsertKeyLast(ks[1..], k);
      assert ks == [ks[0]] + ks[1..];
    }
  }

  /** When the fragments already come one per case in ascending order, the
      group keys are their Case Numbers as they stand. */
  lemma {:induction false} SortedKeysAscending(frags: seq<Fragment>)
    requires AscendingCaseNumbers(frags)
    ensures SortedKeys(frags) == CaseNumbersOf(frags)
    decreases |frags|
  {
    if frags != [] {
      var init := frags[..|frags| - 1];
      SortedKeysAscending(init);
      assert frags == init + [frags[|frags| - 1]];
      InsertKeyLast(CaseNumbersOf(init), frags[|frags| - 1].caseNumber);
      assert CaseNumbersOf(frags) == CaseNumbersOf(init) + [frags[|frags| - 1].caseNumber];
    }
  }

  lemma {:induction false} CaseTextsAbsent(frags: seq<Fragment>, k: int)
    requires forall j | 0 <= j < |frags| :: frags[j].caseNumber != k
    ensures CaseTexts(frags, k) == []
    decreases |frags|
  {
    if frags != [] {
      assert frags[0].caseNumber != k;
      CaseTextsAbsent(frags[1..], k);
    }
  }

  /** In fragments with distinct keys, a case has exactly its own one piece. */
  lemma {:induction false} CaseTextsSingle(frags: seq<Fragment>, i: nat)
    requires AscendingCaseNumbers(frags) && i < |frags|
    ensures CaseTexts(frags, frags[i].caseNumber) == [frags[i].text]
    decreases i
  {
    var k := frags[i].caseNumber;
    if i == 0 {
      CaseTextsAbsent(frags[1..], k);
    } else {
      assert frags[0].caseNumber < k;
      assert frags[1..][i - 1] == frags[i];
      CaseTextsSingle(frags[1..], i - 1);
    }
  }

  /** Merging fragments that already hold one row per case, in ascending
      order, changes nothing: each record is its fragment. */
  lemma MergeSingletons(frags: seq<Fragment>, sep: string)
    requires AscendingCaseNumbers(frags)
    ensures MergeFragments(frags, sep)
      == seq(|frags|, i requires 0 <= i < |frags| => CaseRecord(frags[i].caseNumber, frags[i].subject, frags[i].text, frags[i].status))
  {
    SortedKeysAscending(frags);
    var m := MergeFragments(frags, sep);
    forall i | 0 <= i < |frags|
      ensures m[i] == CaseRecord(frags[i].caseNumber, frags[i].subject, frags[i].text, frags[i].status)
    {
      var k := frags[i].caseNumber;
      CaseTextsSingle(frags, i);
      assert Join(sep, [frags[i].text]) == frags[i].text;
      assert FirstPresent(frags, k, SubjectField) == frags[i].subject by {
        if FirstPresent(frags, k, SubjectField).Some? {
          var j :| 0 <= j < |frags| && frags[j].caseNumber == k && FieldOf(frags[j], SubjectField) == FirstPresent(frags, k, SubjectField)
            && forall j' | 0 <= j' < j :: frags[j'].caseNumber == k ==> FieldOf(frags[j'], SubjectField).None?;
          assert j == i;
        }
      }
      assert FirstPresent(frags, k, StatusField) == frags[i].status by {
        if FirstPresent(frags, k, StatusField).Some? {
          var j :| 0 <= j < |frags| && frags[j].caseNumber == k && FieldOf(frags[j], StatusField) == FirstPresent(frags, k, StatusField)
            && forall j' | 0 <= j' < j :: frags[j'].caseNumber == k ==> FieldOf(frags[j'], StatusField).None?;
          assert j == i;
        }
      }
    }
  }

  /** The record of case `k`. */
  function RecordFor(frags: seq<Fragment>, k: int, sep: string): CaseRecord {
    CaseRecord(k, FirstPresent(frags, k, SubjectField), Join(sep, CaseTexts(frags, k)), FirstPresent(frags, k, StatusField))
  }

  /** One record per distinct Case Number, in ascending order. */
  function MergeFragments(frags: seq<Fragment>, sep: string): seq<CaseRecord> {
    var keys := SortedKeys(frags);
    seq(|keys|, i requires 0 <= i < |keys| => RecordFor(frags, keys[i], sep))
  }

  /** The merged records come in strictly ascending Case Number order, there
      is one for each distinct Case Number of the fragments and no other, and
      each is the record of its own case, built from at least one fragment. */
  lemma MergeOnePerCase(frags: seq<Fragment>, sep: string)
    ensures var r := MergeFragments(frags, sep);
      && (forall i, j :: 0 <= i < j < |r| ==> r[i].caseNumber < r[j].caseNumber)
      && (forall k :: (exists i | 0 <= i < |r| :: r[i].caseNumber == k) <==> k in FragmentIds(frags))
      && (forall i | 0 <= i < |r| :: r[i] == RecordFor(frags, r[i].caseNumber, sep))
      && (forall i | 0 <= i < |r| :: |CaseTexts(frags, r[i].caseNumber)| > 0)
  {
    var r := MergeFragments(frags, sep);
    var keys := SortedKeys(frags);
    forall k | k in FragmentIds(frags)
      ensures exists i | 0 <= i < |r| :: r[i].caseNumber == k
    {
      var i :| 0 <= i < |keys| && keys[i] == k;
      assert r[i].caseNumber == k;
    }
    forall i | 0 <= i < |r|
      ensures |CaseTexts(frags, r[i].caseNumber)| > 0
    {
      assert keys[i] in keys;
      CaseTextsNonEmpty(frags, r[i].caseNumber);
    }
  }
}
