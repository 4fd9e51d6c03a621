/** Normalisation of the raw rows: the forward fill of the three identifier
    columns, and the removal of rows that still have no Case Number. */
module ForwardFill {
  import opened Cells

  /** The identifier columns that the fill propagates downwards. */
  datatype Column = CaseNumberColumn | SubjectColumn | StatusColumn

  const IDENTIFIER_COLUMNS: set<Column> := {CaseNumberColumn, SubjectColumn, StatusColumn}

  /** The column list as chatbot.py hands it to the fill. */
  const CHATBOT_FILL_ORDER: seq<Column> := [CaseNumberColumn, SubjectColumn, StatusColumn]

  /** The column list as simple_cleaner.py hands it to the fill. */
  const CLEANER_FILL_ORDER: seq<Column> := [CaseNumberColumn, StatusColumn, SubjectColumn]

  /** The value a forward fill puts in a cell whose first `n` cells above and
      including it are `cells[..n]`: the nearest present value, or blank when
      there is none. */
  function LastPresent<T>(cells: seq<Option<T>>, n: nat): Option<T>
    requires n <= |cells|
  {
    if n == 0 then None
    else if cells[n - 1].Some? then cells[n - 1]
    else LastPresent(cells, n - 1)
  }

  /** The fill value is present exactly when some cell among the first `n`
      is, and then it is the value of the last such cell. */
  lemma {:induction false} LastPresentSpec<T>(cells: seq<Option<T>>, n: nat)
    requires n <= |cells|
    ensures LastPresent(cells, n).Some? <==> exists j | 0 <= j < n :: cells[j].Some?
    ensures LastPresent(cells, n).Some? ==> exists j | 0 <= j < n ::
      && cells[j] == LastPresent(cells, n)
      && forall k | j < k < n :: cells[k].None?
    decreases n
  {
    if n > 0 && cells[n - 1].None? {
      LastPresentSpec(cells, n - 1);
    }
  }

  function CaseNumbers(rows: seq<Row>): seq<Option<CaseCell>> {
    seq(|rows|, i requires 0 <= i < |rows| => rows[i].caseNumber)
  }

  function Subjects(rows: seq<Row>): seq<Option<string>> {
    seq(|rows|, i requires 0 <= i < |rows| => rows[i].subject)
  }

  function Statuses(rows: seq<Row>): seq<Option<string>> {
    seq(|rows|, i requires 0 <= i < |rows| => rows[i].status)
  }

  /** The rows with every column of `cols` forward-filled; each column is
      filled from its own cells only. */
  function FillSet(rows: seq<Row>, cols: set<Column>): seq<Row> {
    var cases, subjects, statuses := CaseNumbers(rows), Subjects(rows), Statuses(rows);
    seq(|rows|, i requires 0 <= i < |rows| =>
      Row(
        if CaseNumberColumn in cols then LastPresent(cases, i + 1) else rows[i].caseNumber,
        if SubjectColumn in cols then LastPresent(subjects, i + 1) else rows[i].subject,
        if StatusColumn in cols then LastPresent(statuses, i + 1) else rows[i].status,
        rows[i].description))
  }

  /** The fill of all three identifier columns. It is written out rather
      than as `FillSet(rows, IDENTIFIER_COLUMNS)` so that proofs about it need
      not reason about set membership; `FillSetAll` shows the two agree. */
  function FillForwardRows(rows: seq<Row>): seq<Row> {
    var cases, subjects, statuses := CaseNumbers(rows), Subjects(rows), Statuses(rows);
    seq(|rows|, i requires 0 <= i < |rows| =>
      Row(LastPresent(cases, i + 1), LastPresent(subjects, i + 1), LastPresent(statuses, i + 1), rows[i].description))
  }

  lemma FillSetAll(rows: seq<Row>)
    ensures FillSet(rows, IDENTIFIER_COLUMNS) == FillForwardRows(rows)
  {
  }

  /** The fill of one column. */
  function FillColumn(rows: seq<Row>, c: Column): seq<Row> {
    FillSet(rows, {c})
  }

  /** The fill of the listed columns, one after another. */
  function FillColumns(rows: seq<Row>, cs: seq<Column>): seq<Row>
    decreases |cs|
  {
    if cs == [] then rows else FillColumns(FillColumn(rows, cs[0]), cs[1..])
  }

  /** After the fill, a present identifier cell keeps its value, a blank one
      takes the nearest present value above it in the same column (or stays
      blank when there is none), and the Description is untouched. */
  lemma FillForwardCells(rows: seq<Row>, i: nat)
    requires i < |rows|
    ensures |FillForwardRows(rows)| == |rows|
    ensures var r := FillForwardRows(rows)[i];
      && (rows[i].caseNumber.Some? ==> r.caseNumber == rows[i].caseNumber)
      && (rows[i].caseNumber.None? ==> r.caseNumber == LastPresent(CaseNumbers(rows), i))
      && (rows[i].subject.Some? ==> r.subject == rows[i].subject)
      && (rows[i].subject.None? ==> r.subject == LastPresent(Subjects(rows), i))
      && (rows[i].status.Some? ==> r.status == rows[i].status)
      && (rows[i].status.None? ==> r.status == LastPresent(Statuses(rows), i))
      && r.description == rows[i].description
  {
  }

  /** A filled Case Number is the value of some row at or above it. */
  lemma FilledCaseNumberSource(rows: seq<Row>, i: nat)
    requires i < |rows| && FillForwardRows(rows)[i].caseNumber.Some?
    ensures exists j | 0 <= j <= i :: rows[j].caseNumber == FillForwardRows(rows)[i].caseNumber
  {
    LastPresentSpec(CaseNumbers(rows), i + 1);
    var j :| 0 <= j < i + 1 && CaseNumbers(rows)[j] == FillForwardRows(rows)[i].caseNumber;
    assert rows[j].caseNumber == CaseNumbers(rows)[j];
  }

  /** Filling a column leaves every other column as it was. */
  lemma FillSetOtherColumns(rows: seq<Row>, cols: set<Column>)
    ensures CaseNumberColumn !in cols ==> CaseNumbers(FillSet(rows, cols)) == CaseNumbers(rows)
    ensures SubjectColumn !in cols ==> Subjects(FillSet(rows, cols)) == Subjects(rows)
    ensures StatusColumn !in cols ==> Statuses(FillSet(rows, cols)) == Statuses(rows)
  {
  }

  /** Filling one more column after some others is the same as filling them all at once. */
  lemma FillSetStep(rows: seq<Row>, cols: set<Column>, c: Column)
    requires c !in cols
    ensures FillColumn(FillSet(rows, cols), c) == FillSet(rows, cols + {c})
  {
    var filled := FillSet(rows, cols);
    FillSetOtherColumns(rows, cols);
    assert CaseNumbers(filled) == CaseNumbers(rows) || c != CaseNumberColumn;
    assert Subjects(filled) == Subjects(rows) || c != SubjectColumn;
    assert Statuses(filled) == Statuses(rows) || c != StatusColumn;
  }

  predicate Distinct(cs: seq<Column>) {
    forall i, j :: 0 <= i < j < |cs| ==> cs[i] != cs[j]
  }

  /** Filling distinct columns one after another, in any order, gives the
      same table as filling them together. */
  lemma {:induction false} FillColumnsFrom(rows: seq<Row>, cols: set<Column>, cs: seq<Column>)
    requires Distinct(cs)
    requires forall i :: 0 <= i < |cs| ==> cs[i] !in cols
    ensures FillColumns(FillSet(rows, cols), cs) == FillSet(rows, cols + (set c | c in cs))
    decreases |cs|
  {
    if cs == [] {
      assert (set c | c in cs) == {};
      assert cols + (set c | c in cs) == cols;
    } else {
      FillSetStep(rows, cols, cs[0]);
      assert cols + {cs[0]} + (set c | c in cs[1..]) == cols + (set c | c in cs);
      FillColumnsFrom(rows, cols + {cs[0]}, cs[1..]);
    }
  }

  /** The order of the column list given to the fill does not matter: both
      orders used by the two scripts give the fill of all three columns. */
  lemma FillOrderImmaterial(rows: seq<Row>)
    ensures FillColumns(rows, CHATBOT_FILL_ORDER) == FillForwardRows(rows)
    ensures FillColumns(rows, CLEANER_FILL_ORDER) == FillForwardRows(rows)
  {
    assert FillSet(rows, {}) == rows;
    assert (set c | c in CHATBOT_FILL_ORDER) == IDENTIFIER_COLUMNS;
    assert (set c | c in CLEANER_FILL_ORDER) == IDENTIFIER_COLUMNS;
    FillColumnsFrom(rows, {}, CHATBOT_FILL_ORDER);
    FillColumnsFrom(rows, {}, CLEANER_FILL_ORDER);
    FillSetAll(rows);
  }

  /** The rows that have a Case Number, in their original order. */
  function KeepNumbered(rows: seq<Row>): seq<Row> {
    if rows == [] then []
    else
      var last := rows[|rows| - 1];
      KeepNumbered(rows[..|rows| - 1]) + if last.caseNumber.Some? then [last] else []
  }

  /** Scanning one more row extends the kept rows by that row when it has a Case Number. */
  lemma KeepNumberedStep(rows: seq<Row>, i: nat)
    requires i < |rows|
    ensures KeepNumbered(rows[..i + 1]) == KeepNumbered(rows[..i]) + if rows[i].caseNumber.Some? then [rows[i]] else []
  {
    assert rows[..i + 1][..i] == rows[..i];
  }

  /** The kept rows are exactly the rows that have a Case Number. */
  lemma {:induction false} KeepNumberedMembers(rows: seq<Row>)
    ensures forall x :: x in KeepNumbered(rows) <==> x in rows && x.caseNumber.Some?
    decreases |rows|
  {
    if rows != [] {
      var init, last := rows[..|rows| - 1], rows[|rows| - 1];
      KeepNumberedMembers(init);
      assert rows == init + [last];
    }
  }

  /** The index of the first row at or after `k` that has a Case Number, or
      the number of rows when there is none. */
  function FirstNumberedFrom(rows: seq<Row>, k: nat): (n: nat)
    requires k <= |rows|
    ensures k <= n <= |rows|
    ensures forall i | k <= i < n :: rows[i].caseNumber.None?
    ensures n < |rows| ==> rows[n].caseNumber.Some?
    decreases |rows| - k
  {
    if k == |rows| || rows[k].caseNumber.Some? then k else FirstNumberedFrom(rows, k + 1)
  }

  /** The number of leading rows that come before the first Case Number. */
  function LeadingBlanks(rows: seq<Row>): (n: nat)
    ensures n <= |rows|
    ensures forall i | 0 <= i < n :: rows[i].caseNumber.None?
    ensures n < |rows| ==> rows[n].caseNumber.Some?
  {
    FirstNumberedFrom(rows, 0)
  }

  /** After the fill, exactly the leading rows have no Case Number. */
  lemma FilledCaseNumbers(rows: seq<Row>, i: nat)
    requires i < |rows|
    ensures FillForwardRows(rows)[i].caseNumber.None? <==> i < LeadingBlanks(rows)
  {
    var n := LeadingBlanks(rows);
    var cases := CaseNumbers(rows);
    LastPresentSpec(cases, i + 1);
    if n <= i {
      assert cases[n].Some?;
    }
  }

  lemma {:induction false} KeepNumberedSuffix(rows: seq<Row>, n: nat)
    requires n <= |rows|
    requires forall i :: 0 <= i < n ==> rows[i].caseNumber.None?
    requires forall i :: n <= i < |rows| ==> rows[i].caseNumber.Some?
    ensures KeepNumbered(rows) == rows[n..]
    decreases |rows|
  {
    if rows != [] {
      var init, last := rows[..|rows| - 1], rows[|rows| - 1];
      assert KeepNumbered(rows) == KeepNumbered(init) + if last.caseNumber.Some? then [last] else [];
      if n == |rows| {
        KeepNumberedSuffix(init, n - 1);
        assert KeepNumbered(init) == [];
      } else {
        KeepNumberedSuffix(init, n);
        assert rows[n..] == init[n..] + [last];
      }
    }
  }

  /** The drop removes exactly the leading rows before the first Case Number
      and keeps every later row, filled, in its original order. */
  lemma DropOnlyLeading(rows: seq<Row>)
    ensures var filled := FillForwardRows(rows);
      && KeepNumbered(filled) == filled[LeadingBlanks(rows)..]
      && |KeepNumbered(filled)| == |rows| - LeadingBlanks(rows)
  {
    var filled := FillForwardRows(rows);
    forall i | 0 <= i < |rows|
      ensures filled[i].caseNumber.None? <==> i < LeadingBlanks(rows)
    {
      FilledCaseNumbers(rows, i);
    }
    KeepNumberedSuffix(filled, LeadingBlanks(rows));
  }
}
