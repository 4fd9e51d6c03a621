/** The load-and-clean pipeline of both scripts: the sheet as a frame of rows
    changed in place (fill, drop, Description cleaning), then grouping into
    one record per case and the integer cast of the Case Number. */
module Pipeline {
  import opened Cells
  import opened ForwardFill
  import opened DescriptionCleaning
  import opened Merge

  /** chatbot.py joins the Description pieces of a case with a space. */
  const CHATBOT_SEPARATOR: string := " "

  /** simple_cleaner.py joins them with nothing in between. */
  const CLEANER_SEPARATOR: string := ""

  /** The rows with every Description replaced by its cleaned text. */
  function CleanRows(rows: seq<Row>): seq<Row> {
    seq(|rows|, i requires 0 <= i < |rows| => rows[i].(description := Some(CleanDescription(rows[i].description))))
  }

  /** The sheet being cleaned: its rows, of which the first `count` are live. */
  class CaseFrame {
    var rows: array<Row>
    var count: nat

    ghost predicate Valid()
      reads this
    {
      count <= rows.Length
    }

    function Contents(): seq<Row>
      reads this, rows
      requires Valid()
    {
      rows[..count]
    }

    constructor (raw: seq<Row>)
      ensures Valid() && fresh(rows)
      ensures Contents() == raw
    {
      rows := new Row[|raw|](i requires 0 <= i < |raw| => raw[i]);
      count := |raw|;
    }

    /** Forward fill of Case Number, Subject and Status: one pass over the
        rows keeping the last present value of each column. */
    method FillForward()
      requires Valid()
      modifies rows
      ensures Valid()
      ensures Contents() == FillForwardRows(old(Contents()))
    {
      ghost var input := rows[..count];
      ghost var target := FillForwardRows(input);
      assert |target| == count;
      var lastCase: Option<CaseCell> := None;
      var lastSubject: Option<string> := None;
      var lastStatus: Option<string> := None;
      var i := 0;
      while i < count
        invariant 0 <= i <= count
        invariant forall j | 0 <= j < i :: rows[j] == target[j]
        invariant forall j | i <= j < count :: rows[j] == input[j]
        invariant lastCase == LastPresent(CaseNumbers(input), i)
        invariant lastSubject == LastPresent(Subjects(input), i)
        invariant lastStatus == LastPresent(Statuses(input), i)
      {
        var row := rows[i];
        assert CaseNumbers(input)[i] == row.caseNumber;
        assert Subjects(input)[i] == row.subject;
        assert Statuses(input)[i] == row.status;
        if row.caseNumber.Some? {
          lastCase := row.caseNumber;
        }
        if row.subject.Some? {
          lastSubject := row.subject;
        }
        if row.status.Some? {
          lastStatus := row.status;
        }
        rows[i] := row.(caseNumber := lastCase, subject := lastSubject, status := lastStatus);
        i := i + 1;
      }
      assert rows[..count] == target;
    }

    /** Removal, in place, of the rows whose Case Number is blank. */
    method DropBlankCaseNumbers()
      requires Valid()
      modifies this`count, rows
      ensures Valid()
      ensures Contents() == KeepNumbered(old(Contents()))
    {
      ghost var input := rows[..count];
      var n := count;
      var kept := 0;
      var i := 0;
      while i < n
        invariant |input| == n <= rows.Length
        invariant 0 <= kept <= i <= n
        invariant rows[..kept] == KeepNumbered(input[..i])
        invariant forall j | i <= j < n :: rows[j] == input[j]
        modifies rows
      {
        ghost var done := rows[..kept];
        var row := rows[i];
        KeepNumberedStep(input, i);
        if row.caseNumber.Some? {
          rows[kept] := row;
          kept := kept + 1;
          assert rows[..kept] == done + [row];
        }
        i := i + 1;
      }
      assert input[..n] == input;
      count := kept;
    }

    /** Each Description turned into text and cleaned of every "nan". */
    method CleanDescriptions()
      requires Valid()
      modifies rows
      ensures Valid()
      ensures Contents() == CleanRows(old(Contents()))
    {
      ghost var input := rows[..count];
      var i := 0;
      while i < count
        invariant 0 <= i <= count
        invariant forall j | 0 <= j < i :: rows[j] == CleanRows(input)[j]
        invariant forall j | i <= j < count :: rows[j] == input[j]
      {
        rows[i] := rows[i].(description := Some(CleanDescription(rows[i].description)));
        i := i + 1;
      }
      assert rows[..count] == CleanRows(input);
    }
  }

  /** The rows left after fill, drop and cleaning. */
  function CleanedRows(raw: seq<Row>): seq<Row> {
    CleanRows(KeepNumbered(FillForwardRows(raw)))
  }

  /** What the pipeline returns for an already loaded sheet. */
  function Reconstruct(raw: seq<Row>, sep: string): Result<seq<CaseRecord>, LoadError> {
    match Cast(CleanedRows(raw))
    case Err(e) => Err(e)
    case Ok(frags) => Ok(MergeFragments(frags, sep))
  }

  /** The whole pipeline, run on a frame built from the loaded rows. */
  method LoadAndCleanData(raw: seq<Row>, sep: string) returns (r: Result<seq<CaseRecord>, LoadError>)
    ensures r == Reconstruct(raw, sep)
  {
    var frame := new CaseFrame(raw);
    frame.FillForward();
    frame.DropBlankCaseNumbers();
    frame.CleanDescriptions();
    var rows := frame.Contents();
    match Cast(rows)
    case Err(e) =>
      r := Err(e);
    case Ok(frags) =>
      r := Ok(MergeFragments(frags, sep));
  }

  /** The non-blank Case Number cells of `rows`. */
  function CaseCells(rows: seq<Row>): set<CaseCell> {
    set x | x in rows && x.caseNumber.Some? :: x.caseNumber.value
  }

  /** The fill copies only values already present, and every present value
      stays where it is. */
  lemma FilledCaseCells(raw: seq<Row>)
    ensures CaseCells(FillForwardRows(raw)) == CaseCells(raw)
  {
    var filled := FillForwardRows(raw);
    forall c | c in CaseCells(raw)
      ensures c in CaseCells(filled)
    {
      var x :| x in raw && x.caseNumber == Some(c);
      var i :| 0 <= i < |raw| && raw[i] == x;
      FillForwardCells(raw, i);
      assert filled[i] in filled;
    }
    forall c | c in CaseCells(filled)
      ensures c in CaseCells(raw)
    {
      var x :| x in filled && x.caseNumber == Some(c);
      var i :| 0 <= i < |filled| && filled[i] == x;
      FilledCaseNumberSource(raw, i);
      var j :| 0 <= j <= i && raw[j].caseNumber == Some(c);
      assert raw[j] in raw;
    }
  }

  lemma CleanRowsCaseCells(rows: seq<Row>)
    ensures CaseCells(CleanRows(rows)) == CaseCells(rows)
  {
    var cleaned := CleanRows(rows);
    forall c | c in CaseCells(rows)
      ensures c in CaseCells(cleaned)
    {
      var x :| x in rows && x.caseNumber == Some(c);
      var i :| 0 <= i < |rows| && rows[i] == x;
      assert cleaned[i] in cleaned;
    }
    forall c | c in CaseCells(cleaned)
      ensures c in CaseCells(rows)
    {
      var x :| x in cleaned && x.caseNumber == Some(c);
      var i :| 0 <= i < |cleaned| && cleaned[i] == x;
      assert rows[i] in rows;
    }
  }

  /** Fill, drop and cleaning keep exactly the Case Number values of the
      input: the drop removes only rows left blank. */
  lemma CleanedCaseCells(raw: seq<Row>)
    ensures CaseCells(CleanedRows(raw)) == CaseCells(raw)
  {
    var filled := FillForwardRows(raw);
    FilledCaseCells(raw);
    KeepNumberedMembers(filled);
    assert CaseCells(KeepNumbered(filled)) == CaseCells(filled);
    CleanRowsCaseCells(KeepNumbered(filled));
  }

  lemma HasUnparsableCells(rows: seq<Row>)
    ensures HasUnparsable(rows) <==> exists c | c in CaseCells(rows) :: c.Unparsable?
  {
    if exists c | c in CaseCells(rows) :: c.Unparsable? {
      var c :| c in CaseCells(rows) && c.Unparsable?;
      var x :| x in rows && x.caseNumber == Some(c);
    }
  }

  lemma RowIdsCells(rows: seq<Row>)
    ensures RowIds(rows) == set c | c in CaseCells(rows) && c.Id? :: c.number
  {
  }

  /** The load fails exactly when some Case Number of the sheet cannot be
      cast to an integer. */
  lemma LoadFailsIff(raw: seq<Row>, sep: string)
    ensures Reconstruct(raw, sep).Err? <==> HasUnparsable(raw)
  {
    CleanedCaseCells(raw);
    HasUnparsableCells(raw);
    HasUnparsableCells(CleanedRows(raw));
  }

  /** On success there is exactly one record per distinct Case Number of the
      sheet, in strictly ascending order. */
  lemma LoadOnePerCase(raw: seq<Row>, sep: string)
    requires Reconstruct(raw, sep).Ok?
    ensures var recs := Reconstruct(raw, sep).value;
      && (forall i, j :: 0 <= i < j < |recs| ==> recs[i].caseNumber < recs[j].caseNumber)
      && (forall n :: n in RowIds(raw) <==> exists i | 0 <= i < |recs| :: recs[i].caseNumber == n)
      && forall i | 0 <= i < |recs| ::
        var rows := CaseRows(FillForwardRows(raw), recs[i].caseNumber);
        && |rows| > 0
        && recs[i].description == Join(sep, CleanedTexts(rows))
        && recs[i].subject == FirstRowValue(rows, SubjectField)
        && recs[i].status == FirstRowValue(rows, StatusField)
  {
    var frags := Cast(CleanedRows(raw)).value;
    var recs := Reconstruct(raw, sep).value;
    MergeOnePerCase(frags, sep);
    forall i | 0 <= i < |recs|
      ensures var rows := CaseRows(FillForwardRows(raw), recs[i].caseNumber);
        && |rows| > 0
        && recs[i].description == Join(sep, CleanedTexts(rows))
        && recs[i].subject == FirstRowValue(rows, SubjectField)
        && recs[i].status == FirstRowValue(rows, StatusField)
    {
      LoadRecordAt(raw, sep, i);
    }
    CleanedCaseCells(raw);
    RowIdsCells(raw);
    RowIdsCells(CleanedRows(raw));
  }

  /** The cleaned Description texts of the rows, in row order. */
  function CleanedTexts(rows: seq<Row>): (r: seq<string>)
    ensures |r| == |rows|
  {
    if rows == [] then [] else [CleanDescription(rows[0].description)] + CleanedTexts(rows[1..])
  }

  lemma CleanRowsCons(rows: seq<Row>)
    requires rows != []
    ensures CleanRows(rows) == [rows[0].(description := Some(CleanDescription(rows[0].description)))] + CleanRows(rows[1..])
  {
  }

  /** The drop keeps every row of a case: a row with Case Number `k` is never blank. */
  lemma {:induction false} CaseRowsKeepNumbered(rows: seq<Row>, k: int)
    ensures CaseRows(KeepNumbered(rows), k) == CaseRows(rows, k)
    decreases |rows|
  {
    if rows != [] {
      var init, last := rows[..|rows| - 1], rows[|rows| - 1];
      var tail := if last.caseNumber.Some? then [last] else [];
      CaseRowsKeepNumbered(init, k);
      assert KeepNumbered(rows) == KeepNumbered(init) + tail;
      CaseRowsAppend(KeepNumbered(init), tail, k);
      assert rows == init + [last];
      CaseRowsAppend(init, [last], k);
      assert CaseRows(tail, k) == CaseRows([last], k);
    }
  }

  /** Cleaning Descriptions and picking the rows of a case can be done in either order. */
  lemma {:induction false} CaseRowsCleanRows(rows: seq<Row>, k: int)
    ensures CaseRows(CleanRows(rows), k) == CleanRows(CaseRows(rows, k))
    decreases |rows|
  {
    if rows != [] {
      CaseRowsCleanRows(rows[1..], k);
      CleanRowsCons(rows);
      var x := rows[0];
      var c := x.(description := Some(CleanDescription(x.description)));
      assert ([c] + CleanRows(rows[1..]))[1..] == CleanRows(rows[1..]);
      if x.caseNumber == Some(Id(k)) {
        assert CaseRows(rows, k) == [x] + CaseRows(rows[1..], k);
        CleanRowsCons([x] + CaseRows(rows[1..], k));
        assert ([x] + CaseRows(rows[1..], k))[1..] == CaseRows(rows[1..], k);
      }
    }
  }

  /** The texts of cleaned rows are their cleaned Descriptions. */
  lemma {:induction false} TextsCleanRows(rows: seq<Row>)
    ensures Texts(CleanRows(rows)) == CleanedTexts(rows)
    decreases |rows|
  {
    if rows != [] {
      TextsCleanRows(rows[1..]);
      CleanRowsCons(rows);
      var c := rows[0].(description := Some(CleanDescription(rows[0].description)));
      assert ([c] + CleanRows(rows[1..]))[1..] == CleanRows(rows[1..]);
    }
  }

  /** Cleaning Descriptions does not change the first present Subject or Status. */
  lemma {:induction false} FirstRowValueCleanRows(rows: seq<Row>, field: Field)
    ensures FirstRowValue(CleanRows(rows), field) == FirstRowValue(rows, field)
    decreases |rows|
  {
    if rows != [] {
      FirstRowValueCleanRows(rows[1..], field);
      CleanRowsCons(rows);
      var c := rows[0].(description := Some(CleanDescription(rows[0].description)));
      assert ([c] + CleanRows(rows[1..]))[1..] == CleanRows(rows[1..]);
    }
  }

  /** The record of case `k` rebuilt from the kept, cleaned rows: its
      Description joins the cleaned Descriptions of the filled rows of `k` in
      row order, and its Subject and Status are the first present values
      among those rows. */
  lemma CaseRecordContents(raw: seq<Row>, k: int, sep: string)
    ensures var frags, rows := FragmentsOf(CleanedRows(raw)), CaseRows(FillForwardRows(raw), k);
      && RecordFor(frags, k, sep)
        == CaseRecord(k, FirstRowValue(rows, SubjectField), Join(sep, CleanedTexts(rows)), FirstRowValue(rows, StatusField))
      && |CaseTexts(frags, k)| == |rows|
  {
    var filled := FillForwardRows(raw);
    var rows := CaseRows(filled, k);
    var cleaned := CleanedRows(raw);
    FragmentsOfCaseTexts(cleaned, k);
    FragmentsOfCaseFirst(cleaned, k, SubjectField);
    FragmentsOfCaseFirst(cleaned, k, StatusField);
    CaseRowsCleanRows(KeepNumbered(filled), k);
    CaseRowsKeepNumbered(filled, k);
    assert CaseRows(cleaned, k) == CleanRows(rows);
    TextsCleanRows(rows);
    FirstRowValueCleanRows(rows, SubjectField);
    FirstRowValueCleanRows(rows, StatusField);
  }

  /** Record `i` of a successful load, traced back to the filled rows of its case. */
  lemma LoadRecordAt(raw: seq<Row>, sep: string, i: nat)
    requires Reconstruct(raw, sep).Ok? && i < |Reconstruct(raw, sep).value|
    ensures var rec := Reconstruct(raw, sep).value[i];
      var rows := CaseRows(FillForwardRows(raw), rec.caseNumber);
      && |rows| > 0
      && rec.description == Join(sep, CleanedTexts(rows))
      && rec.subject == FirstRowValue(rows, SubjectField)
      && rec.status == FirstRowValue(rows, StatusField)
  {
    var frags := Cast(CleanedRows(raw)).value;
    var recs := MergeFragments(frags, sep);
    assert recs == Reconstruct(raw, sep).value;
    MergeOnePerCase(frags, sep);
    CaseRecordContents(raw, recs[i].caseNumber, sep);
  }

  lemma {:induction false} AscendingCardinality(ks: seq<int>)
    requires StrictlyAscending(ks)
    ensures |set k | k in ks| == |ks|
    decreases |ks|
  {
    if ks != [] {
      AscendingCardinality(ks[1..]);
      assert (set k | k in ks) == {ks[0]} + set k | k in ks[1..];
      assert ks[0] !in set k | k in ks[1..];
    }
  }

  /** The reported total of cases, the length of the returned table, is the
      number of distinct Case Numbers in the sheet. */
  lemma LoadCaseCount(raw: seq<Row>, sep: string)
    requires Reconstruct(raw, sep).Ok?
    ensures |Reconstruct(raw, sep).value| == |RowIds(raw)|
  {
    var frags := Cast(CleanedRows(raw)).value;
    var keys := SortedKeys(frags);
    CleanedCaseCells(raw);
    RowIdsCells(raw);
    RowIdsCells(CleanedRows(raw));
    AscendingCardinality(keys);
    assert (set k | k in keys) == RowIds(raw);
  }

  /** Two records that differ at most in the separator placed between the
      pieces of their Description. */
  ghost predicate SameButSeparator(spaced: CaseRecord, plain: CaseRecord) {
    && spaced.caseNumber == plain.caseNumber
    && spaced.subject == plain.subject
    && spaced.status == plain.status
    && exists pieces: seq<string> ::
      spaced.description == Join(CHATBOT_SEPARATOR, pieces) && plain.description == Concat(pieces)
  }

  /** Merging the same fragments with a space or with nothing in between
      gives the same records but for the Description, and both Descriptions
      join the same pieces. */
  lemma MergeSeparators(frags: seq<Fragment>)
    ensures var spaced, plain := MergeFragments(frags, CHATBOT_SEPARATOR), MergeFragments(frags, CLEANER_SEPARATOR);
      && |spaced| == |plain|
      && forall i | 0 <= i < |spaced| :: SameButSeparator(spaced[i], plain[i])
  {
    var spaced, plain := MergeFragments(frags, CHATBOT_SEPARATOR), MergeFragments(frags, CLEANER_SEPARATOR);
    forall i | 0 <= i < |spaced|
      ensures SameButSeparator(spaced[i], plain[i])
    {
      var k := SortedKeys(frags)[i];
      var pieces := CaseTexts(frags, k);
      assert spaced[i] == RecordFor(frags, k, CHATBOT_SEPARATOR);
      assert plain[i] == RecordFor(frags, k, CLEANER_SEPARATOR);
      JoinEmptySeparator(pieces);
    }
  }

  /** The two scripts agree on everything but the Description separator: both
      fail or both succeed, with the same Case Numbers, Subjects and Statuses,
      and with Descriptions joined from the same cleaned pieces. */
  lemma SeparatorOnlyDifference(raw: seq<Row>)
    ensures Reconstruct(raw, CHATBOT_SEPARATOR).Err? <==> Reconstruct(raw, CLEANER_SEPARATOR).Err?
    ensures Reconstruct(raw, CHATBOT_SEPARATOR).Ok? ==>
      var spaced, plain := Reconstruct(raw, CHATBOT_SEPARATOR).value, Reconstruct(raw, CLEANER_SEPARATOR).value;
      && |spaced| == |plain|
      && forall i | 0 <= i < |spaced| :: SameButSeparator(spaced[i], plain[i])
  {
    match Cast(CleanedRows(raw))
    case Err(e) =>
    case Ok(frags) =>
      MergeSeparators(frags);
  }

  /** Cleaning each piece before joining lets "nan" form again across the
      boundary of two pieces when nothing separates them. */
  lemma NanAcrossPieces()
    ensures Join(CLEANER_SEPARATOR, [CleanDescription(Some("n")), CleanDescription(Some("an"))]) == "nan"
    ensures ContainsNan("nan")
  {
    assert CleanDescription(Some("n")) == "n";
    assert CleanDescription(Some("an")) == "an";
    assert IsNanAt("nan", 0);
  }
}
