/** A worked example: a sheet in which case 1 spreads over three rows. */
module Scenario {
  import opened Cells
  import opened ForwardFill
  import opened DescriptionCleaning
  import opened Merge
  import opened Pipeline

  const SHEET: seq<Row> := [
    Row(Some(Id(1)), Some("Login"), Some("Open"), Some("")),
    Row(None, None, None, Some("x")),
    Row(None, None, None, Some("nan y")),
    Row(Some(Id(2)), Some("Bill"), Some("Closed"), Some("z"))]

  const FILLED: seq<Row> := [
    Row(Some(Id(1)), Some("Login"), Some("Open"), Some("")),
    Row(Some(Id(1)), Some("Login"), Some("Open"), Some("x")),
    Row(Some(Id(1)), Some("Login"), Some("Open"), Some("nan y")),
    Row(Some(Id(2)), Some("Bill"), Some("Closed"), Some("z"))]

  const CLEANED: seq<Row> := [
    Row(Some(Id(1)), Some("Login"), Some("Open"), Some("")),
    Row(Some(Id(1)), Some("Login"), Some("Open"), Some("x")),
    Row(Some(Id(1)), Some("Login"), Some("Open"), Some(" y")),
    Row(Some(Id(2)), Some("Bill"), Some("Closed"), Some("z"))]

  const FRAGMENTS: seq<Fragment> := [
    Fragment(1, Some("Login"), Some("Open"), ""),
    Fragment(1, Some("Login"), Some("Open"), "x"),
    Fragment(1, Some("Login"), Some("Open"), " y"),
    Fragment(2, Some("Bill"), Some("Closed"), "z")]

  lemma SheetFill()
    ensures FillForwardRows(SHEET) == FILLED
  {
    var raw := SHEET;
    assert CaseNumbers(raw) == [Some(Id(1)), None, None, Some(Id(2))];
    assert Subjects(raw) == [Some("Login"), None, None, Some("Bill")];
    assert Statuses(raw) == [Some("Open"), None, None, Some("Closed")];
    var f := FillForwardRows(raw);
    assert f[0] == FILLED[0];
    assert f[1] == FILLED[1];
    assert f[2] == FILLED[2];
    assert f[3] == FILLED[3];
  }

  lemma SheetClean()
    ensures CleanedRows(SHEET) == CLEANED
  {
    SheetFill();
    KeepNumberedSuffix(FILLED, 0);
    assert FILLED[0..] == FILLED;
    assert RemoveNan("nan y") == " y" by {
      assert IsNanAt("nan y", 0);
      assert "nan y"[3..] == " y";
    }
    var cleaned := CleanRows(FILLED);
    assert cleaned[0] == CLEANED[0];
    assert cleaned[1] == CLEANED[1];
    assert cleaned[2] == CLEANED[2];
    assert cleaned[3] == CLEANED[3];
  }

  lemma SheetCast()
    ensures Cast(CLEANED) == Ok(FRAGMENTS)
  {
    assert FragmentsOf(CLEANED[3..]) == FRAGMENTS[3..];
    assert FragmentsOf(CLEANED[2..]) == FRAGMENTS[2..];
    assert FragmentsOf(CLEANED[1..]) == FRAGMENTS[1..];
    assert FragmentsOf(CLEANED) == FRAGMENTS;
    assert !HasUnparsable(CLEANED);
  }

  /** The pieces of case 1 keep the blank first piece and the space left where
      "nan" was removed, and the join of them is not trimmed. */
  lemma SheetJoin()
    ensures Join(" ", ["", "x", " y"]) == " x  y"
  {
    var xs: seq<string> := ["", "x", " y"];
    assert xs[1..][1..] == [" y"];
    assert Join(" ", xs[1..]) == "x" + " " + " y";
    assert Join(" ", xs) == "" + " " + Join(" ", xs[1..]);
  }

  lemma SheetTexts()
    ensures CaseTexts(FRAGMENTS, 1) == ["", "x", " y"]
    ensures CaseTexts(FRAGMENTS, 2) == ["z"]
  {
    var frags := FRAGMENTS;
    assert CaseTexts(frags[3..], 1) == [];
    assert CaseTexts(frags[2..], 1) == [" y"];
    assert CaseTexts(frags[1..], 1) == ["x", " y"];
    assert CaseTexts(frags[3..], 2) == ["z"];
    assert CaseTexts(frags[2..], 2) == ["z"];
    assert CaseTexts(frags[1..], 2) == ["z"];
  }

  lemma SheetKeys()
    ensures SortedKeys(FRAGMENTS) == [1, 2]
  {
    var frags := FRAGMENTS;
    assert SortedKeys(frags[..1]) == [1];
    assert frags[..2][..1] == frags[..1];
    assert SortedKeys(frags[..2]) == [1];
    assert frags[..3][..2] == frags[..2];
    assert SortedKeys(frags[..3]) == [1];
    assert frags[..3] == frags[..|frags| - 1];
    assert SortedKeys(frags) == InsertKey([1], 2);
    assert InsertKey([1], 2) == [1] + InsertKey([], 2);
  }

  lemma SheetFirst()
    ensures FirstPresent(FRAGMENTS, 1, SubjectField) == Some("Login")
    ensures FirstPresent(FRAGMENTS, 1, StatusField) == Some("Open")
    ensures FirstPresent(FRAGMENTS, 2, SubjectField) == Some("Bill")
    ensures FirstPresent(FRAGMENTS, 2, StatusField) == Some("Closed")
  {
    var frags := FRAGMENTS;
    assert FirstPresent(frags[3..], 2, SubjectField) == Some("Bill");
    assert FirstPresent(frags[3..], 2, StatusField) == Some("Closed");
    assert FirstPresent(frags[2..], 2, SubjectField) == Some("Bill");
    assert FirstPresent(frags[2..], 2, StatusField) == Some("Closed");
    assert FirstPresent(frags[1..], 2, SubjectField) == Some("Bill");
    assert FirstPresent(frags[1..], 2, StatusField) == Some("Closed");
  }

  lemma SheetMerge()
    ensures MergeFragments(FRAGMENTS, " ")
      == [CaseRecord(1, Some("Login"), " x  y", Some("Open")), CaseRecord(2, Some("Bill"), "z", Some("Closed"))]
  {
    SheetTexts();
    SheetKeys();
    SheetJoin();
    SheetFirst();
    var m := MergeFragments(FRAGMENTS, " ");
    assert |m| == 2;
    assert m[0] == RecordFor(FRAGMENTS, 1, " ");
    assert m[1] == RecordFor(FRAGMENTS, 2, " ");
  }

  /** The code neither trims a merged Description nor drops empty pieces:
      the blank first piece and the space left where "nan" was removed both
      stay in the text. */
  lemma SheetScenario()
    ensures Reconstruct(SHEET, CHATBOT_SEPARATOR)
      == Ok([CaseRecord(1, Some("Login"), " x  y", Some("Open")), CaseRecord(2, Some("Bill"), "z", Some("Closed"))])
  {
    SheetClean();
    SheetCast();
    SheetMerge();
  }
}
