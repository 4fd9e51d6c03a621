/** Cleaning of the Description column: each cell is turned into text (a
    blank cell becomes the text "nan") and every case-insensitive "nan" is
    then removed by one left-to-right, non-overlapping substitution. */
module DescriptionCleaning {
  import opened Cells

  /** The text of a Description cell; a blank cell reads "nan". */
  function Stringify(d: Option<string>): string {
    match d
    case None => "nan"
    case Some(t) => t
  }

  /** `s` has a case-insensitive "nan" starting at index `i`. */
  predicate IsNanAt(s: string, i: int) {
    && 0 <= i && i + 3 <= |s|
    && (s[i] == 'n' || s[i] == 'N')
    && (s[i + 1] == 'a' || s[i + 1] == 'A')
    && (s[i + 2] == 'n' || s[i + 2] == 'N')
  }

  predicate ContainsNan(s: string) {
    exists i | 0 <= i < |s| :: IsNanAt(s, i)
  }

  /** A match in the text after its first character is a match in the text, one place later. */
  lemma IsNanAtTail(s: string, i: int)
    requires |s| > 0 && i >= 0
    ensures IsNanAt(s[1..], i) <==> IsNanAt(s, i + 1)
  {
    if 0 <= i && i + 3 <= |s| - 1 {
      assert s[1..][i] == s[i + 1] && s[1..][i + 1] == s[i + 2] && s[1..][i + 2] == s[i + 3];
    }
  }

  /** The substitution of "" for every case-insensitive "nan", scanning from
      the left: a match is removed and scanning resumes after it. */
  function RemoveNan(s: string): string
    decreases |s|
  {
    if |s| < 3 then s
    else if IsNanAt(s, 0) then RemoveNan(s[3..])
    else [s[0]] + RemoveNan(s[1..])
  }

  /** The number of matches that scan finds. */
  function NanMatches(s: string): nat
    decreases |s|
  {
    if |s| < 3 then 0
    else if IsNanAt(s, 0) then 1 + NanMatches(s[3..])
    else NanMatches(s[1..])
  }

  /** The cleaned text of a Description cell. */
  function CleanDescription(d: Option<string>): string {
    RemoveNan(Stringify(d))
  }

  /** Each match removes exactly three characters and nothing else is removed. */
  lemma {:induction false} RemoveNanLength(s: string)
    ensures |RemoveNan(s)| == |s| - 3 * NanMatches(s)
    decreases |s|
  {
    if |s| >= 3 {
      if IsNanAt(s, 0) {
        RemoveNanLength(s[3..]);
      } else {
        RemoveNanLength(s[1..]);
      }
    }
  }

  /** The scan finds a match exactly when the text contains "nan" in any case. */
  lemma {:induction false} NanMatchesIff(s: string)
    ensures NanMatches(s) > 0 <==> ContainsNan(s)
    decreases |s|
  {
    if |s| < 3 {
      assert !ContainsNan(s);
    } else if IsNanAt(s, 0) {
    } else {
      NanMatchesIff(s[1..]);
      if ContainsNan(s) {
        var i :| 0 <= i < |s| && IsNanAt(s, i);
        assert i > 0;
        IsNanAtTail(s, i - 1);
      }
      if ContainsNan(s[1..]) {
        var i :| 0 <= i < |s| - 1 && IsNanAt(s[1..], i);
        IsNanAtTail(s, i);
      }
    }
  }

  /** A text is left unchanged exactly when it contains no "nan" in any case. */
  lemma RemoveNanUnchangedIff(s: string)
    ensures RemoveNan(s) == s <==> !ContainsNan(s)
  {
    RemoveNanLength(s);
    NanMatchesIff(s);
    if !ContainsNan(s) {
      NoNanUnchanged(s);
    }
  }

  lemma {:induction false} NoNanUnchanged(s: string)
    requires !ContainsNan(s)
    ensures RemoveNan(s) == s
    decreases |s|
  {
    if |s| >= 3 {
      assert !IsNanAt(s, 0);
      if ContainsNan(s[1..]) {
        var i :| 0 <= i < |s| - 1 && IsNanAt(s[1..], i);
        IsNanAtTail(s, i);
      }
      NoNanUnchanged(s[1..]);
      assert s == [s[0]] + s[1..];
    }
  }

  /** A blank Description cell cleans to the empty text. */
  lemma BlankDescriptionIsEmpty()
    ensures CleanDescription(None) == ""
  {
    assert IsNanAt("nan", 0);
    assert "nan"[3..] == "";
  }

  /** "nan" is removed inside words too, whatever its case. */
  lemma NanInsideWords()
    ensures RemoveNan("financial") == "ficial"
    ensures RemoveNan("NaNcy") == "cy"
  {
    assert RemoveNan("ial") == "ial";
    assert RemoveNan("cial") == "c" + RemoveNan("ial") by {
      assert !IsNanAt("cial", 0) && "cial"[1..] == "ial";
    }
    assert RemoveNan("nancial") == RemoveNan("cial") by {
      assert IsNanAt("nancial", 0) && "nancial"[3..] == "cial";
    }
    assert RemoveNan("inancial") == "i" + RemoveNan("nancial") by {
      assert !IsNanAt("inancial", 0) && "inancial"[1..] == "nancial";
    }
    assert RemoveNan("financial") == "f" + RemoveNan("inancial") by {
      assert !IsNanAt("financial", 0) && "financial"[1..] == "inancial";
    }
    assert RemoveNan("NaNcy") == RemoveNan("cy") by {
      assert IsNanAt("NaNcy", 0) && "NaNcy"[3..] == "cy";
    }
  }

  /** Cleaning is not idempotent: removing one "nan" can bring two pieces of
      another together, so cleaning an already cleaned text can change it. */
  lemma CleaningNotIdempotent()
    ensures RemoveNan("nnanan") == "nan"
    ensures RemoveNan(RemoveNan("nnanan")) == ""
  {
    assert RemoveNan("nanan") == RemoveNan("an") by {
      assert IsNanAt("nanan", 0) && "nanan"[3..] == "an";
    }
    assert RemoveNan("nnanan") == "n" + RemoveNan("nanan") by {
      assert !IsNanAt("nnanan", 0) && "nnanan"[1..] == "nanan";
    }
    assert RemoveNan("nan") == RemoveNan("") by {
      assert IsNanAt("nan", 0) && "nan"[3..] == "";
    }
  }
}
