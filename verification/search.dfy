/** The search text of the blog, as the search handler stores it: the input
    value trimmed, then lower-cased. */
module Search {
  import opened Text

  /** The search text as it is stored: trimmed, then lower-cased. */
  function Normalize(input: string): string {
    ToLower(Trim(input))
  }

  /** A stored search text has no upper-case letter and no whitespace at
      either end, and it is empty exactly when the input was blank. */
  lemma NormalizeShape(input: string)
    ensures |Normalize(input)| <= |input|
    ensures forall k | 0 <= k < |Normalize(input)| :: !IsUpper(Normalize(input)[k])
    ensures |Normalize(input)| > 0 ==>
      !IsSpace(Normalize(input)[0]) && !IsSpace(Normalize(input)[|Normalize(input)| - 1])
    ensures Normalize(input) == "" <==> AllSpace(input)
  {
  }

  /** Normalising is idempotent: submitting an already stored search text
      again leaves it unchanged. */
  lemma NormalizeIdempotent(input: string)
    ensures Normalize(Normalize(input)) == Normalize(input)
  {
    var t := Trim(input);
    var r := ToLower(t);
    assert Trim(r) == r by {
      TrimNoop(r);
    }
    ToLowerIdempotent(t);
  }

  /** Trimming removes the padding of " AI ". */
  lemma TrimPadded()
    ensures Trim(" AI ") == "AI"
  {
    assert IsSpace(' ') && !IsSpace('A') && !IsSpace('I');
    assert " AI "[1..] == "AI ";
    assert TrimStart(" AI ") == TrimStart("AI ");
    assert TrimStart("AI ") == "AI ";
    assert "AI "[..2] == "AI";
    assert TrimEnd("AI ") == TrimEnd("AI");
    assert TrimEnd("AI") == "AI";
  }

  /** Lower-casing "AI" gives "ai". */
  lemma LowerAI()
    ensures ToLower("AI") == "ai"
  {
    assert LowerChar('A') == 'a' && LowerChar('I') == 'i';
  }

  /** " AI " is stored as "ai". */
  lemma NormalizePaddedUpper()
    ensures Normalize(" AI ") == "ai"
  {
    LowerAI();
    TrimPadded();
  }

  /** "ai" is stored as it is. */
  lemma NormalizeLower()
    ensures Normalize("ai") == "ai"
  {
    assert !IsSpace('a') && !IsSpace('i');
    TrimNoop("ai");
  }
}
