/** Recognising the store's unique-constraint failure by the text of the
    error, as the service does before deciding to swallow it. */
module StoreErrors {
  import opened Rows

  /** The phrase the store puts in every unique-constraint failure. */
  const DuplicateKeyText: string := "duplicate key value violates unique constraint"

  /** `pat` occurs in `s` starting at position `i`. */
  predicate OccursAt(s: string, pat: string, i: int)
  {
    0 <= i && i + |pat| <= |s| && s[i..i + |pat|] == pat
  }

  /** Substring search, standing in for a regular expression made only of
      literal characters. */
  function Contains(s: string, pat: string): (r: bool)
    ensures r <==> exists i :: OccursAt(s, pat, i)
    decreases |s|
  {
    if |s| < |pat| then false
    else if s[..|pat|] == pat then (assert OccursAt(s, pat, 0); true)
    else (
      var r := Contains(s[1..], pat);
      assert forall i :: OccursAt(s[1..], pat, i) ==> OccursAt(s, pat, i + 1) by {
        forall i | OccursAt(s[1..], pat, i) ensures OccursAt(s, pat, i + 1) {
          assert s[1..][i..i + |pat|] == s[i + 1..i + 1 + |pat|];
        }
      }
      assert forall i :: OccursAt(s, pat, i) ==> i == 0 || OccursAt(s[1..], pat, i - 1) by {
        forall i | OccursAt(s, pat, i) && i != 0 ensures OccursAt(s[1..], pat, i - 1) {
          assert s[1..][i - 1..i - 1 + |pat|] == s[i..i + |pat|];
        }
      }
      r)
  }

  /** The error a store raises when an insert or update would give two
      todo lists of one user the same title. */
  function UniqueViolation(): StoreError
  {
    StoreError(DuplicateKeyText + " \"todolists_title_username_key\"")
  }

  /** `isUniqueConstraintViolation`: the error's text contains the
      duplicate-key phrase anywhere. */
  function IsUniqueConstraintViolation(error: StoreError): (r: bool)
    ensures r <==> exists i :: OccursAt(error.message, DuplicateKeyText, i)
  {
    Contains(error.message, DuplicateKeyText)
  }

  /** The store's own duplicate-title failure is recognised as one. */
  lemma UniqueViolationRecognised()
    ensures IsUniqueConstraintViolation(UniqueViolation())
  {
    assert OccursAt(UniqueViolation().message, DuplicateKeyText, 0);
  }

  /** Text around the phrase does not hide it. */
  lemma RecognisedInContext(prefix: string, suffix: string)
    ensures IsUniqueConstraintViolation(StoreError(prefix + DuplicateKeyText + suffix))
  {
    var m := prefix + DuplicateKeyText + suffix;
    assert m[|prefix|..|prefix| + |DuplicateKeyText|] == DuplicateKeyText;
    assert OccursAt(m, DuplicateKeyText, |prefix|);
  }
}
