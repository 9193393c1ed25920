/** The sort key of `ORDER BY lower(title)`: titles compared after case
    folding.  Case folding is ASCII only and the comparison is by character
    code; the store's collation is not modelled. */
module Titles {

  function LowerChar(c: char): char
  {
    if 'A' <= c <= 'Z' then (c as int + ('a' as int - 'A' as int)) as char else c
  }

  /** `lower(s)`. */
  function Lower(s: string): (r: string)
    ensures |r| == |s|
    ensures forall i :: 0 <= i < |s| ==> 'A' <= s[i] <= 'Z' ==> 'a' <= r[i] <= 'z'
    ensures forall i :: 0 <= i < |s| ==> !('A' <= r[i] <= 'Z')
  {
    seq(|s|, i requires 0 <= i < |s| => LowerChar(s[i]))
  }

  /** Lexicographic order on character codes; a prefix comes first. */
  predicate KeyLe(a: string, b: string)
  {
    if a == [] then true
    else if b == [] then false
    else if a[0] != b[0] then a[0] < b[0]
    else KeyLe(a[1..], b[1..])
  }

  /** `lower(a) <= lower(b)`. */
  predicate TitleLe(a: string, b: string)
  {
    KeyLe(Lower(a), Lower(b))
  }

  /** The key is total: any two titles are comparable. */
  lemma {:induction false} KeyLeTotal(a: string, b: string)
    ensures KeyLe(a, b) || KeyLe(b, a)
    decreases |a|
  {
    if a != [] && b != [] && a[0] == b[0] {
      KeyLeTotal(a[1..], b[1..]);
    }
  }

  /** The key is transitive, so with totality it is a total preorder. */
  lemma {:induction false} KeyLeTransitive(a: string, b: string, c: string)
    requires KeyLe(a, b) && KeyLe(b, c)
    ensures KeyLe(a, c)
    decreases |a|
  {
    if a != [] && b != [] && c != [] && a[0] == b[0] && b[0] == c[0] {
      KeyLeTransitive(a[1..], b[1..], c[1..]);
    }
  }
}
