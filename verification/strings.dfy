/** The slice of Go's `strings` package the signer relies on.

    Go strings are byte sequences; here they are sequences of characters. The
    only needle the signer searches for is the ASCII `?`, whose UTF-8 byte never
    occurs inside a multi-byte character, so both views agree on it.
 */
module Strings {

  /** `sub` occurs in `s` starting at index `i`. */
  ghost predicate OccursAt(s: string, sub: string, i: int) {
    0 <= i && i + |sub| <= |s| && s[i..i + |sub|] == sub
  }

  /** `strings.Contains(s, substr)`: does `substr` occur anywhere in `s`?
      The empty needle occurs in every string. */
  function Contains(s: string, substr: string): (found: bool)
    ensures found <==> exists i :: OccursAt(s, substr, i)
    decreases |s|
  {
    if |substr| > |s| then
      false
    else if s[..|substr|] == substr then
      assert OccursAt(s, substr, 0);
      true
    else
      assert |s| > 0;
      var rest := Contains(s[1..], substr);
      assert forall i :: OccursAt(s[1..], substr, i) ==> OccursAt(s, substr, i + 1) by {
        forall i | OccursAt(s[1..], substr, i)
          ensures OccursAt(s, substr, i + 1)
        {
          assert s[1..][i..i + |substr|] == s[i + 1..i + 1 + |substr|];
        }
      }
      assert forall i :: OccursAt(s, substr, i) ==> i >= 1 && OccursAt(s[1..], substr, i - 1) by {
        forall i | OccursAt(s, substr, i)
          ensures i >= 1 && OccursAt(s[1..], substr, i - 1)
        {
          if i == 0 {
            assert false;
          }
          assert s[1..][i - 1..i - 1 + |substr|] == s[i..i + |substr|];
        }
      }
      rest
  }

  /** For a one-character needle, `Contains` is plain membership. */
  lemma {:induction false} ContainsChar(s: string, c: char)
    ensures Contains(s, [c]) <==> c in s
  {
    if Contains(s, [c]) {
      var i :| OccursAt(s, [c], i);
      assert s[i] == s[i..i + 1][0];
    }
    if c in s {
      var i :| 0 <= i < |s| && s[i] == c;
      assert s[i..i + 1] == [c];
      assert OccursAt(s, [c], i);
    }
  }
}
