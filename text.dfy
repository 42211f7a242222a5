/** Case mapping and substring search, as the role checks, the book search
    and the e-mail greeting use them. Only the ASCII letters change case. */
module Text {

  function LowerChar(c: char): char {
    if 'A' <= c <= 'Z' then c - 'A' + 'a' else c
  }

  function UpperChar(c: char): char {
    if 'a' <= c <= 'z' then c - 'a' + 'A' else c
  }

  /** `str.lower()` over ASCII letters. */
  function Lower(s: string): (r: string)
    ensures |r| == |s|
    ensures forall i :: 0 <= i < |s| ==> r[i] == LowerChar(s[i])
  {
    seq(|s|, i requires 0 <= i < |s| => LowerChar(s[i]))
  }

  /** Lower-casing twice is lower-casing once. */
  lemma LowerIdempotent(s: string)
    ensures Lower(Lower(s)) == Lower(s)
  {
    assert forall i :: 0 <= i < |s| ==> Lower(Lower(s))[i] == Lower(s)[i];
  }

  /** `q` occurs in `s` as a contiguous run (Python's `q in s`). */
  predicate Contains(s: string, q: string)
    decreases |s|
  {
    q <= s || (s != [] && Contains(s[1..], q))
  }

  /** `q` occurs in `s` starting at position `k`. */
  predicate OccursAt(s: string, q: string, k: int) {
    0 <= k && k + |q| <= |s| && s[k..k + |q|] == q
  }

  /** `Contains` agrees with the position-based definition of a substring. */
  lemma {:induction false} ContainsAt(s: string, q: string)
    ensures Contains(s, q) <==> exists k :: OccursAt(s, q, k)
    decreases |s|
  {
    if q <= s {
      assert OccursAt(s, q, 0);
    } else if s == [] {
      assert !Contains(s, q);
    } else {
      ContainsAt(s[1..], q);
      if Contains(s[1..], q) {
        var k :| OccursAt(s[1..], q, k);
        assert s[k + 1..k + 1 + |q|] == q;
        assert OccursAt(s, q, k + 1);
      }
      if exists k :: OccursAt(s, q, k) {
        var k :| OccursAt(s, q, k);
        if k > 0 {
          assert s[1..][k - 1..k - 1 + |q|] == q;
          assert OccursAt(s[1..], q, k - 1);
        }
      }
    }
  }

  /** Case-insensitive containment: the `__icontains` lookup. */
  predicate ContainsIgnoreCase(s: string, q: string)
    ensures ContainsIgnoreCase(s, q) <==> exists k :: OccursAt(Lower(s), Lower(q), k)
  {
    ContainsAt(Lower(s), Lower(q));
    Contains(Lower(s), Lower(q))
  }

  /** The empty query is contained in every text. */
  lemma EmptyQueryMatches(s: string)
    ensures ContainsIgnoreCase(s, "")
  {
    assert Lower("") == [];
  }
}
