/** Small shared building blocks: an Option type and the index filter that
    stands in for a relational `filter(...)` over a table whose primary keys
    are the positions of its rows. */
module Prelude {

  datatype Option<+T> = None | Some(value: T)

  /** The primary keys below `n` whose row satisfies `p`, in increasing
      order: what a `filter(...)` query over the first `n` rows returns. */
  function FilterIndices(n: nat, p: nat -> bool): (r: seq<nat>)
    ensures forall i: nat :: i in r <==> i < n && p(i)
    ensures forall j :: 0 <= j < |r| ==> r[j] < n
    ensures forall j, k :: 0 <= j < k < |r| ==> r[j] < r[k]
    ensures |r| <= n
  {
    if n == 0 then []
    else FilterIndices(n - 1, p) + (if p(n - 1) then [n - 1] else [])
  }

  /** A filter with a weaker condition never selects fewer rows. */
  lemma {:induction false} FilterWeaker(n: nat, p: nat -> bool, q: nat -> bool)
    requires forall i: nat :: i < n && p(i) ==> q(i)
    ensures |FilterIndices(n, p)| <= |FilterIndices(n, q)|
  {
    if n > 0 {
      FilterWeaker(n - 1, p, q);
    }
  }

  /** Two conditions that agree on the first `n` rows select the same rows. */
  lemma {:induction false} FilterSame(n: nat, p: nat -> bool, q: nat -> bool)
    requires forall i: nat :: i < n ==> p(i) == q(i)
    ensures FilterIndices(n, p) == FilterIndices(n, q)
  {
    if n > 0 {
      FilterSame(n - 1, p, q);
    }
  }

  /** The keys below `n` whose row satisfies `p`, as a set. */
  function Selected(n: nat, p: nat -> bool): set<nat> {
    set i: nat | i < n && p(i)
  }

  /** One more row adds one key exactly when it satisfies the condition. */
  lemma SelectedStep(n: nat, p: nat -> bool)
    requires n > 0
    ensures |Selected(n, p)| == |Selected(n - 1, p)| + (if p(n - 1) then 1 else 0)
  {
    if p(n - 1) {
      assert Selected(n, p) == Selected(n - 1, p) + {n - 1};
    } else {
      assert Selected(n, p) == Selected(n - 1, p);
    }
  }

  /** The length of a filter's result is the number of keys below `n` that
      satisfy its condition: what `count()` returns for the same query. */
  lemma {:induction false} FilterCount(n: nat, p: nat -> bool)
    ensures |FilterIndices(n, p)| == |Selected(n, p)|
  {
    if n == 0 {
      assert Selected(n, p) == {};
    } else {
      FilterCount(n - 1, p);
      SelectedStep(n, p);
    }
  }

  /** A filter that selects nothing returns the empty list. */
  lemma FilterNone(n: nat, p: nat -> bool)
    requires forall i: nat :: i < n ==> !p(i)
    ensures FilterIndices(n, p) == []
  {
  }
}
