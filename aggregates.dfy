/** The SQL aggregates of the product list over one product's variants:
    `SUM`, `MIN` and `MAX` of a column (NULL over no rows). */
module Aggregates {
  import opened Values

  /** `SUM(column)` with `COALESCE(..., 0)`: 0 over no rows. */
  function Sum(xs: seq<int>): (r: int)
    ensures xs == [] ==> r == 0
    ensures |xs| == 1 ==> r == xs[0]
    ensures (forall i :: 0 <= i < |xs| ==> xs[i] >= 0) ==> r >= 0
    ensures (forall i :: 0 <= i < |xs| ==> xs[i] >= 0) ==> forall i :: 0 <= i < |xs| ==> xs[i] <= r
  {
    if xs == [] then 0 else xs[0] + Sum(xs[1..])
  }

  /** The sum of a concatenation is the sum of the parts. */
  lemma {:induction false} SumConcat(a: seq<int>, b: seq<int>)
    ensures Sum(a + b) == Sum(a) + Sum(b)
    decreases |a|
  {
    if a != [] {
      assert (a + b)[1..] == a[1..] + b;
      SumConcat(a[1..], b);
    } else {
      assert a + b == b;
    }
  }

  /** The sum is the element at `j` plus the sum of the others. */
  lemma {:induction false} SumWithout(b: seq<int>, j: int)
    requires 0 <= j < |b|
    ensures Sum(b) == b[j] + Sum(b[..j] + b[j + 1..])
    decreases j
  {
    if j == 0 {
      assert b[..0] + b[1..] == b[1..];
    } else {
      var tail := b[1..];
      SumWithout(tail, j - 1);
      var others := b[..j] + b[j + 1..];
      assert others[1..] == tail[..j - 1] + tail[j..];
    }
  }

  /** Taking out the element at `j` takes one copy of it out of the multiset. */
  lemma RemoveAt<T>(b: seq<T>, j: int)
    requires 0 <= j < |b|
    ensures b == b[..j] + [b[j]] + b[j + 1..]
    ensures multiset(b[..j] + b[j + 1..]) == multiset(b) - multiset{b[j]}
  {
    assert b == b[..j] + [b[j]] + b[j + 1..];
    assert multiset(b) == multiset(b[..j]) + multiset{b[j]} + multiset(b[j + 1..]);
  }

  /** `SUM` does not depend on the order in which the rows come: any
      rearrangement of the values has the same sum. */
  lemma {:induction false} SumPermutation(a: seq<int>, b: seq<int>)
    requires multiset(a) == multiset(b)
    ensures Sum(a) == Sum(b)
    decreases |a|
  {
    if a == [] {
      assert |b| == |multiset(b)| == 0;
    } else {
      var j := MatchHead(a, b);
      SumPermutation(a[1..], b[..j] + b[j + 1..]);
      SumWithout(b, j);
    }
  }

  /** In a rearrangement, the first element sits at some index `j`, and the
      rest of the one is a rearrangement of the other without index `j`. */
  lemma MatchHead<T>(a: seq<T>, b: seq<T>) returns (j: int)
    requires a != [] && multiset(a) == multiset(b)
    ensures 0 <= j < |b| && b[j] == a[0]
    ensures multiset(a[1..]) == multiset(b[..j] + b[j + 1..])
  {
    assert a[0] in multiset(b);
    j :| 0 <= j < |b| && b[j] == a[0];
    RemoveAt(b, j);
    RemoveAt(a, 0);
    assert a[..0] + a[1..] == a[1..];
  }

  /** `MIN(column)`: NULL over no rows, otherwise a value of the column no
      larger than any other. */
  function Min(xs: seq<int>): (r: Option<int>)
    ensures r.None? <==> xs == []
    ensures r.Some? ==> exists i :: 0 <= i < |xs| && xs[i] == r.value
    ensures r.Some? ==> forall i :: 0 <= i < |xs| ==> r.value <= xs[i]
  {
    if xs == [] then None
    else
      match Min(xs[1..])
      case None => Some(xs[0])
      case Some(m) =>
        assert forall i :: 1 <= i < |xs| ==> xs[i] == xs[1..][i - 1];
        Some(if xs[0] <= m then xs[0] else m)
  }

  /** `MAX(column)`: NULL over no rows, otherwise a value of the column no
      smaller than any other. */
  function Max(xs: seq<int>): (r: Option<int>)
    ensures r.None? <==> xs == []
    ensures r.Some? ==> exists i :: 0 <= i < |xs| && xs[i] == r.value
    ensures r.Some? ==> forall i :: 0 <= i < |xs| ==> xs[i] <= r.value
  {
    if xs == [] then None
    else
      match Max(xs[1..])
      case None => Some(xs[0])
      case Some(m) =>
        assert forall i :: 1 <= i < |xs| ==> xs[i] == xs[1..][i - 1];
        Some(if xs[0] >= m then xs[0] else m)
  }
}
