/** Ordering row ids by (creation stamp, id): the `ORDER BY created_at` of the
    read queries, with insertion order breaking ties between rows stamped at
    the same instant. */
module Ordering {

  /** The creation stamp of `id`, 0 for an id the stamp table lacks. */
  function StampOf(stamp: map<int, nat>, id: int): nat
  {
    if id in stamp then stamp[id] else 0
  }

  /** `a` sorts strictly before `b`. */
  predicate Precedes(stamp: map<int, nat>, a: int, b: int)
  {
    StampOf(stamp, a) < StampOf(stamp, b) || (StampOf(stamp, a) == StampOf(stamp, b) && a < b)
  }

  predicate Ascends(stamp: map<int, nat>, s: seq<int>)
  {
    forall i, j :: 0 <= i < j < |s| ==> Precedes(stamp, s[i], s[j])
  }

  predicate IsEarliest(stamp: map<int, nat>, ids: set<int>, m: int)
  {
    m in ids && forall x :: x in ids && x != m ==> Precedes(stamp, m, x)
  }

  /** A non-empty set has a member to pick. */
  lemma HasMember(ids: set<int>)
    requires ids != {}
    ensures exists m :: m in ids
  {
    if forall m :: m !in ids {
      assert false;
    }
  }

  /** Every non-empty finite set of ids has an earliest member. */
  lemma {:induction false} EarliestExists(stamp: map<int, nat>, ids: set<int>)
    requires ids != {}
    ensures exists m :: IsEarliest(stamp, ids, m)
    decreases |ids|
  {
    HasMember(ids);
    var y :| y in ids;
    var rest := ids - {y};
    if rest == {} {
      assert ids == {y};
      assert IsEarliest(stamp, ids, y);
    } else {
      EarliestExists(stamp, rest);
      var m :| IsEarliest(stamp, rest, m);
      if Precedes(stamp, y, m) {
        forall x | x in ids && x != y
          ensures Precedes(stamp, y, x)
        {
          assert x in rest;
        }
        assert IsEarliest(stamp, ids, y);
      } else {
        assert IsEarliest(stamp, ids, m);
      }
    }
  }

  /** Putting an id before everything it precedes keeps a sequence ascending. */
  lemma ConsAscends(stamp: map<int, nat>, m: int, rest: seq<int>)
    requires Ascends(stamp, rest)
    requires forall k :: 0 <= k < |rest| ==> Precedes(stamp, m, rest[k])
    ensures Ascends(stamp, [m] + rest)
  {
    var s := [m] + rest;
    forall i, j | 0 <= i < j < |s|
      ensures Precedes(stamp, s[i], s[j])
    {
      if i == 0 {
        assert s[j] == rest[j - 1];
      } else {
        assert s[i] == rest[i - 1] && s[j] == rest[j - 1];
      }
    }
  }

  /** The ids of `ids` in ascending (stamp, id) order. */
  function Ascending(stamp: map<int, nat>, ids: set<int>): (r: seq<int>)
    ensures |r| == |ids|
    ensures forall x :: x in r <==> x in ids
    ensures Ascends(stamp, r)
    decreases |ids|
  {
    if ids == {} then []
    else
      EarliestExists(stamp, ids);
      var m :| IsEarliest(stamp, ids, m);
      var rest := Ascending(stamp, ids - {m});
      assert forall k :: 0 <= k < |rest| ==> Precedes(stamp, m, rest[k]) by {
        forall k | 0 <= k < |rest| ensures Precedes(stamp, m, rest[k]) {
          Member(rest, k);
        }
      }
      ConsAscends(stamp, m, rest);
      [m] + rest
  }

  /** Each position of the ascending sequence holds a member of the set. */
  lemma AscendingMembers(stamp: map<int, nat>, ids: set<int>)
    ensures forall i :: 0 <= i < |Ascending(stamp, ids)| ==> Ascending(stamp, ids)[i] in ids
  {
    var r := Ascending(stamp, ids);
    forall i | 0 <= i < |r|
      ensures r[i] in ids
    {
      var x := r[i];
      assert x in r;
    }
  }

  /** The ids of `ids` newest first: descending (stamp, id) order. */
  function Descending(stamp: map<int, nat>, ids: set<int>): (r: seq<int>)
    ensures |r| == |ids|
    ensures forall x :: x in r <==> x in ids
    ensures forall i, j :: 0 <= i < j < |r| ==> Precedes(stamp, r[j], r[i])
  {
    var up := Ascending(stamp, ids);
    var r := seq(|up|, i requires 0 <= i < |up| => up[|up| - 1 - i]);
    assert forall x :: x in up ==> x in r by {
      forall x | x in up ensures x in r {
        var k :| 0 <= k < |up| && up[k] == x;
        assert r[|up| - 1 - k] == x;
      }
    }
    r
  }

  lemma Member(s: seq<int>, k: int)
    requires 0 <= k < |s|
    ensures s[k] in s
  {
  }

  /** An element of `a` is an element of any `b` holding the same ids. */
  lemma Transfer(a: seq<int>, b: seq<int>, k: int)
    requires forall x :: x in a <==> x in b
    requires 0 <= k < |a|
    ensures a[k] in b
  {
    var x := a[k];
    assert x in a;
  }

  /** The head of an ascending sequence precedes every other element. */
  lemma HeadPrecedes(stamp: map<int, nat>, a: seq<int>)
    requires Ascends(stamp, a) && a != []
    ensures forall x :: x in a && x != a[0] ==> Precedes(stamp, a[0], x)
  {
    forall x | x in a && x != a[0]
      ensures Precedes(stamp, a[0], x)
    {
      var k :| 0 <= k < |a| && a[k] == x;
      assert k != 0;
    }
  }

  /** Two ascending sequences over the same ids are the same sequence: the
      order is total, so a query's result order is fully determined. */
  lemma {:induction false} AscendsUnique(stamp: map<int, nat>, a: seq<int>, b: seq<int>)
    requires Ascends(stamp, a) && Ascends(stamp, b)
    requires forall x :: x in a <==> x in b
    ensures a == b
    decreases |a|
  {
    if a == [] {
      if b != [] {
        Transfer(b, a, 0);
        assert false;
      }
    } else {
      Transfer(a, b, 0);
      Transfer(b, a, 0);
      HeadPrecedes(stamp, a);
      HeadPrecedes(stamp, b);
      assert a[0] == b[0];
      forall x
        ensures x in a[1..] <==> x in b[1..]
      {
        if x in a[1..] {
          var i :| 1 <= i < |a| && a[i] == x;
          assert Precedes(stamp, a[0], a[i]);
          Transfer(a, b, i);
          var j :| 0 <= j < |b| && b[j] == x;
          assert x == b[1..][j - 1];
        }
        if x in b[1..] {
          var j :| 1 <= j < |b| && b[j] == x;
          assert Precedes(stamp, b[0], b[j]);
          Transfer(b, a, j);
          var i :| 0 <= i < |a| && a[i] == x;
          assert x == a[1..][i - 1];
        }
      }
      AscendsUnique(stamp, a[1..], b[1..]);
      assert a == [a[0]] + a[1..];
      assert b == [b[0]] + b[1..];
    }
  }

  /** The ids base, base+1, ..., base+n-1. */
  function Range(base: int, n: nat): (r: seq<int>)
    ensures |r| == n
    ensures forall i :: 0 <= i < n ==> r[i] == base + i
  {
    seq(n, i requires 0 <= i < n => base + i)
  }

  /** Ids stamped at the same instant come back in id order. */
  lemma SameStampAscending(stamp: map<int, nat>, base: int, n: nat, t: nat)
    requires forall k :: base <= k < base + n ==> k in stamp && stamp[k] == t
    ensures Ascending(stamp, set k | k in Range(base, n)) == Range(base, n)
  {
    var r := Range(base, n);
    var ids := set k | k in r;
    assert Ascends(stamp, r) by {
      forall i, j | 0 <= i < j < |r| ensures Precedes(stamp, r[i], r[j]) {
        assert StampOf(stamp, r[i]) == t == StampOf(stamp, r[j]);
      }
    }
    AscendsUnique(stamp, Ascending(stamp, ids), r);
  }
}
