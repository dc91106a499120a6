/** Key reconciliation: the sorted key listing of a log file and the
    nearest-key choice that aligns time-indexed logs. */
module Keys {

  predicate StrictlyIncreasing(s: seq<int>)
  {
    forall i, j :: 0 <= i < j < |s| ==> s[i] < s[j]
  }

  /** Some element of a non-empty set. */
  lemma Pick(s: set<int>) returns (x: int)
    requires s != {}
    ensures x in s
  {
    if forall y: int :: y !in s {
      assert false;
    }
    x :| x in s;
  }

  /** `least` bounds `s` from below when it bounds `x` and the rest of `s`. */
  lemma LowerBound(s: set<int>, x: int, least: int)
    requires x in s && least <= x
    requires forall y :: y in s - {x} ==> least <= y
    ensures forall y :: y in s ==> least <= y
  {
    forall y | y in s
      ensures least <= y
    {
      if y != x {
        assert y in s - {x};
      }
    }
  }

  lemma {:induction false} LeastElement(s: set<int>) returns (m: int)
    requires s != {}
    ensures m in s && forall y :: y in s ==> m <= y
    decreases |s|
  {
    var x := Pick(s);
    var rest := s - {x};
    if rest == {} {
      m := x;
    } else {
      var r := LeastElement(rest);
      m := if x < r then x else r;
    }
    LowerBound(s, x, m);
  }

  lemma HasMinimum(s: set<int>)
    requires s != {}
    ensures exists m :: m in s && forall y :: y in s ==> m <= y
  {
    var m := LeastElement(s);
  }

  /** The least element of a non-empty set of keys. */
  function SetMin(s: set<int>): (m: int)
    requires s != {}
    ensures m in s
    ensures forall y :: y in s ==> m <= y
  {
    HasMinimum(s);
    var m :| m in s && forall y :: y in s ==> m <= y;
    m
  }

  /** Python's `sorted(d.keys())`: the keys in ascending order, each once. */
  function SortedKeys(s: set<int>): (r: seq<int>)
    ensures forall x :: x in r <==> x in s
    ensures |r| == |s|
    decreases |s|
  {
    if s == {} then []
    else
      var m := SetMin(s);
      [m] + SortedKeys(s - {m})
  }

  /** The listing is ascending: each step takes the least remaining key. */
  lemma {:induction false} SortedKeysAscending(s: set<int>)
    ensures StrictlyIncreasing(SortedKeys(s))
    decreases |s|
  {
    if s != {} {
      var m := SetMin(s);
      var rest := SortedKeys(s - {m});
      SortedKeysAscending(s - {m});
      forall j | 0 <= j < |rest|
        ensures m < rest[j]
      {
        assert rest[j] in s - {m};
      }
      ConsAscending(m, rest);
    }
  }

  lemma ConsAscending(m: int, rest: seq<int>)
    requires StrictlyIncreasing(rest)
    requires forall j :: 0 <= j < |rest| ==> m < rest[j]
    ensures StrictlyIncreasing([m] + rest)
  {
  }

  /** A strictly increasing listing of a set is unique, so `SortedKeys` is the
      only ascending listing of its keys. */
  lemma {:induction false} AscendingListingUnique(a: seq<int>, b: seq<int>)
    requires StrictlyIncreasing(a) && StrictlyIncreasing(b)
    requires forall x :: x in a <==> x in b
    ensures a == b
    decreases |a|
  {
    if |a| > 0 {
      assert a[0] in a;
      assert |b| > 0;
    }
    if |b| > 0 {
      assert b[0] in b;
      assert |a| > 0;
    }
    if |a| > 0 {
      assert a[0] == b[0] by {
        assert a[0] in a && b[0] in b;
        assert b[0] in a;
        assert a[0] in b;
        assert forall i :: 0 < i < |a| ==> a[0] < a[i];
        assert forall i :: 0 < i < |b| ==> b[0] < b[i];
      }
      assert forall x :: x in a[1..] <==> x in b[1..] by {
        forall x
          ensures x in a[1..] <==> x in b[1..]
        {
          if x in a[1..] {
            TailMember(a, b, x);
          }
          if x in b[1..] {
            TailMember(b, a, x);
          }
        }
      }
      AscendingListingUnique(a[1..], b[1..]);
      assert a == [a[0]] + a[1..];
      assert b == [b[0]] + b[1..];
    }
  }

  lemma TailMember(a: seq<int>, b: seq<int>, x: int)
    requires StrictlyIncreasing(a) && StrictlyIncreasing(b)
    requires forall y :: y in a <==> y in b
    requires |a| > 0 && |b| > 0 && a[0] == b[0]
    requires x in a[1..]
    ensures x in b[1..]
  {
    var i :| 1 <= i < |a| && a[i] == x;
    assert x in a;
    assert x in b;
    var j :| 0 <= j < |b| && b[j] == x;
    assert a[0] < a[i];
    assert j != 0;
    assert b[1..][j - 1] == x;
  }

  /** `|a - b|`. */
  function Dist(a: int, b: int): nat
  {
    if a >= b then a - b else b - a
  }

  /** The position Python's `min(keys, key=lambda x: abs(k - x))` selects: a
      left-to-right scan that replaces its candidate only on a strictly
      smaller distance, so the first of several equally near keys wins. */
  function ArgMinIndex(k: int, keys: seq<int>): (i: nat)
    requires |keys| > 0
    ensures i < |keys|
    ensures forall j :: 0 <= j < |keys| ==> Dist(k, keys[i]) <= Dist(k, keys[j])
    ensures forall j :: 0 <= j < i ==> Dist(k, keys[j]) > Dist(k, keys[i])
  {
    if |keys| == 1 then 0
    else
      var i := ArgMinIndex(k, keys[..|keys| - 1]);
      if Dist(k, keys[|keys| - 1]) < Dist(k, keys[i]) then |keys| - 1 else i
  }

  /** The key of `keys` nearest to `k`: a key at the least distance, which is
      `k` itself whenever `k` is one of the keys. */
  function Nearest(k: int, keys: seq<int>): (n: int)
    requires |keys| > 0
    ensures n in keys
    ensures forall x :: x in keys ==> Dist(k, n) <= Dist(k, x)
    ensures k in keys ==> n == k
  {
    var i := ArgMinIndex(k, keys);
    assert k in keys ==> Dist(k, keys[i]) == 0;
    keys[i]
  }

  /** On an ascending key list a tie goes to the smaller key: every key as
      near to `k` as the chosen one is at least as large. */
  lemma NearestTieGoesToSmaller(k: int, keys: seq<int>, x: int)
    requires |keys| > 0 && StrictlyIncreasing(keys)
    requires x in keys && Dist(k, x) == Dist(k, Nearest(k, keys))
    ensures Nearest(k, keys) <= x
  {
    var i := ArgMinIndex(k, keys);
    var j :| 0 <= j < |keys| && keys[j] == x;
    assert i <= j;
  }

  /** The first-minimum rule pins the choice down: no other position of the
      list is both nearest and not preceded by an equally near key. */
  lemma ArgMinIndexUnique(k: int, keys: seq<int>, i: nat)
    requires i < |keys|
    requires forall j :: 0 <= j < |keys| ==> Dist(k, keys[i]) <= Dist(k, keys[j])
    requires forall j :: 0 <= j < i ==> Dist(k, keys[j]) > Dist(k, keys[i])
    ensures i == ArgMinIndex(k, keys)
  {
    var a := ArgMinIndex(k, keys);
    assert Dist(k, keys[a]) == Dist(k, keys[i]);
  }
}
