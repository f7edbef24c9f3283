/**
 Ordering helpers shared by both storage back ends: a descending insertion
 sort that both the sorted-set range query and ORDER BY ... DESC are built
 on, and the fact that a strictly descending listing of a collection is
 unique.
 */
module Ranking {

  /** `s` lists its elements from the highest key to the lowest. */
  ghost predicate SortedDesc<T>(s: seq<T>, key: T -> int)
  {
    forall i, j :: 0 <= i < j < |s| ==> key(s[i]) >= key(s[j])
  }

  /** `s` lists its elements from the highest key to the lowest, with no two keys equal. */
  ghost predicate StrictlyDesc<T>(s: seq<T>, key: T -> int)
  {
    forall i, j :: 0 <= i < j < |s| ==> key(s[i]) > key(s[j])
  }

  /** Whether `x` goes ahead of `y` in a listing by descending key, `ahead` breaking ties. */
  predicate Precedes<T>(x: T, y: T, key: T -> int, ahead: (T, T) -> bool)
  {
    key(x) > key(y) || (key(x) == key(y) && ahead(x, y))
  }

  /**
   Puts `x` into the descending sequence `s` ahead of the first element it
   precedes.
   */
  function Insert<T(==)>(x: T, s: seq<T>, key: T -> int, ahead: (T, T) -> bool): (r: seq<T>)
    ensures multiset(r) == multiset(s) + multiset{x}
    ensures |r| == |s| + 1
  {
    if s == [] then [x]
    else if Precedes(x, s[0], key, ahead) then [x] + s
    else
      assert s == [s[0]] + s[1..];
      [s[0]] + Insert(x, s[1..], key, ahead)
  }

  /** Inserting into a descending sequence keeps it descending. */
  lemma {:induction false} InsertSorted<T>(x: T, s: seq<T>, key: T -> int, ahead: (T, T) -> bool)
    requires SortedDesc(s, key)
    ensures SortedDesc(Insert(x, s, key, ahead), key)
  {
    if s != [] && !Precedes(x, s[0], key, ahead) {
      var rest := Insert(x, s[1..], key, ahead);
      InsertSorted(x, s[1..], key, ahead);
      InsertBelow(x, s[1..], key, ahead, key(s[0]));
      var r := [s[0]] + rest;
      forall i, j | 0 <= i < j < |r| ensures key(r[i]) >= key(r[j]) {
        if i > 0 {
          assert r[i] == rest[i - 1] && r[j] == rest[j - 1];
        } else {
          assert r[j] == rest[j - 1];
        }
      }
    } else if s != [] {
      var r := [x] + s;
      forall i, j | 0 <= i < j < |r| ensures key(r[i]) >= key(r[j]) {
        if i > 0 {
          assert r[i] == s[i - 1] && r[j] == s[j - 1];
        } else {
          assert key(s[0]) >= key(s[j - 1]);
        }
      }
    }
  }

  /** Inserting keeps every key at or below a bound that `x` and all of `s` respect. */
  lemma InsertBelow<T>(x: T, s: seq<T>, key: T -> int, ahead: (T, T) -> bool, bound: int)
    requires key(x) <= bound
    requires forall i :: 0 <= i < |s| ==> key(s[i]) <= bound
    ensures forall j :: 0 <= j < |s| + 1 ==> key(Insert(x, s, key, ahead)[j]) <= bound
  {
    var r := Insert(x, s, key, ahead);
    forall j | 0 <= j < |r| ensures key(r[j]) <= bound {
      assert r[j] in multiset(r);
      if r[j] != x {
        assert r[j] in multiset(s);
        var k :| 0 <= k < |s| && s[k] == r[j];
      }
    }
  }

  /** Orders `s` by descending key; `ahead` decides between equal keys. */
  function SortDesc<T(==)>(s: seq<T>, key: T -> int, ahead: (T, T) -> bool): (r: seq<T>)
    ensures multiset(r) == multiset(s)
    ensures |r| == |s|
  {
    if s == [] then []
    else
      assert s == [s[0]] + s[1..];
      Insert(s[0], SortDesc(s[1..], key, ahead), key, ahead)
  }

  /** The insertion sort lists its input by descending key. */
  lemma {:induction false} SortDescSorted<T>(s: seq<T>, key: T -> int, ahead: (T, T) -> bool)
    ensures SortedDesc(SortDesc(s, key, ahead), key)
  {
    if s != [] {
      SortDescSorted(s[1..], key, ahead);
      InsertSorted(s[0], SortDesc(s[1..], key, ahead), key, ahead);
    }
  }

  /** An element listed twice occurs at least twice in the multiset of the sequence. */
  lemma RepeatedTwice<T>(s: seq<T>, i: nat, j: nat)
    requires i < j < |s| && s[i] == s[j]
    ensures multiset(s)[s[i]] >= 2
  {
    assert s == s[..j] + s[j..];
    assert s[i] in s[..j];
    assert s[j] in s[j..];
  }

  /**
   A sequence with no repeated element that is descending by a key which
   tells its elements apart is strictly descending.
   */
  lemma {:induction false} DescDistinctIsStrict<T>(s: seq<T>, key: T -> int)
    requires SortedDesc(s, key)
    requires forall x :: multiset(s)[x] <= 1
    requires forall i, j :: 0 <= i < |s| && 0 <= j < |s| && s[i] != s[j] ==> key(s[i]) != key(s[j])
    ensures StrictlyDesc(s, key)
  {
    forall i, j | 0 <= i < j < |s| ensures key(s[i]) > key(s[j]) {
      if s[i] == s[j] {
        RepeatedTwice(s, i, j);
        assert false;
      }
    }
  }

  /** Two strictly descending sequences holding the same elements are the same sequence. */
  lemma {:induction false} StrictlyDescUnique<T>(a: seq<T>, b: seq<T>, key: T -> int)
    requires StrictlyDesc(a, key) && StrictlyDesc(b, key)
    requires forall x :: x in a <==> x in b
    ensures a == b
    decreases |a|
  {
    assert |b| > 0 ==> b[0] in a;
    if a != [] {
      assert a[0] in b;
      assert b != [];
      assert b[0] in b;
      assert b[0] in a;
      var k :| 0 <= k < |b| && b[k] == a[0];
      var m :| 0 <= m < |a| && a[m] == b[0];
      assert key(b[0]) <= key(a[0]);
      assert key(a[0]) <= key(b[0]);
      assert k == 0;
      forall x ensures x in a[1..] <==> x in b[1..] {
        if x in a[1..] {
          var p :| 1 <= p < |a| && a[p] == x;
          assert x in b;
          assert x != b[0];
          var q :| 0 <= q < |b| && b[q] == x;
          assert x in b[1..];
        }
        if x in b[1..] {
          var p :| 1 <= p < |b| && b[p] == x;
          assert x in a;
          assert x != a[0];
          var q :| 0 <= q < |a| && a[q] == x;
          assert x in a[1..];
        }
      }
      StrictlyDescUnique(a[1..], b[1..], key);
      assert a == [a[0]] + a[1..];
      assert b == [b[0]] + b[1..];
    }
  }
}
