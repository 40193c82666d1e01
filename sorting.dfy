/** Python's `list.sort(key=...)`, which is stable: elements with equal
    keys keep their relative order. It is modelled by its result, computed
    by a functional insertion sort; stability makes that result unique. */
module Sorting {

  predicate SortedBy<T>(s: seq<T>, key: T -> real) {
    forall i, j :: 0 <= i < j < |s| ==> key(s[i]) <= key(s[j])
  }

  /** Number of leading elements of `s` whose key is below `key(x)`. */
  function InsertIndex<T>(x: T, s: seq<T>, key: T -> real): (k: nat)
    ensures k <= |s|
    ensures forall i :: 0 <= i < k ==> key(s[i]) < key(x)
    ensures k < |s| ==> key(x) <= key(s[k])
  {
    if s == [] || key(x) <= key(s[0]) then 0 else 1 + InsertIndex(x, s[1..], key)
  }

  /** Inserts `x` in front of the first element whose key is at least its own. */
  function InsertBy<T>(x: T, s: seq<T>, key: T -> real): (r: seq<T>)
    ensures |r| == |s| + 1 && r[InsertIndex(x, s, key)] == x
    ensures forall i :: 0 <= i < InsertIndex(x, s, key) ==> r[i] == s[i]
    ensures forall i :: InsertIndex(x, s, key) < i < |r| ==> r[i] == s[i - 1]
  {
    if s == [] || key(x) <= key(s[0]) then [x] + s
    else
      var t := InsertBy(x, s[1..], key);
      assert InsertIndex(x, s, key) == InsertIndex(x, s[1..], key) + 1;
      [s[0]] + t
  }

  /** The stable ascending sort of `s` by `key`. */
  function SortBy<T>(s: seq<T>, key: T -> real): seq<T> {
    if s == [] then [] else InsertBy(s[0], SortBy(s[1..], key), key)
  }

  lemma InsertKeepsSorted<T>(x: T, s: seq<T>, key: T -> real)
    requires SortedBy(s, key)
    ensures SortedBy(InsertBy(x, s, key), key)
  {
    var k := InsertIndex(x, s, key);
    var r := InsertBy(x, s, key);
    forall i, j | 0 <= i < j < |r| ensures key(r[i]) <= key(r[j]) {
      if i < k && j == k {
      } else if i == k && j > k {
        assert r[j] == s[j - 1];
      } else if j < k {
      } else if i > k {
        assert r[i] == s[i - 1] && r[j] == s[j - 1];
      } else {
        assert r[i] == s[i] && r[j] == s[j - 1];
      }
    }
  }

  lemma InsertMultiset<T>(x: T, s: seq<T>, key: T -> real)
    ensures multiset(InsertBy(x, s, key)) == multiset(s) + multiset{x}
  {
    var k := InsertIndex(x, s, key);
    var r := InsertBy(x, s, key);
    assert r == s[..k] + [x] + s[k..];
    assert s == s[..k] + s[k..];
    calc {
      multiset(r);
      multiset(s[..k]) + multiset{x} + multiset(s[k..]);
      multiset(s) + multiset{x};
    }
  }

  lemma MultisetCons<T>(s: seq<T>)
    requires s != []
    ensures multiset(s) == multiset(s[1..]) + multiset{s[0]}
  {
    assert s == [s[0]] + s[1..];
  }

  /** The sort is a permutation of its input. */
  lemma {:induction false} SortByPermutes<T>(s: seq<T>, key: T -> real)
    ensures multiset(SortBy(s, key)) == multiset(s)
  {
    if s != [] {
      var rest := SortBy(s[1..], key);
      SortByPermutes(s[1..], key);
      InsertMultiset(s[0], rest, key);
      MultisetCons(s);
    }
  }

  /** The sort puts its input in ascending key order. */
  lemma {:induction false} SortBySorted<T>(s: seq<T>, key: T -> real)
    ensures SortedBy(SortBy(s, key), key)
  {
    if s != [] {
      SortBySorted(s[1..], key);
      InsertKeepsSorted(s[0], SortBy(s[1..], key), key);
    }
  }

  /** The sort is a permutation of its input, in ascending key order. */
  lemma SortByCorrect<T>(s: seq<T>, key: T -> real)
    ensures multiset(SortBy(s, key)) == multiset(s)
    ensures SortedBy(SortBy(s, key), key)
  {
    SortByPermutes(s, key);
    SortBySorted(s, key);
  }

  /** Among elements of equal key, `pos` increases. */
  predicate StableBy<T>(r: seq<T>, key: T -> real, pos: T -> int) {
    forall i, j :: 0 <= i < j < |r| && key(r[i]) == key(r[j]) ==> pos(r[i]) < pos(r[j])
  }

  lemma InsertKeepsStable<T>(x: T, s: seq<T>, key: T -> real, pos: T -> int)
    requires StableBy(s, key, pos)
    requires forall y :: y in s ==> pos(x) < pos(y)
    ensures StableBy(InsertBy(x, s, key), key, pos)
  {
    var k := InsertIndex(x, s, key);
    var r := InsertBy(x, s, key);
    forall i, j | 0 <= i < j < |r| && key(r[i]) == key(r[j]) ensures pos(r[i]) < pos(r[j]) {
      if i == k {
        assert r[j] == s[j - 1];
      } else if j == k {
        assert false;  // the keys in front of x are below key(x)
      } else if j < k {
        assert r[i] == s[i] && r[j] == s[j];
      } else if i > k {
        assert r[i] == s[i - 1] && r[j] == s[j - 1];
      } else {
        assert r[i] == s[i] && r[j] == s[j - 1];
      }
    }
  }

  /** Stability: if `pos` increases along the input, then among elements
      of equal key the output keeps increasing `pos`. */
  lemma {:induction false} SortByStable<T>(s: seq<T>, key: T -> real, pos: T -> int)
    requires forall i, j :: 0 <= i < j < |s| ==> pos(s[i]) < pos(s[j])
    ensures StableBy(SortBy(s, key), key, pos)
  {
    if s != [] {
      var x := s[0];
      var rest := SortBy(s[1..], key);
      SortByStable(s[1..], key, pos);
      SortByPermutes(s[1..], key);
      forall y | y in rest ensures pos(x) < pos(y) {
        assert y in multiset(rest);
        assert y in multiset(s[1..]);
        var m :| 0 <= m < |s[1..]| && s[1..][m] == y;
        assert s[m + 1] == y;
      }
      InsertKeepsStable(x, rest, key, pos);
    }
  }
}
