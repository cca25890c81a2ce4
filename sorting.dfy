/** Ordering by element location. A location is the path of child indices
    from the root (`Vec<usize>`), compared the way `Vec::cmp` compares:
    lexicographically, a proper prefix first. Lists are ordered with
    `sort_by`, which is stable; `SortByKey` is a stable insertion sort that
    the lemmas below show is sorted, a permutation and stable. */
module Sorting {

  predicate LocLe(a: seq<nat>, b: seq<nat>)
    decreases |a|
  {
    |a| == 0 || (|b| > 0 && (a[0] < b[0] || (a[0] == b[0] && LocLe(a[1..], b[1..]))))
  }

  lemma {:induction false} LocLeTotal(a: seq<nat>, b: seq<nat>)
    ensures LocLe(a, b) || LocLe(b, a)
    decreases |a|
  {
    if |a| > 0 && |b| > 0 && a[0] == b[0] {
      LocLeTotal(a[1..], b[1..]);
    }
  }

  lemma {:induction false} LocLeTrans(a: seq<nat>, b: seq<nat>, c: seq<nat>)
    requires LocLe(a, b) && LocLe(b, c)
    ensures LocLe(a, c)
    decreases |a|
  {
    if |a| > 0 && a[0] == b[0] && b[0] == c[0] {
      LocLeTrans(a[1..], b[1..], c[1..]);
    }
  }

  lemma {:induction false} LocLeAntisym(a: seq<nat>, b: seq<nat>)
    requires LocLe(a, b) && LocLe(b, a)
    ensures a == b
    decreases |a|
  {
    if |a| > 0 {
      LocLeAntisym(a[1..], b[1..]);
      assert a == [a[0]] + a[1..];
      assert b == [b[0]] + b[1..];
    }
  }

  ghost predicate SortedBy<T>(s: seq<T>, key: T -> seq<nat>) {
    forall i, j :: 0 <= i < j < |s| ==> LocLe(key(s[i]), key(s[j]))
  }

  /** The elements of `s` whose key is `k`, in their order in `s`. */
  function WithKey<T>(s: seq<T>, key: T -> seq<nat>, k: seq<nat>): seq<T>
    decreases |s|
  {
    if |s| == 0 then []
    else WithKey(s[..|s| - 1], key, k) + (if key(s[|s| - 1]) == k then [s[|s| - 1]] else [])
  }

  /** Puts `x` after every element of `s` whose key is not greater. */
  function Insert<T>(s: seq<T>, x: T, key: T -> seq<nat>): (r: seq<T>)
    ensures |r| == |s| + 1
    decreases |s|
  {
    if |s| == 0 then [x]
    else if LocLe(key(s[|s| - 1]), key(x)) then s + [x]
    else Insert(s[..|s| - 1], x, key) + [s[|s| - 1]]
  }

  /** `sort_by(|a, b| key(a).cmp(&key(b)))`. */
  function SortByKey<T>(s: seq<T>, key: T -> seq<nat>): (r: seq<T>)
    ensures |r| == |s|
    decreases |s|
  {
    if |s| == 0 then [] else Insert(SortByKey(s[..|s| - 1], key), s[|s| - 1], key)
  }

  lemma LocLeRefl(a: seq<nat>)
    ensures LocLe(a, a)
  {
    LocLeTotal(a, a);
  }

  lemma {:induction false} InsertMultiset<T>(s: seq<T>, x: T, key: T -> seq<nat>)
    ensures multiset(Insert(s, x, key)) == multiset(s) + multiset{x}
    decreases |s|
  {
    if |s| > 0 && !LocLe(key(s[|s| - 1]), key(x)) {
      var init := s[..|s| - 1];
      InsertMultiset(init, x, key);
      assert s == init + [s[|s| - 1]];
    }
  }

  /** Inserting `x` appends it to the elements with its key and leaves the
      elements with any other key as they were. */
  lemma {:induction false} InsertWithKey<T>(s: seq<T>, x: T, key: T -> seq<nat>, k: seq<nat>)
    ensures WithKey(Insert(s, x, key), key, k) == WithKey(s, key, k) + (if key(x) == k then [x] else [])
    decreases |s|
  {
    if |s| == 0 {
      assert [x][..0] == [];
    } else {
      var last := s[|s| - 1];
      var init := s[..|s| - 1];
      if LocLe(key(last), key(x)) {
        assert (s + [x])[..|s|] == s;
      } else {
        InsertWithKey(init, x, key, k);
        var mid := Insert(init, x, key);
        assert (mid + [last])[..|mid|] == mid;
        LocLeRefl(key(x));
        assert key(last) != key(x);
      }
    }
  }

  lemma {:induction false} InsertSorted<T>(s: seq<T>, x: T, key: T -> seq<nat>)
    requires SortedBy(s, key)
    ensures SortedBy(Insert(s, x, key), key)
    decreases |s|
  {
    if |s| > 0 {
      var last := s[|s| - 1];
      var init := s[..|s| - 1];
      if LocLe(key(last), key(x)) {
        var r := s + [x];
        forall i, j | 0 <= i < j < |r| ensures LocLe(key(r[i]), key(r[j])) {
          if j == |s| && i < |s| - 1 {
            LocLeTrans(key(s[i]), key(last), key(x));
          }
        }
      } else {
        LocLeTotal(key(last), key(x));
        InsertSorted(init, x, key);
        InsertMultiset(init, x, key);
        var mid := Insert(init, x, key);
        var r := mid + [last];
        forall i | 0 <= i < |mid| ensures LocLe(key(mid[i]), key(last)) {
          assert mid[i] in multiset(mid);
          if mid[i] != x {
            assert mid[i] in multiset(init);
            var m :| 0 <= m < |init| && init[m] == mid[i];
            assert s[m] == init[m];
          }
        }
        forall i, j | 0 <= i < j < |r| ensures LocLe(key(r[i]), key(r[j])) {
          if j < |mid| {
            assert r[i] == mid[i] && r[j] == mid[j];
          }
        }
      }
    }
  }

  lemma {:induction false} SortByKeySorted<T>(s: seq<T>, key: T -> seq<nat>)
    ensures SortedBy(SortByKey(s, key), key)
    decreases |s|
  {
    if |s| > 0 {
      SortByKeySorted(s[..|s| - 1], key);
      InsertSorted(SortByKey(s[..|s| - 1], key), s[|s| - 1], key);
    }
  }

  lemma {:induction false} SortByKeyMultiset<T>(s: seq<T>, key: T -> seq<nat>)
    ensures multiset(SortByKey(s, key)) == multiset(s)
    decreases |s|
  {
    if |s| > 0 {
      var init, last := s[..|s| - 1], s[|s| - 1];
      var sortedInit := SortByKey(init, key);
      assert SortByKey(s, key) == Insert(sortedInit, last, key);
      SortByKeyMultiset(init, key);
      InsertMultiset(sortedInit, last, key);
      assert s == init + [last];
      assert multiset(s) == multiset(init) + multiset{last};
    }
  }

  /** Stability: the elements that share a key keep their relative order. */
  lemma {:induction false} SortByKeyStable<T>(s: seq<T>, key: T -> seq<nat>, k: seq<nat>)
    ensures WithKey(SortByKey(s, key), key, k) == WithKey(s, key, k)
    decreases |s|
  {
    if |s| > 0 {
      var init := s[..|s| - 1];
      SortByKeyStable(init, key, k);
      InsertWithKey(SortByKey(init, key), s[|s| - 1], key, k);
    }
  }

  /** `slice.sort_by(...)` on a list held in place. */
  method SortInPlace<T>(a: array<T>, key: T -> seq<nat>)
    modifies a
    ensures a[..] == SortByKey(old(a[..]), key)
  {
    var sorted := SortByKey(a[..], key);
    forall i | 0 <= i < a.Length {
      a[i] := sorted[i];
    }
  }
}
