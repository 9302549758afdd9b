/**
 * `OrderByDescending` on fitness, as a stable insertion sort over
 * (individual, key) pairs.
 *
 * LINQ's ordering is stable: individuals with equal fitness keep the order
 * they had. Stability is stated through `WithKey`, the subsequence of the
 * entries carrying one key: sorting must leave every such subsequence as it
 * was, and `StableOrderUnique` shows that this, together with a
 * non-increasing order, leaves exactly one possible result.
 */
module Ranking {

  /** Entries in non-increasing order of key. */
  ghost predicate NonIncreasing<T>(s: seq<(T, real)>) {
    forall i, j :: 0 <= i < j < |s| ==> s[i].1 >= s[j].1
  }

  /** The entries whose key is k, in their order in s. */
  function WithKey<T>(s: seq<(T, real)>, k: real): seq<(T, real)> {
    if s == [] then []
    else (if s[0].1 == k then [s[0]] else []) + WithKey(s[1..], k)
  }

  /** Puts x in front of the first entry whose key does not exceed x's. */
  function Insert<T>(x: (T, real), s: seq<(T, real)>): (r: seq<(T, real)>)
    ensures |r| == |s| + 1
  {
    if s == [] || x.1 >= s[0].1 then [x] + s
    else [s[0]] + Insert(x, s[1..])
  }

  /** Stable sort by descending key: each entry is inserted into the sorted rest. */
  function SortDescending<T>(s: seq<(T, real)>): (r: seq<(T, real)>)
    ensures |r| == |s|
  {
    if s == [] then [] else Insert(s[0], SortDescending(s[1..]))
  }

  /** The first entry after an insertion is the inserted one or the old first one. */
  lemma InsertHead<T>(x: (T, real), s: seq<(T, real)>)
    ensures Insert(x, s)[0] == x || Insert(x, s)[0] == s[0]
  {
  }

  lemma {:induction false} InsertSorted<T>(x: (T, real), s: seq<(T, real)>)
    requires NonIncreasing(s)
    ensures NonIncreasing(Insert(x, s))
  {
    var r := Insert(x, s);
    if s == [] || x.1 >= s[0].1 {
      forall i, j | 0 <= i < j < |r| ensures r[i].1 >= r[j].1 {
        if i > 0 {
          assert r[i] == s[i - 1] && r[j] == s[j - 1];
        } else {
          assert s[0].1 >= r[j].1;
        }
      }
    } else {
      var t := Insert(x, s[1..]);
      assert NonIncreasing(s[1..]) by {
        forall i, j | 0 <= i < j < |s[1..]| ensures s[1..][i].1 >= s[1..][j].1 {
          assert s[1..][i] == s[i + 1] && s[1..][j] == s[j + 1];
        }
      }
      InsertSorted(x, s[1..]);
      InsertHead(x, s[1..]);
      assert r == [s[0]] + t;
      assert t[0].1 <= s[0].1;
      forall i, j | 0 <= i < j < |r| ensures r[i].1 >= r[j].1 {
        if i > 0 {
          assert r[i] == t[i - 1] && r[j] == t[j - 1];
        } else {
          assert r[j] == t[j - 1];
          assert t[0].1 >= t[j - 1].1;
        }
      }
    }
  }

  lemma {:induction false} InsertMultiset<T>(x: (T, real), s: seq<(T, real)>)
    ensures multiset(Insert(x, s)) == multiset(s) + multiset{x}
  {
    if s != [] && x.1 < s[0].1 {
      InsertMultiset(x, s[1..]);
      assert s == [s[0]] + s[1..];
    }
  }

  lemma {:induction false} InsertWithKey<T>(x: (T, real), s: seq<(T, real)>, k: real)
    ensures WithKey(Insert(x, s), k) == WithKey([x] + s, k)
  {
    if s != [] && x.1 < s[0].1 {
      var t := Insert(x, s[1..]);
      InsertWithKey(x, s[1..], k);
      assert ([s[0]] + t)[1..] == t;
      assert ([x] + s)[1..] == s;
      assert ([x] + s[1..])[1..] == s[1..];
    }
  }

  /** The result is non-increasing, a permutation of s, and keeps equal keys in order. */
  lemma {:induction false} SortDescendingFacts<T>(s: seq<(T, real)>)
    ensures NonIncreasing(SortDescending(s))
    ensures multiset(SortDescending(s)) == multiset(s)
    ensures forall k :: WithKey(SortDescending(s), k) == WithKey(s, k)
  {
    if s != [] {
      SortDescendingFacts(s[1..]);
      var t := SortDescending(s[1..]);
      InsertSorted(s[0], t);
      InsertMultiset(s[0], t);
      assert s == [s[0]] + s[1..];
      forall k ensures WithKey(SortDescending(s), k) == WithKey(s, k) {
        InsertWithKey(s[0], t, k);
        assert ([s[0]] + t)[1..] == t;
      }
    }
  }

  lemma {:induction false} WithKeyMembers<T>(s: seq<(T, real)>, k: real)
    ensures forall e :: e in WithKey(s, k) ==> e in s && e.1 == k
    ensures s != [] && s[0].1 == k ==> WithKey(s, k) != [] && WithKey(s, k)[0] == s[0]
  {
    if s != [] {
      WithKeyMembers(s[1..], k);
    }
  }

  /** Two non-increasing sequences that agree on every key's subsequence are equal. */
  lemma {:induction false} SameKeysSameOrder<T>(t: seq<(T, real)>, u: seq<(T, real)>)
    requires NonIncreasing(t) && NonIncreasing(u)
    requires forall k :: WithKey(t, k) == WithKey(u, k)
    ensures t == u
    decreases |t|
  {
    if t == [] && u == [] {
    } else if t == [] {
      assert false;
    } else if u == [] {
      WithKeyMembers(t, t[0].1);
      assert false;
    } else {
      var a, b := t[0].1, u[0].1;
      WithKeyMembers(t, a);
      WithKeyMembers(u, a);
      WithKeyMembers(t, b);
      WithKeyMembers(u, b);
      assert WithKey(u, a)[0] in u;
      assert b >= a;
      assert WithKey(t, b)[0] in t;
      assert a >= b;
      assert t[0] == u[0];
      forall k ensures WithKey(t[1..], k) == WithKey(u[1..], k) {
        assert WithKey(t, k) == (if a == k then [t[0]] else []) + WithKey(t[1..], k);
        assert WithKey(u, k) == (if a == k then [t[0]] else []) + WithKey(u[1..], k);
        var p: seq<(T, real)> := if a == k then [t[0]] else [];
        assert (p + WithKey(t[1..], k))[|p|..] == WithKey(t[1..], k);
        assert (p + WithKey(u[1..], k))[|p|..] == WithKey(u[1..], k);
      }
      assert NonIncreasing(t[1..]) by {
        forall i, j | 0 <= i < j < |t[1..]| ensures t[1..][i].1 >= t[1..][j].1 {
          assert t[1..][i] == t[i + 1] && t[1..][j] == t[j + 1];
        }
      }
      assert NonIncreasing(u[1..]) by {
        forall i, j | 0 <= i < j < |u[1..]| ensures u[1..][i].1 >= u[1..][j].1 {
          assert u[1..][i] == u[i + 1] && u[1..][j] == u[j + 1];
        }
      }
      SameKeysSameOrder(t[1..], u[1..]);
      assert t == [t[0]] + t[1..] && u == [u[0]] + u[1..];
    }
  }

  /** Any non-increasing reordering that keeps equal keys in order is the result of SortDescending. */
  lemma StableOrderUnique<T>(s: seq<(T, real)>, t: seq<(T, real)>)
    requires NonIncreasing(t)
    requires forall k :: WithKey(t, k) == WithKey(s, k)
    ensures t == SortDescending(s)
  {
    SortDescendingFacts(s);
    SameKeysSameOrder(t, SortDescending(s));
  }
}
