/**
 * Ranking as the question-answering program does it: Python's
 * `sorted(..., key=..., reverse=True)` / `list.sort(key=..., reverse=True)`
 * followed by the slice `[:n]`. Keys are tuples of numbers compared
 * lexicographically; the sort is stable, so entries with equal keys keep
 * their original order.
 */
module Ranking {
  import opened Seqs

  /** An entry to rank: a name (a file name or a sentence) and its sort key. */
  datatype Scored = Scored(name: string, key: seq<real>)

  /** Python's `a > b` on tuples of numbers: the first differing position decides; a proper prefix is smaller. */
  predicate Above(a: seq<real>, b: seq<real>) {
    a != [] && (b == [] || a[0] > b[0] || (a[0] == b[0] && Above(a[1..], b[1..])))
  }

  lemma {:induction false} AboveIrreflexive(a: seq<real>)
    ensures !Above(a, a)
  {
    if a != [] {
      AboveIrreflexive(a[1..]);
    }
  }

  lemma {:induction false} AboveTransitive(a: seq<real>, b: seq<real>, c: seq<real>)
    requires Above(a, b) && Above(b, c)
    ensures Above(a, c)
  {
    if c != [] && a[0] == b[0] == c[0] {
      AboveTransitive(a[1..], b[1..], c[1..]);
    }
  }

  /** Two keys are equal or one is above the other. */
  lemma {:induction false} AboveTotal(a: seq<real>, b: seq<real>)
    ensures a == b || Above(a, b) || Above(b, a)
  {
    if a != [] && b != [] && a[0] == b[0] {
      AboveTotal(a[1..], b[1..]);
      if a[1..] == b[1..] {
        assert a == [a[0]] + a[1..] && b == [b[0]] + b[1..];
      }
    }
  }

  /** On one-number keys the order is the order of the numbers. */
  lemma AboveSingle(x: real, y: real)
    ensures Above([x], [y]) <==> x > y
  {
    assert [x][1..] == [] && [y][1..] == [];
  }

  /** The names of the entries, in order. */
  function Names(s: seq<Scored>): (names: seq<string>)
    ensures |names| == |s|
    ensures forall i :: 0 <= i < |s| ==> names[i] == s[i].name
  {
    if s == [] then [] else [s[0].name] + Names(s[1..])
  }

  /** Non-increasing keys: no later entry is above an earlier one. */
  predicate SortedDesc(s: seq<Scored>) {
    forall i, j :: 0 <= i < j < |s| ==> !Above(s[j].key, s[i].key)
  }

  /** Place `x` before the first entry that is not above it (so before every entry with an equal key). */
  function Insert(x: Scored, s: seq<Scored>): (r: seq<Scored>)
    ensures |r| == |s| + 1
  {
    if s == [] then [x]
    else if Above(s[0].key, x.key) then [s[0]] + Insert(x, s[1..])
    else [x] + s
  }

  /** `sorted(s, key=key, reverse=True)`: a stable sort into non-increasing key order. */
  function SortDesc(s: seq<Scored>): (r: seq<Scored>)
    ensures |r| == |s|
  {
    if s == [] then [] else Insert(s[0], SortDesc(s[1..]))
  }

  lemma {:induction false} InsertPermutation(x: Scored, s: seq<Scored>)
    ensures multiset(Insert(x, s)) == multiset(s) + multiset{x}
  {
    if s != [] && Above(s[0].key, x.key) {
      InsertPermutation(x, s[1..]);
      assert s == [s[0]] + s[1..];
    }
  }

  /** The sort is a permutation of its input. */
  lemma {:induction false} SortDescPermutation(s: seq<Scored>)
    ensures multiset(SortDesc(s)) == multiset(s)
  {
    if s != [] {
      SortDescPermutation(s[1..]);
      InsertPermutation(s[0], SortDesc(s[1..]));
      assert s == [s[0]] + s[1..];
    }
  }

  lemma {:induction false} InsertSorted(x: Scored, s: seq<Scored>)
    requires SortedDesc(s)
    ensures SortedDesc(Insert(x, s))
  {
    if s != [] {
      if Above(s[0].key, x.key) {
        InsertSorted(x, s[1..]);
        InsertPermutation(x, s[1..]);
        var r := Insert(x, s);
        forall j | 0 < j < |r| ensures !Above(r[j].key, r[0].key) {
          assert r[j] in multiset(Insert(x, s[1..]));
          if r[j] == x {
            AboveIrreflexive(x.key);
            if Above(x.key, s[0].key) {
              AboveTransitive(x.key, s[0].key, x.key);
            }
          } else {
            assert r[j] in s[1..];
          }
        }
      } else {
        var r := Insert(x, s);
        forall j | 0 < j < |r| ensures !Above(r[j].key, x.key) {
          assert r[j] == s[j - 1];
          if j - 1 > 0 {
            AboveTotal(x.key, s[0].key);
            if x.key != s[0].key && Above(s[j - 1].key, x.key) {
              AboveTransitive(s[j - 1].key, x.key, s[0].key);
            }
          }
        }
      }
    }
  }

  /** The sort's result is in non-increasing key order. */
  lemma {:induction false} SortDescSorted(s: seq<Scored>)
    ensures SortedDesc(SortDesc(s))
  {
    if s != [] {
      SortDescSorted(s[1..]);
      InsertSorted(s[0], SortDesc(s[1..]));
    }
  }

  /** No two entries share a name. */
  predicate DistinctNames(s: seq<Scored>) {
    forall i, j :: 0 <= i < j < |s| ==> s[i].name != s[j].name
  }

  lemma DistinctNamesIff(s: seq<Scored>)
    ensures DistinctNames(s) <==> NoDuplicates(Names(s))
  {
    var names := Names(s);
    assert forall i :: 0 <= i < |s| ==> names[i] == s[i].name;
  }

  /** Prepending an entry whose name is new keeps names distinct. */
  lemma ConsDistinctNames(x: Scored, s: seq<Scored>)
    requires DistinctNames(s)
    requires forall e :: e in s ==> e.name != x.name
    ensures DistinctNames([x] + s)
  {
    var r := [x] + s;
    forall i, j | 0 <= i < j < |r| ensures r[i].name != r[j].name {
      assert r[j] == s[j - 1];
      if i > 0 {
        assert r[i] == s[i - 1];
      }
    }
  }

  lemma {:induction false} InsertDistinctNames(x: Scored, s: seq<Scored>)
    requires DistinctNames(s)
    requires forall e :: e in s ==> e.name != x.name
    ensures DistinctNames(Insert(x, s))
  {
    if s != [] && Above(s[0].key, x.key) {
      assert DistinctNames(s[1..]) by {
        forall i, j | 0 <= i < j < |s| - 1 ensures s[1..][i].name != s[1..][j].name {
          assert s[1..][i] == s[i + 1] && s[1..][j] == s[j + 1];
        }
      }
      InsertDistinctNames(x, s[1..]);
      InsertPermutation(x, s[1..]);
      var rest := Insert(x, s[1..]);
      forall e | e in rest ensures e.name != s[0].name {
        assert e in multiset(rest);
        if e != x {
          var i :| 0 < i < |s| && s[i] == e;
        }
      }
      ConsDistinctNames(s[0], rest);
    } else {
      ConsDistinctNames(x, s);
    }
  }

  /** The sort keeps distinct names distinct. */
  lemma {:induction false} SortDescDistinctNames(s: seq<Scored>)
    requires DistinctNames(s)
    ensures DistinctNames(SortDesc(s))
  {
    if s != [] {
      SortDescDistinctNames(s[1..]);
      SortDescPermutation(s[1..]);
      forall e | e in SortDesc(s[1..]) ensures e.name != s[0].name {
        assert e in multiset(s[1..]);
        var i :| 0 < i < |s| && s[i] == e;
      }
      InsertDistinctNames(s[0], SortDesc(s[1..]));
    }
  }

  /** The entries whose key is `k`, in order. */
  function WithKey(s: seq<Scored>, k: seq<real>): (r: seq<Scored>)
    ensures forall e :: e in r <==> e in s && e.key == k
  {
    if s == [] then [] else (if s[0].key == k then [s[0]] else []) + WithKey(s[1..], k)
  }

  lemma {:induction false} WithKeyAppend(a: seq<Scored>, b: seq<Scored>, k: seq<real>)
    ensures WithKey(a + b, k) == WithKey(a, k) + WithKey(b, k)
  {
    if a == [] {
      assert a + b == b;
    } else {
      assert (a + b)[1..] == a[1..] + b;
      WithKeyAppend(a[1..], b, k);
    }
  }

  lemma WithKeySingle(e: Scored, k: seq<real>)
    ensures WithKey([e], k) == if e.key == k then [e] else []
  {
    assert [e][1..] == [];
  }

  lemma {:induction false} InsertStable(x: Scored, s: seq<Scored>, k: seq<real>)
    ensures WithKey(Insert(x, s), k) == WithKey([x], k) + WithKey(s, k)
  {
    if s == [] {
      assert [x] + s == [x];
    } else if Above(s[0].key, x.key) {
      var head, mine, rest := WithKey([s[0]], k), WithKey([x], k), WithKey(s[1..], k);
      InsertStable(x, s[1..], k);
      WithKeyAppend([s[0]], Insert(x, s[1..]), k);
      assert s == [s[0]] + s[1..];
      WithKeyAppend([s[0]], s[1..], k);
      // `x` and `s[0]` have different keys, so at most one of them is kept
      WithKeySingle(x, k);
      WithKeySingle(s[0], k);
      AboveIrreflexive(x.key);
      if head == [] {
        assert head + (mine + rest) == mine + rest;
        assert head + rest == rest;
      } else {
        assert mine == [];
        assert mine + rest == rest;
        assert mine + (head + rest) == head + rest;
      }
    } else {
      WithKeyAppend([x], s, k);
    }
  }

  /** Stability: for every key, the entries with that key keep their original order. */
  lemma {:induction false} SortDescStable(s: seq<Scored>, k: seq<real>)
    ensures WithKey(SortDesc(s), k) == WithKey(s, k)
  {
    if s != [] {
      SortDescStable(s[1..], k);
      InsertStable(s[0], SortDesc(s[1..]), k);
      assert s == [s[0]] + s[1..];
      WithKeyAppend([s[0]], s[1..], k);
    }
  }

  /** How many elements Python's slice `s[:n]` keeps of `len`; a negative `n` counts from the end. */
  function SliceLen(len: nat, n: int): (m: nat)
    ensures m <= len
  {
    if n >= 0 then (if n <= len then n else len)
    else if len + n >= 0 then len + n else 0
  }

  /** Python's `s[:n]`. */
  function SliceTo<T>(s: seq<T>, n: int): seq<T> {
    s[..SliceLen(|s|, n)]
  }

  /** Entries left out of a prefix of the sorted list are not above the entries kept. */
  lemma SortedPrefixDominates(s: seq<Scored>, m: nat)
    requires m <= |s|
    ensures forall x, y :: x in s && x !in SortDesc(s)[..m] && y in SortDesc(s)[..m] ==> !Above(x.key, y.key)
  {
    var sorted := SortDesc(s);
    SortDescSorted(s);
    SortDescPermutation(s);
    forall x, y | x in s && x !in sorted[..m] && y in sorted[..m] ensures !Above(x.key, y.key) {
      assert x in multiset(sorted);
      var j :| 0 <= j < |sorted| && sorted[j] == x;
      var i :| 0 <= i < m && sorted[i] == y;
      assert j >= m;
    }
  }

  /** Among entries with equal keys, a prefix of the sorted list keeps the first ones, in their original order. */
  lemma SortedPrefixTies(s: seq<Scored>, m: nat)
    requires m <= |s|
    ensures forall k :: WithKey(SortDesc(s)[..m], k) <= WithKey(s, k)
  {
    var sorted := SortDesc(s);
    forall k ensures WithKey(sorted[..m], k) <= WithKey(s, k) {
      SortDescStable(s, k);
      assert sorted == sorted[..m] + sorted[m..];
      WithKeyAppend(sorted[..m], sorted[m..], k);
    }
  }

  /**
   * The first `n` entries of the stable descending sort. They are
   * `SliceLen(|s|, n)` entries of `s`, in non-increasing key order; no entry
   * left out is above one kept; among entries with equal keys the kept ones
   * are the first in `s`'s order, in that order; and distinct names stay
   * distinct.
   */
  function TopN(s: seq<Scored>, n: int): (top: seq<Scored>)
    ensures |top| == SliceLen(|s|, n)
    ensures multiset(top) <= multiset(s)
    ensures SortedDesc(top)
    ensures forall x, y :: x in s && x !in top && y in top ==> !Above(x.key, y.key)
    ensures forall k :: WithKey(top, k) <= WithKey(s, k)
    ensures DistinctNames(s) ==> DistinctNames(top)
  {
    var sorted := SortDesc(s);
    var m := SliceLen(|s|, n);
    SortDescSorted(s);
    SortDescPermutation(s);
    assert sorted == sorted[..m] + sorted[m..];
    assert multiset(sorted[..m]) <= multiset(sorted);
    SortedPrefixDominates(s, m);
    SortedPrefixTies(s, m);
    if DistinctNames(s) then
      SortDescDistinctNames(s);
      SliceTo(sorted, n)
    else
      SliceTo(sorted, n)
  }

  /** Every entry of the top `n` is an entry of the input. */
  lemma TopNMember(s: seq<Scored>, n: int, e: Scored)
    requires e in TopN(s, n)
    ensures e in s
  {
    assert e in multiset(TopN(s, n));
  }
}
