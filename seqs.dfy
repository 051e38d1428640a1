/** Sequence helpers shared by the column operations: flattening, dedup, reductions. */
module Seqs {

  function Flatten<T>(ss: seq<seq<T>>): (r: seq<T>) {
    if ss == [] then [] else ss[0] + Flatten(ss[1..])
  }

  lemma {:induction false} FlattenMember<T>(ss: seq<seq<T>>, x: T)
    ensures x in Flatten(ss) <==> exists i :: 0 <= i < |ss| && x in ss[i]
  {
    if ss != [] {
      FlattenMember(ss[1..], x);
      if x in Flatten(ss[1..]) {
        var i :| 0 <= i < |ss| - 1 && x in ss[1..][i];
        assert x in ss[i + 1];
      }
      if i :| 1 <= i < |ss| && x in ss[i] {
        assert x in ss[1..][i - 1];
      }
    }
  }

  lemma {:induction false} FlattenLength<T>(ss: seq<seq<T>>, k: nat)
    requires forall i :: 0 <= i < |ss| ==> |ss[i]| == k
    ensures |Flatten(ss)| == |ss| * k
  {
    if ss != [] {
      FlattenLength(ss[1..], k);
    }
  }

  lemma {:induction false} FlattenAppend<T>(a: seq<seq<T>>, b: seq<seq<T>>)
    ensures Flatten(a + b) == Flatten(a) + Flatten(b)
  {
    if a != [] {
      assert (a + b)[1..] == a[1..] + b;
      FlattenAppend(a[1..], b);
    } else {
      assert a + b == b;
    }
  }

  predicate Distinct<T(==)>(s: seq<T>) {
    forall i, j :: 0 <= i < j < |s| ==> s[i] != s[j]
  }

  /** The distinct elements of `s`, in order of first occurrence. */
  function Dedup<T(==,!new)>(s: seq<T>): (r: seq<T>)
    ensures Distinct(r)
    ensures forall x :: x in r <==> x in s
    ensures |r| <= |s|
  {
    if s == [] then []
    else
      var r := Dedup(s[..|s| - 1]);
      assert forall x :: x in s <==> x in s[..|s| - 1] || x == s[|s| - 1] by {
        assert s == s[..|s| - 1] + [s[|s| - 1]];
      }
      if s[|s| - 1] in r then r else r + [s[|s| - 1]]
  }

  /** A distinct sequence is no longer than any sequence holding all its elements. */
  lemma {:induction false} DistinctLength<T>(r: seq<T>, s: seq<T>)
    requires Distinct(r)
    requires forall x :: x in r ==> x in s
    ensures |r| <= |s|
    decreases |r|
  {
    if r != [] {
      var x := r[|r| - 1];
      assert x in r;
      var i :| 0 <= i < |s| && s[i] == x;
      var s' := s[..i] + s[i + 1..];
      var r' := r[..|r| - 1];
      forall y | y in r'
        ensures y in s'
      {
        var j :| 0 <= j < |r'| && r'[j] == y;
        assert y != x;
        assert y in r;
        var k :| 0 <= k < |s| && s[k] == y;
        if k < i { assert s'[k] == y; } else { assert s'[k - 1] == y; }
      }
      DistinctLength(r', s');
    }
  }

  function MinOf(s: seq<int>): (m: int)
    requires |s| > 0
    ensures m in s && forall x :: x in s ==> m <= x
  {
    if |s| == 1 then s[0]
    else
      var t := MinOf(s[1..]);
      assert forall x :: x in s ==> x == s[0] || x in s[1..];
      if s[0] <= t then s[0] else t
  }

  function MaxOf(s: seq<int>): (m: int)
    requires |s| > 0
    ensures m in s && forall x :: x in s ==> x <= m
  {
    if |s| == 1 then s[0]
    else
      var t := MaxOf(s[1..]);
      assert forall x :: x in s ==> x == s[0] || x in s[1..];
      if s[0] >= t then s[0] else t
  }

  /**
   * `groupBy(...).collectList()` for one key: the values of the rows holding
   * key `k`, in row order.
   */
  function Grouped<K(==), V>(keys: seq<K>, vals: seq<V>, k: K): (r: seq<V>)
    requires |keys| == |vals|
    ensures |r| <= |vals|
  {
    if keys == [] then []
    else
      var n := |keys| - 1;
      Grouped(keys[..n], vals[..n], k) + (if keys[n] == k then [vals[n]] else [])
  }

  lemma {:induction false} GroupedMember<K, V>(keys: seq<K>, vals: seq<V>, k: K, x: V)
    requires |keys| == |vals|
    ensures x in Grouped(keys, vals, k) <==> exists j :: 0 <= j < |keys| && keys[j] == k && vals[j] == x
  {
    if keys != [] {
      var n := |keys| - 1;
      GroupedMember(keys[..n], vals[..n], k, x);
      if j :| 0 <= j < n && keys[..n][j] == k && vals[..n][j] == x {
        assert keys[j] == k && vals[j] == x;
      }
      if j :| 0 <= j < n && keys[j] == k && vals[j] == x {
        assert keys[..n][j] == k && vals[..n][j] == x;
      }
    }
  }

  /** When the rows holding `k` are exactly those in [a, b), the group is that slice. */
  lemma {:induction false} GroupedBlock<K, V>(keys: seq<K>, vals: seq<V>, k: K, a: nat, b: nat)
    requires |keys| == |vals| && a <= b <= |keys|
    requires forall j :: 0 <= j < |keys| ==> (keys[j] == k <==> a <= j < b)
    ensures Grouped(keys, vals, k) == vals[a..b]
  {
    if keys != [] {
      var n := |keys| - 1;
      var a', b' := Clamp(a, n), Clamp(b, n);
      BlockInPrefix(keys, k, a, b);
      GroupedBlock(keys[..n], vals[..n], k, a', b');
      BlockExtended(keys, vals, k, a, b);
    }
  }

  function Clamp(a: nat, n: nat): (r: nat)
    ensures r <= n && r <= a && (a <= n ==> r == a)
  {
    if a < n then a else n
  }

  /** Without the last row, the rows holding `k` are the block cut to the prefix. */
  lemma BlockInPrefix<K>(keys: seq<K>, k: K, a: nat, b: nat)
    requires keys != [] && a <= b <= |keys|
    requires forall j :: 0 <= j < |keys| ==> (keys[j] == k <==> a <= j < b)
    ensures var n := |keys| - 1;
            forall j :: 0 <= j < n ==> (keys[..n][j] == k <==> Clamp(a, n) <= j < Clamp(b, n))
  {
    var n := |keys| - 1;
    forall j | 0 <= j < n
      ensures keys[..n][j] == k <==> Clamp(a, n) <= j < Clamp(b, n)
    {
      assert keys[..n][j] == keys[j];
    }
  }

  /** The group of the prefix, then the last row's value when it holds `k`. */
  lemma BlockExtended<K, V>(keys: seq<K>, vals: seq<V>, k: K, a: nat, b: nat)
    requires |keys| == |vals| && keys != [] && a <= b <= |keys|
    requires keys[|keys| - 1] == k <==> a <= |keys| - 1 < b
    requires var n := |keys| - 1;
             Grouped(keys[..n], vals[..n], k) == vals[..n][Clamp(a, n)..Clamp(b, n)]
    ensures Grouped(keys, vals, k) == vals[a..b]
  {
    var n := |keys| - 1;
    GroupedLast(keys, vals, k);
    SliceExtended(vals, Grouped(keys[..n], vals[..n], k), a, b, keys[n] == k);
  }

  lemma GroupedLast<K, V>(keys: seq<K>, vals: seq<V>, k: K)
    requires |keys| == |vals| && keys != []
    ensures var n := |keys| - 1;
            Grouped(keys, vals, k) == Grouped(keys[..n], vals[..n], k) + (if keys[n] == k then [vals[n]] else [])
  {
  }

  /** A slice of the prefix, followed by the last value exactly when the block reaches it. */
  lemma SliceExtended<V>(vals: seq<V>, g: seq<V>, a: nat, b: nat, last: bool)
    requires vals != [] && a <= b <= |vals|
    requires last <==> a <= |vals| - 1 < b
    requires var n := |vals| - 1;
             g == vals[..n][Clamp(a, n)..Clamp(b, n)]
    ensures g + (if last then [vals[|vals| - 1]] else []) == vals[a..b]
  {
    var n := |vals| - 1;
    assert vals[..n][Clamp(a, n)..Clamp(b, n)] == vals[Clamp(a, n)..Clamp(b, n)];
    if last {
      assert vals[a..b] == vals[a..n] + [vals[n]];
    }
  }
}
