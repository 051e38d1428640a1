/**
 * String primitives of the column library as the model reads them.
 *
 * Assumption: `split(d)` cuts a string after every occurrence of `d`, keeping
 * the delimiter at the END of each piece, and produces no empty piece (so a
 * string that ends with `d` has no empty trailing piece). This is the reading
 * under which read-streets.ts removes "the trailing |" of each pair and the
 * `head(id.length - 1)` there lines points up with ids.
 */
module Text {
  import opened Wrappers

  type String = seq<char>

  predicate StartsWith(s: String, p: String) {
    |p| <= |s| && s[..|p|] == p
  }

  predicate EndsWith(s: String, p: String) {
    |p| <= |s| && s[|s| - |p|..] == p
  }

  /** `d` occurs in `s` starting at index `i`. */
  predicate OccursAt(s: String, d: String, i: nat) {
    i + |d| <= |s| && s[i..i + |d|] == d
  }

  predicate Contains(s: String, d: String) {
    exists i: nat | i <= |s| :: OccursAt(s, d, i)
  }

  /** The first index at or after `from` where `d` occurs. */
  function FindFrom(s: String, d: String, from: nat): (r: Option<nat>)
    requires |d| > 0
    decreases |s| - from
    ensures r.Some? ==> (from <= r.value && OccursAt(s, d, r.value)
                         && forall j: nat :: from <= j < r.value ==> !OccursAt(s, d, j))
    ensures r.None? ==> forall j: nat :: from <= j ==> !OccursAt(s, d, j)
  {
    if from + |d| > |s| then None
    else if s[from..from + |d|] == d then Some(from)
    else FindFrom(s, d, from + 1)
  }

  /** The first occurrence of `d` in `s`. */
  function Find(s: String, d: String): (r: Option<nat>)
    requires |d| > 0
    ensures r.Some? ==> OccursAt(s, d, r.value) && forall j: nat :: j < r.value ==> !OccursAt(s, d, j)
    ensures r.None? <==> !Contains(s, d)
  {
    FindFrom(s, d, 0)
  }

  /** `split(d)`: pieces that keep their delimiter at the end. */
  function Split(s: String, d: String): (r: seq<String>)
    requires |d| > 0
    ensures |r| > 0 <==> s != []
    ensures forall k :: 0 <= k < |r| ==> r[k] != []
    decreases |s|
  {
    if s == [] then []
    else match Find(s, d)
      case None => [s]
      case Some(i) => [s[..i + |d|]] + Split(s[i + |d|..], d)
  }

  function Concat(ss: seq<String>): (r: String) {
    if ss == [] then [] else ss[0] + Concat(ss[1..])
  }

  /** `gather([k]).getValue(0)`: the k-th piece, absent when there are fewer. */
  function Piece(ss: seq<String>, k: nat): (r: Option<String>) {
    if k < |ss| then Some(ss[k]) else None
  }

  /** The pieces put back together give the original text. */
  lemma {:induction false} SplitConcat(s: String, d: String)
    requires |d| > 0
    ensures Concat(Split(s, d)) == s
    decreases |s|
  {
    if s != [] {
      match Find(s, d)
      case None =>
      case Some(i) =>
        SplitConcat(s[i + |d|..], d);
        assert s == s[..i + |d|] + s[i + |d|..];
    }
  }

  /** Every piece but the last ends with the delimiter. */
  lemma {:induction false} SplitPieces(s: String, d: String)
    requires |d| > 0
    ensures forall k :: 0 <= k < |Split(s, d)| - 1 ==> EndsWith(Split(s, d)[k], d)
    decreases |s|
  {
    if s != [] {
      match Find(s, d)
      case None =>
      case Some(i) =>
        var p := s[..i + |d|];
        var rest := s[i + |d|..];
        SplitPieces(rest, d);
        assert EndsWith(p, d) by {
          assert p[|p| - |d|..] == s[i..i + |d|];
        }
        assert Split(s, d) == [p] + Split(rest, d);
        PiecesCons(p, Split(rest, d), d);
    }
  }

  /** A piece ending with the delimiter, put in front of such pieces. */
  lemma PiecesCons(p: String, ps: seq<String>, d: String)
    requires EndsWith(p, d)
    requires forall k :: 0 <= k < |ps| - 1 ==> EndsWith(ps[k], d)
    ensures forall k :: 0 <= k < |[p] + ps| - 1 ==> EndsWith(([p] + ps)[k], d)
  {
    var ss := [p] + ps;
    forall k | 0 <= k < |ss| - 1
      ensures EndsWith(ss[k], d)
    {
      if k > 0 { assert ss[k] == ps[k - 1]; }
    }
  }

  /**
   * Pieces that are non-empty and hold the delimiter exactly once, at their
   * end, are what `Split` cuts their concatenation into: the inverse of
   * `SplitConcat`.
   */
  lemma {:induction false} SplitJoin(ps: seq<String>, d: String)
    requires |d| > 0
    requires forall k :: 0 <= k < |ps| ==> EndsWith(ps[k], d)
    requires forall k, j: nat :: 0 <= k < |ps| && j + |d| < |ps[k]| ==> !OccursAt(ps[k], d, j)
    ensures Split(Concat(ps), d) == ps
  {
    if ps != [] {
      var p := ps[0];
      var s := Concat(ps);
      var rest := Concat(ps[1..]);
      assert s == p + rest;
      var i := |p| - |d|;
      assert OccursAt(s, d, i) by {
        assert s[i..i + |d|] == p[i..];
      }
      forall j: nat | j < i
        ensures !OccursAt(s, d, j)
      {
        assert !OccursAt(p, d, j);
        assert s[j..j + |d|] == p[j..j + |d|];
      }
      SplitAtFirst(s, d, i);
      assert s[..i + |d|] == p;
      assert s[i + |d|..] == rest;
      SplitJoin(ps[1..], d);
    }
  }

  /** Text with no occurrence of the delimiter is a single piece. */
  lemma SplitWithout(s: String, d: String)
    requires |d| > 0 && s != [] && !Contains(s, d)
    ensures Split(s, d) == [s]
  {
  }

  /** With `d` occurring first at `i`, the first piece ends right after it. */
  lemma SplitAtFirst(s: String, d: String, i: nat)
    requires |d| > 0 && OccursAt(s, d, i)
    requires forall j: nat :: j < i ==> !OccursAt(s, d, j)
    ensures Split(s, d) == [s[..i + |d|]] + Split(s[i + |d|..], d)
  {
    assert Contains(s, d);
    var f := Find(s, d).value;
    assert !(f < i);
    assert !(i < f);
  }

  /** The first piece is the text up to and including the first delimiter, or all of it. */
  lemma SplitFirst(s: String, d: String)
    requires |d| > 0 && s != []
    ensures Find(s, d).Some? ==> Split(s, d)[0] == s[..Find(s, d).value + |d|]
    ensures Find(s, d).None? ==> Split(s, d)[0] == s
  {
  }

  /** There is a second piece exactly when the delimiter occurs and text follows it. */
  lemma SplitSecond(s: String, d: String)
    requires |d| > 0
    ensures |Split(s, d)| >= 2 <==> Find(s, d).Some? && Find(s, d).value + |d| < |s|
    ensures |Split(s, d)| >= 2 ==>
              Split(s, d)[0] == s[..Find(s, d).value + |d|]
              && Split(s, d)[1] == Split(s[Find(s, d).value + |d|..], d)[0]
  {
  }

  /** The piece up to a delimiter is a prefix of the text, and ends at the first delimiter. */
  lemma FirstPieceIsPrefix(s: String, d: String)
    requires |d| > 0 && s != []
    ensures StartsWith(s, Split(s, d)[0])
    ensures forall j: nat :: j + |d| < |Split(s, d)[0]| ==> !OccursAt(Split(s, d)[0], d, j)
  {
    SplitFirst(s, d);
    var p := Split(s, d)[0];
    forall j: nat | j + |d| < |p|
      ensures !OccursAt(p, d, j)
    {
      match Find(s, d)
      case None =>
        assert p == s;
        assert !OccursAt(s, d, j);
      case Some(i) =>
        assert p == s[..i + |d|];
        assert |p| == i + |d|;
        assert forall t :: j <= t < j + |d| ==> s[t] == p[t];
        assert s[j..j + |d|] == p[j..j + |d|];
        assert j < i;
        assert !OccursAt(s, d, j);
    }
  }

  /** The first piece ends with the delimiter when there is one, and is the whole text otherwise. */
  lemma FirstPieceEnds(s: String, d: String)
    requires |d| > 0 && s != []
    ensures Contains(s, d) ==> EndsWith(Split(s, d)[0], d)
    ensures !Contains(s, d) ==> Split(s, d)[0] == s
  {
    SplitFirst(s, d);
    if Contains(s, d) {
      var i := Find(s, d).value;
      var p := Split(s, d)[0];
      assert p == s[..i + |d|];
      assert p[|p| - |d|..] == s[i..i + |d|];
    }
  }

  /** Slicing a prefix of `s` at `a` gives the slices of `s` below and from `a`. */
  lemma PrefixSlices(s: String, n: nat, a: nat)
    requires a <= n <= |s|
    ensures s[..n][a..] == s[a..n] && s[..n][..a] == s[..a]
  {
  }

  /**
   * Splitting the prefix `s[..n]` into at least two pieces: the first
   * occurrence of `d` in `s` ends inside the prefix, piece 0 is the text up
   * to it and piece 1 starts right after it.
   */
  lemma StageInPrefix(s: String, n: nat, d: String)
    requires |d| > 0 && n <= |s| && |Split(s[..n], d)| >= 2
    ensures Find(s, d).Some? && Find(s, d).value + |d| < n
    ensures Split(s[..n], d)[0] == s[..Find(s, d).value + |d|]
    ensures StartsWith(s[Find(s, d).value + |d|..n], Split(s[..n], d)[1])
  {
    StageFound(s, n, d);
    StageFirstPiece(s, n, d);
    StageSecondPiece(s, n, d);
  }

  lemma StageFound(s: String, n: nat, d: String)
    requires |d| > 0 && n <= |s| && |Split(s[..n], d)| >= 2
    ensures Find(s, d).Some? && Find(s, d).value + |d| < n
    ensures Find(s, d) == Find(s[..n], d)
  {
    SplitSecond(s[..n], d);
    FindInPrefix(s, d, n);
  }

  lemma StageFirstPiece(s: String, n: nat, d: String)
    requires |d| > 0 && n <= |s| && |Split(s[..n], d)| >= 2
    ensures Find(s, d).Some? && Find(s, d).value + |d| < n
    ensures Split(s[..n], d)[0] == s[..Find(s, d).value + |d|]
  {
    StageFound(s, n, d);
    var t := s[..n];
    var a := Find(s, d).value + |d|;
    assert Split(t, d)[0] == t[..a] by {
      SplitFirst(t, d);
    }
    assert t[..a] == s[..a];
  }

  lemma StageSecondPiece(s: String, n: nat, d: String)
    requires |d| > 0 && n <= |s| && |Split(s[..n], d)| >= 2
    ensures Find(s, d).Some? && Find(s, d).value + |d| < n
    ensures StartsWith(s[Find(s, d).value + |d|..n], Split(s[..n], d)[1])
  {
    StageFound(s, n, d);
    var i := Find(s, d).value;
    SplitSecond(s[..n], d);
    PrefixSlices(s, n, i + |d|);
    FirstPieceIsPrefix(s[i + |d|..n], d);
  }

  /** The first occurrence inside a prefix is the first occurrence in the whole text. */
  lemma FindInPrefix(s: String, d: String, n: nat)
    requires |d| > 0 && n <= |s|
    requires Find(s[..n], d).Some?
    ensures Find(s, d) == Find(s[..n], d)
  {
    var i := Find(s[..n], d).value;
    assert s[i..i + |d|] == s[..n][i..i + |d|];
    assert OccursAt(s, d, i);
    var f := Find(s, d);
    assert f.Some? by { assert Contains(s, d); }
    var k := f.value;
    assert k <= i;
    assert s[..n][k..k + |d|] == s[k..k + |d|];
    assert OccursAt(s[..n], d, k);
    assert k >= i;
  }
}
