/**
 * NYC street centerlines (modules/nyc-taxi/src/read-streets.ts): keep the
 * rows whose geometry is a WKT MULTILINESTRING (OGC Simple Features
 * well-known text), rewrite each geometry into "x y|x y|...", number the
 * points of each row with a scatter-and-scan, split the points into
 * coordinates and group them into one line per row and one list of lines
 * per street name.
 *
 * Reading the CSV file is left out: the rows are a parameter. Casting the
 * coordinate text to Float32 is a parameter `parse`.
 */
module ReadStreets {
  import opened Wrappers
  import opened Text
  import opened Columns
  import opened Seqs
  import opened Sorting

  const MultiLineString: String := "MULTILINESTRING"

  /** The regex class `\s`: space, tab, newline, vertical tab, form feed, carriage return. */
  predicate IsSpace(c: char) {
    c == ' ' || c == '\t' || c == '\n' || c == '\U{000B}' || c == '\U{000C}' || c == '\r'
  }

  // ---------------------------------------------------------------------
  // The four `replaceRe` passes; each replaces every match, left to right

  /** `replaceRe(/MULTILINESTRING\s?/, '')`. */
  function StripKeyword(s: String): (r: String)
    ensures |r| <= |s|
    decreases |s|
  {
    if s == [] then []
    else if StartsWith(s, MultiLineString) then
      var rest := s[|MultiLineString|..];
      if rest != [] && IsSpace(rest[0]) then StripKeyword(rest[1..]) else StripKeyword(rest)
    else [s[0]] + StripKeyword(s[1..])
  }

  /** `replaceRe(/\(/, '')`. */
  function RemoveOpen(s: String): (r: String)
    ensures forall k :: 0 <= k < |r| ==> r[k] != '('
    ensures forall c :: c in r <==> c in s && c != '('
  {
    if s == [] then []
    else
      assert forall c :: c in s <==> c == s[0] || c in s[1..] by {
        assert s == [s[0]] + s[1..];
      }
      (if s[0] == '(' then [] else [s[0]]) + RemoveOpen(s[1..])
  }

  /** `replaceRe(/\)\)/, '|')`. */
  function ReplaceClose(s: String): (r: String) {
    if |s| >= 2 && s[0] == ')' && s[1] == ')' then "|" + ReplaceClose(s[2..])
    else if s == [] then []
    else [s[0]] + ReplaceClose(s[1..])
  }

  /** `replaceRe(/,\s/, '|')`. */
  function ReplaceSeparator(s: String): (r: String) {
    if |s| >= 2 && s[0] == ',' && IsSpace(s[1]) then "|" + ReplaceSeparator(s[2..])
    else if s == [] then []
    else [s[0]] + ReplaceSeparator(s[1..])
  }

  /** The rewrite of one geometry, in the order the passes run. */
  function Rewrite(geom: String): (r: String) {
    ReplaceSeparator(ReplaceClose(RemoveOpen(StripKeyword(geom))))
  }

  // ---------------------------------------------------------------------
  // Single-part geometries

  /** A coordinate pair's text: digits, sign, point and the space between the two numbers. */
  predicate IsPointChar(c: char) {
    ('0' <= c <= '9') || c == '-' || c == '.' || c == ' '
  }

  predicate PointText(p: String) {
    p != [] && forall k :: 0 <= k < |p| ==> IsPointChar(p[k])
  }

  /** `p1, p2, ..., pk`: the pairs of one linestring as WKT writes them. */
  function JoinPairs(ps: seq<String>): (r: String)
    requires |ps| > 0
  {
    if |ps| == 1 then ps[0] else ps[0] + ", " + JoinPairs(ps[1..])
  }

  /** `MULTILINESTRING ((p1, ..., pk))`: a geometry with a single part. */
  function SinglePart(ps: seq<String>): (r: String)
    requires |ps| > 0
  {
    MultiLineString + " " + Parenthesized(JoinPairs(ps))
  }

  function Parenthesized(j: String): (r: String) {
    "((" + j + "))"
  }

  /** `p1|p2|...|pk|`: every pair followed by the separator. */
  function Terminated(ps: seq<String>): (r: String) {
    if ps == [] then [] else ps[0] + "|" + Terminated(ps[1..])
  }

  predicate NoChar(s: String, c: char) {
    forall k :: 0 <= k < |s| ==> s[k] != c
  }

  lemma {:induction false} JoinPairsChars(ps: seq<String>)
    requires |ps| > 0 && forall i :: 0 <= i < |ps| ==> PointText(ps[i])
    ensures forall k :: 0 <= k < |JoinPairs(ps)| ==> IsPointChar(JoinPairs(ps)[k]) || JoinPairs(ps)[k] == ','
  {
    if |ps| > 1 {
      JoinPairsChars(ps[1..]);
      var t := JoinPairs(ps[1..]);
      var j := ps[0] + ", " + t;
      assert JoinPairs(ps) == j;
      forall k | 0 <= k < |j|
        ensures IsPointChar(j[k]) || j[k] == ','
      {
        if k < |ps[0]| {
          assert j[k] == ps[0][k];
        } else if k >= |ps[0]| + 2 {
          assert j[k] == t[k - |ps[0]| - 2];
        }
      }
    }
  }

  lemma {:induction false} StripKeywordNone(s: String)
    requires NoChar(s, 'M')
    ensures StripKeyword(s) == s
  {
    if s != [] {
      assert !StartsWith(s, MultiLineString) by {
        assert s[0] != MultiLineString[0];
      }
      StripKeywordNone(s[1..]);
    }
  }

  lemma {:induction false} RemoveOpenAppend(a: String, b: String)
    ensures RemoveOpen(a + b) == RemoveOpen(a) + RemoveOpen(b)
  {
    if a != [] {
      assert (a + b)[1..] == a[1..] + b;
      RemoveOpenAppend(a[1..], b);
    } else {
      assert a + b == b;
    }
  }

  lemma {:induction false} RemoveOpenNone(s: String)
    requires NoChar(s, '(')
    ensures RemoveOpen(s) == s
  {
    if s != [] {
      RemoveOpenNone(s[1..]);
    }
  }

  lemma {:induction false} ReplaceCloseSkip(a: String, b: String)
    requires NoChar(a, ')')
    ensures ReplaceClose(a + b) == a + ReplaceClose(b)
  {
    if a != [] {
      assert (a + b)[0] == a[0];
      assert (a + b)[1..] == a[1..] + b;
      ReplaceCloseSkip(a[1..], b);
    } else {
      assert a + b == b;
    }
  }

  lemma {:induction false} ReplaceSeparatorSkip(a: String, b: String)
    requires NoChar(a, ',')
    ensures ReplaceSeparator(a + b) == a + ReplaceSeparator(b)
  {
    if a != [] {
      assert (a + b)[0] == a[0];
      assert (a + b)[1..] == a[1..] + b;
      ReplaceSeparatorSkip(a[1..], b);
    } else {
      assert a + b == b;
    }
  }

  lemma {:induction false} SeparatorsReplaced(ps: seq<String>)
    requires |ps| > 0 && forall i :: 0 <= i < |ps| ==> PointText(ps[i])
    ensures ReplaceSeparator(JoinPairs(ps) + "|") == Terminated(ps)
  {
    var p := ps[0];
    assert NoChar(p, ',') by {
      assert PointText(p);
    }
    if |ps| == 1 {
      assert JoinPairs(ps) + "|" == p + "|";
      ReplaceSeparatorSkip(p, "|");
      assert ReplaceSeparator("|") == "|" + ReplaceSeparator([]);
      assert Terminated(ps[1..]) == [];
    } else {
      var rest := JoinPairs(ps[1..]) + "|";
      assert JoinPairs(ps) + "|" == p + (", " + rest);
      SeparatorStep(p, rest);
      SeparatorsReplaced(ps[1..]);
      assert Terminated(ps) == p + "|" + Terminated(ps[1..]);
    }
  }

  /** A pair followed by ", " has the separator put in its place. */
  lemma SeparatorStep(p: String, rest: String)
    requires NoChar(p, ',')
    ensures ReplaceSeparator(p + (", " + rest)) == p + "|" + ReplaceSeparator(rest)
  {
    ReplaceSeparatorSkip(p, ", " + rest);
    assert (", " + rest)[2..] == rest;
    assert ReplaceSeparator(", " + rest) == "|" + ReplaceSeparator(rest);
  }

  /** The first pass on `MULTILINESTRING ` followed by text without an `M` drops just the keyword. */
  lemma KeywordDropped(t: String)
    requires NoChar(t, 'M')
    ensures StripKeyword(MultiLineString + " " + t) == t
  {
    var g := MultiLineString + " " + t;
    assert StartsWith(g, MultiLineString);
    assert g[|MultiLineString|..] == " " + t;
    assert (" " + t)[1..] == t;
    StripKeywordNone(t);
  }

  lemma ParenthesesNoM(j: String)
    requires forall k :: 0 <= k < |j| ==> IsPointChar(j[k]) || j[k] == ','
    ensures NoChar(Parenthesized(j), 'M')
  {
    var t := "((" + j + "))";
    forall k | 0 <= k < |t|
      ensures t[k] != 'M'
    {
      if 2 <= k < 2 + |j| {
        assert t[k] == j[k - 2];
      }
    }
  }

  lemma KeywordStripped(ps: seq<String>)
    requires |ps| > 0 && forall i :: 0 <= i < |ps| ==> PointText(ps[i])
    ensures StripKeyword(SinglePart(ps)) == Parenthesized(JoinPairs(ps))
  {
    var j := JoinPairs(ps);
    JoinPairsChars(ps);
    ParenthesesNoM(j);
    KeywordDropped(Parenthesized(j));
  }

  lemma OpenRemoved(j: String)
    requires NoChar(j, '(')
    ensures RemoveOpen(Parenthesized(j)) == j + "))"
  {
    RemoveOpenAppend("((", j + "))");
    RemoveOpenAppend(j, "))");
    RemoveOpenNone(j);
    assert RemoveOpen("((") == [];
    assert RemoveOpen("))") == "))";
    assert "((" + j + "))" == "((" + (j + "))");
  }

  lemma CloseReplaced(j: String)
    requires NoChar(j, ')')
    ensures ReplaceClose(j + "))") == j + "|"
  {
    ReplaceCloseSkip(j, "))");
    assert ReplaceClose("))") == "|" + ReplaceClose([]);
  }

  /** The second and third passes on a parenthesized body without parentheses. */
  lemma RewriteStages(g: String, j: String)
    requires StripKeyword(g) == Parenthesized(j)
    requires NoChar(j, '(') && NoChar(j, ')')
    ensures Rewrite(g) == ReplaceSeparator(j + "|")
  {
    OpenRemoved(j);
    CloseReplaced(j);
  }

  lemma JoinPairsPlain(ps: seq<String>)
    requires |ps| > 0 && forall i :: 0 <= i < |ps| ==> PointText(ps[i])
    ensures NoChar(JoinPairs(ps), '(') && NoChar(JoinPairs(ps), ')')
  {
    JoinPairsChars(ps);
  }

  /**
   * A single-part geometry `MULTILINESTRING ((p1, ..., pk))` is rewritten to
   * `p1|...|pk|`. (With several parts the `)` between them is left behind.)
   */
  lemma RewriteSinglePart(ps: seq<String>)
    requires |ps| > 0 && forall i :: 0 <= i < |ps| ==> PointText(ps[i])
    ensures Rewrite(SinglePart(ps)) == Terminated(ps)
  {
    SinglePartStages(ps);
    RewriteChain(SinglePart(ps), JoinPairs(ps), Terminated(ps));
  }

  /** What the first pass and the last pass do to a single-part geometry. */
  lemma SinglePartStages(ps: seq<String>)
    requires |ps| > 0 && forall i :: 0 <= i < |ps| ==> PointText(ps[i])
    ensures StripKeyword(SinglePart(ps)) == Parenthesized(JoinPairs(ps))
    ensures NoChar(JoinPairs(ps), '(') && NoChar(JoinPairs(ps), ')')
    ensures ReplaceSeparator(JoinPairs(ps) + "|") == Terminated(ps)
  {
    KeywordStripped(ps);
    JoinPairsPlain(ps);
    SeparatorsReplaced(ps);
  }

  /** The four passes, given what each of them does to a parenthesized body. */
  lemma RewriteChain(g: String, j: String, t: String)
    requires StripKeyword(g) == Parenthesized(j)
    requires NoChar(j, '(') && NoChar(j, ')')
    requires ReplaceSeparator(j + "|") == t
    ensures Rewrite(g) == t
  {
    RewriteStages(g, j);
  }

  // ---------------------------------------------------------------------
  // Line ids: `countRe`, `cumulativeSum`, `scatter` and a second `cumulativeSum`

  /** `countRe(/\|/)`: how many separators a rewritten geometry holds. */
  function CountChar(s: String, c: char): (n: nat)
    ensures n <= |s|
  {
    if s == [] then 0 else (if s[0] == c then 1 else 0) + CountChar(s[1..], c)
  }

  lemma {:induction false} CountCharAppend(a: String, b: String, c: char)
    ensures CountChar(a + b, c) == CountChar(a, c) + CountChar(b, c)
  {
    if a != [] {
      assert (a + b)[1..] == a[1..] + b;
      CountCharAppend(a[1..], b, c);
    } else {
      assert a + b == b;
    }
  }

  lemma {:induction false} CountCharNone(s: String, c: char)
    requires NoChar(s, c)
    ensures CountChar(s, c) == 0
  {
    if s != [] {
      CountCharNone(s[1..], c);
    }
  }

  /** A terminated list of k pairs holds exactly k separators. */
  lemma {:induction false} CountTerminated(ps: seq<String>)
    requires forall i :: 0 <= i < |ps| ==> PointText(ps[i])
    ensures CountChar(Terminated(ps), '|') == |ps|
  {
    if ps != [] {
      assert NoChar(ps[0], '|') by {
        assert PointText(ps[0]);
      }
      assert Terminated(ps) == ps[0] + ("|" + Terminated(ps[1..]));
      CountCharAppend(ps[0], "|" + Terminated(ps[1..]), '|');
      CountCharAppend("|", Terminated(ps[1..]), '|');
      assert CountChar("|", '|') == 1 + CountChar([], '|');
      CountCharNone(ps[0], '|');
      CountTerminated(ps[1..]);
    }
  }

  function Sum(xs: seq<nat>): (r: nat) {
    if xs == [] then 0 else Sum(xs[..|xs| - 1]) + xs[|xs| - 1]
  }

  /** `cumulativeSum()`: the inclusive prefix sums. */
  function CumSum(xs: seq<nat>): (r: seq<nat>)
    ensures |r| == |xs|
  {
    seq(|xs|, i requires 0 <= i < |xs| => Sum(xs[..i + 1]))
  }

  /** `scatter(v, idx)`: the positions listed in `idx` take the value `v`. */
  function Scatter(base: seq<nat>, v: nat, idx: seq<nat>): (r: seq<nat>)
    ensures |r| == |base|
  {
    seq(|base|, t requires 0 <= t < |base| => if t in idx then v else base[t])
  }

  /** A 1 at every inclusive sum, in `sums.max() + 1` zeros. */
  function Marks(counts: seq<nat>): (r: seq<nat>)
    requires counts != []
    ensures |r| == MaxOf(CumSum(counts)) + 1
  {
    var sums := CumSum(counts);
    Scatter(seq(MaxOf(sums) + 1, _ => 0), 1, sums)
  }

  /**
   * The point ids of the rows, one slot more than there are points. With no
   * row there is no maximum sum and no ids.
   */
  function LineIds(counts: seq<nat>): (r: Option<seq<nat>>)
    ensures r.None? <==> counts == []
  {
    if counts == [] then None else Some(CumSum(Marks(counts)))
  }

  /** The first point of row i: the separators of the rows before it. */
  function Start(counts: seq<nat>, i: nat): (r: nat)
    requires i <= |counts|
  {
    Sum(counts[..i])
  }

  /** One past the last point of row i: its inclusive sum. */
  function End(counts: seq<nat>, i: nat): (r: nat)
    requires i < |counts|
  {
    Start(counts, i + 1)
  }

  predicate AllPositive(counts: seq<nat>) {
    forall i :: 0 <= i < |counts| ==> counts[i] >= 1
  }

  lemma SumStep(xs: seq<nat>, j: nat)
    requires j < |xs|
    ensures Sum(xs[..j + 1]) == Sum(xs[..j]) + xs[j]
  {
    assert xs[..j + 1][..j] == xs[..j];
  }

  lemma {:induction false} StartMonotone(counts: seq<nat>, a: nat, b: nat)
    requires a <= b <= |counts|
    ensures Start(counts, a) <= Start(counts, b)
    ensures AllPositive(counts) ==> Start(counts, a) + (b - a) <= Start(counts, b)
    decreases b - a
  {
    if a < b {
      StartMonotone(counts, a, b - 1);
      SumStep(counts, b - 1);
    }
  }

  lemma SumsAscending(counts: seq<nat>)
    requires counts != []
    ensures MaxOf(CumSum(counts)) == Start(counts, |counts|)
    ensures forall k :: 0 <= k < |counts| ==> CumSum(counts)[k] == End(counts, k)
  {
    var sums := CumSum(counts);
    var m := |counts|;
    assert counts[..m] == counts;
    forall k | 0 <= k < m
      ensures sums[k] <= sums[m - 1]
    {
      StartMonotone(counts, k + 1, m);
    }
    assert sums[m - 1] in sums;
    var mx := MaxOf(sums);
    var t :| 0 <= t < m && sums[t] == mx;
  }

  /** A position is marked exactly when it is the end of some row. */
  lemma MarkAt(counts: seq<nat>, t: nat)
    requires counts != [] && t < |Marks(counts)|
    ensures Marks(counts)[t] == 1 <==> exists k :: 0 <= k < |counts| && End(counts, k) == t
    ensures Marks(counts)[t] == 0 || Marks(counts)[t] == 1
  {
    SumsAscending(counts);
    var sums := CumSum(counts);
    if k :| 0 <= k < |counts| && End(counts, k) == t {
      assert sums[k] == t;
    }
  }

  /** The second scan adds one mark per position. */
  lemma IdStep(counts: seq<nat>, j: nat)
    requires counts != [] && j < |Marks(counts)|
    ensures |LineIds(counts).value| == |Marks(counts)|
    ensures LineIds(counts).value[j] == (if j == 0 then 0 else LineIds(counts).value[j - 1]) + Marks(counts)[j]
  {
    var marks := Marks(counts);
    var ids := CumSum(marks);
    if j == 0 {
      assert ids[0] == Sum(marks[..1]);
      assert marks[..1][..0] == [];
      assert Sum(marks[..1]) == Sum(marks[..1][..0]) + marks[0];
    } else {
      SumStep(marks, j);
    }
  }

  /** Positions strictly inside a row, and position 0, are not the end of any row. */
  lemma Unmarked(counts: seq<nat>, i: nat, j: nat)
    requires AllPositive(counts) && i < |counts|
    requires Start(counts, i) < j < End(counts, i) || j == 0
    ensures forall k :: 0 <= k < |counts| ==> End(counts, k) != j
  {
    forall k | 0 <= k < |counts|
      ensures End(counts, k) != j
    {
      StartMonotone(counts, 0, k + 1);
      if k < i {
        StartMonotone(counts, k + 1, i);
      } else {
        StartMonotone(counts, i + 1, k + 1);
      }
    }
  }

  /** Point j of row i gets id i. */
  lemma {:induction false} IdAt(counts: seq<nat>, i: nat, j: nat)
    requires AllPositive(counts) && i < |counts|
    requires Start(counts, i) <= j < End(counts, i)
    ensures j < |LineIds(counts).value| && LineIds(counts).value[j] == i
    decreases j
  {
    IdBound(counts, i, j);
    IdStep(counts, j);
    if j == 0 {
      StartMonotone(counts, 0, i);
      Unmarked(counts, i, j);
      MarkAt(counts, j);
    } else if j == Start(counts, i) {
      StartMonotone(counts, 0, i);
      SumStep(counts, i - 1);
      IdAt(counts, i - 1, j - 1);
      assert End(counts, i - 1) == j;
      MarkAt(counts, j);
    } else {
      IdAt(counts, i, j - 1);
      Unmarked(counts, i, j);
      MarkAt(counts, j);
    }
  }

  /** A point of some row has a slot among the marks. */
  lemma IdBound(counts: seq<nat>, i: nat, j: nat)
    requires i < |counts| && j < End(counts, i)
    ensures j < |Marks(counts)|
  {
    SumsAscending(counts);
    StartMonotone(counts, i + 1, |counts|);
  }

  /** Every point belongs to some row. */
  lemma {:induction false} RowOf(counts: seq<nat>, j: nat)
    requires j < Start(counts, |counts|)
    ensures exists i :: 0 <= i < |counts| && Start(counts, i) <= j < End(counts, i)
    decreases |counts|
  {
    var m := |counts|;
    var init := counts[..m - 1];
    SumStep(counts, m - 1);
    assert counts[..m] == counts;
    if j < Start(counts, m - 1) {
      assert init[..m - 1] == init;
      RowOf(init, j);
      var i :| 0 <= i < |init| && Start(init, i) <= j < End(init, i);
      assert init[..i] == counts[..i] && init[..i + 1] == counts[..i + 1];
      assert Start(counts, i) <= j < End(counts, i);
    } else {
      assert Start(counts, m - 1) <= j < End(counts, m - 1);
    }
  }

  lemma IdIffRow(counts: seq<nat>, i: nat, j: nat)
    requires counts != [] && AllPositive(counts)
    requires i < |counts| && j < Start(counts, |counts|)
    ensures j < |LineIds(counts).value|
    ensures LineIds(counts).value[j] == i <==> Start(counts, i) <= j < End(counts, i)
  {
    RowOf(counts, j);
    var k :| 0 <= k < |counts| && Start(counts, k) <= j < End(counts, k);
    IdAt(counts, k, j);
    if i < k {
      StartMonotone(counts, i + 1, k);
    } else if i > k {
      StartMonotone(counts, k + 1, i);
    }
  }

  lemma LastSlot(counts: seq<nat>)
    requires counts != [] && AllPositive(counts)
    ensures |LineIds(counts).value| == Start(counts, |counts|) + 1
    ensures LineIds(counts).value[Start(counts, |counts|)] == |counts|
  {
    var m := |counts|;
    var last := Start(counts, m);
    SumsAscending(counts);
    SumStep(counts, m - 1);
    assert counts[..m] == counts;
    IdAt(counts, m - 1, last - 1);
    MarkAt(counts, last);
    assert End(counts, m - 1) == last;
    SumStep(Marks(counts), last);
  }

  /**
   * With at least one separator in every row, the id scan numbers the
   * points row by row: point j gets id i exactly when
   * Start(i) <= j < End(i). The sequence has one slot more than there
   * are points; that last slot holds the number of rows.
   */
  lemma LineIdsBlocks(counts: seq<nat>)
    requires counts != [] && AllPositive(counts)
    ensures LineIds(counts).Some?
    ensures |LineIds(counts).value| == Start(counts, |counts|) + 1
    ensures forall i, j :: 0 <= i < |counts| && 0 <= j < Start(counts, |counts|) ==>
              (LineIds(counts).value[j] == i <==> Start(counts, i) <= j < End(counts, i))
    ensures LineIds(counts).value[Start(counts, |counts|)] == |counts|
  {
    LastSlot(counts);
    forall i, j | 0 <= i < |counts| && 0 <= j < Start(counts, |counts|)
      ensures LineIds(counts).value[j] == i <==> Start(counts, i) <= j < End(counts, i)
    {
      IdIffRow(counts, i, j);
    }
  }

  // ---------------------------------------------------------------------
  // Points: `split('|')`, `replaceRe(/\|/, '')`, `partition(' ')`, cast

  datatype Point = Point(x: Float, y: Float)

  /** `partition(' ')`: the text before the first space and the text after it. */
  function Partition(s: String): (r: (String, String))
    ensures ' ' !in r.0
    ensures ' ' in s ==> s == r.0 + " " + r.1
    ensures ' ' !in s ==> r == (s, [])
  {
    if s == [] then ([], [])
    else if s[0] == ' ' then ([], s[1..])
    else
      var t := Partition(s[1..]);
      assert s == [s[0]] + s[1..];
      ([s[0]] + t.0, t.1)
  }

  /** `replaceRe(/\|/, '')`: every `c` removed. */
  function RemoveChar(s: String, c: char): (r: String)
    ensures c !in r
    ensures forall a :: a != c ==> (a in r <==> a in s)
  {
    if s == [] then []
    else
      assert s == [s[0]] + s[1..];
      (if s[0] == c then [] else [s[0]]) + RemoveChar(s[1..], c)
  }

  /** The two coordinates of a pair's text, each cast by `parse`. */
  function Coordinates(p: String, parse: String -> Float): (r: Point) {
    var xy := Partition(p);
    Point(parse(xy.0), parse(xy.1))
  }

  /** One piece of the split: the separator removed, then the pair's coordinates. */
  function PointOf(piece: String, parse: String -> Float): (r: Point) {
    Coordinates(RemoveChar(piece, '|'), parse)
  }

  /** The points of one rewritten row, one per piece. */
  function RowPoints(r: String, parse: String -> Float): (pts: seq<Point>)
    ensures |pts| == |Split(r, "|")|
  {
    var pieces := Split(r, "|");
    seq(|pieces|, k requires 0 <= k < |pieces| => PointOf(pieces[k], parse))
  }

  function PointRows(rw: seq<String>, parse: String -> Float): (r: seq<seq<Point>>)
    ensures |r| == |rw| && forall i :: 0 <= i < |rw| ==> r[i] == RowPoints(rw[i], parse)
  {
    seq(|rw|, i requires 0 <= i < |rw| => RowPoints(rw[i], parse))
  }

  /** `split('|')` flattens the rows: the points of all rows, row after row. */
  function FlatPoints(rw: seq<String>, parse: String -> Float): (r: seq<Point>) {
    Flatten(PointRows(rw, parse))
  }

  /** The points a linestring's pairs stand for. */
  function LinePoints(ps: seq<String>, parse: String -> Float): (r: seq<Point>)
    ensures |r| == |ps|
  {
    seq(|ps|, k requires 0 <= k < |ps| => Coordinates(ps[k], parse))
  }

  function Identity(v: nat): (r: int) {
    v
  }

  /**
   * `groupBy({ by: 'id' }).collectList().sortValues({ id: ascending })`:
   * one list per distinct id, in ascending id order, each holding that id's
   * points in row order.
   */
  function GroupById(ids: seq<nat>, pts: seq<Point>): (r: seq<seq<Point>>)
    requires |ids| == |pts|
    ensures |r| == |Dedup(ids)|
  {
    var keys := SortBy(Dedup(ids), Identity);
    seq(|keys|, i requires 0 <= i < |keys| => Grouped(ids, pts, keys[i]))
  }

  function Rewritten(geoms: seq<String>): (rw: seq<String>)
    ensures |rw| == |geoms| && forall i :: 0 <= i < |geoms| ==> rw[i] == Rewrite(geoms[i])
  {
    seq(|geoms|, i requires 0 <= i < |geoms| => Rewrite(geoms[i]))
  }

  function SeparatorCounts(rw: seq<String>): (counts: seq<nat>)
    ensures |counts| == |rw| && forall i :: 0 <= i < |rw| ==> counts[i] == CountChar(rw[i], '|')
  {
    seq(|rw|, i requires 0 <= i < |rw| => CountChar(rw[i], '|'))
  }

  /**
   * `parseLineStrings`: rewrite, count, number and split the rows, then
   * group the points by id. With no row there are no sums to take the
   * maximum of; points that do not line up with the ids (the last slot
   * aside) cannot be put into one table. Both are `None`.
   */
  function ParseLineStrings(geoms: seq<String>, parse: String -> Float): (r: Option<seq<seq<Point>>>)
    ensures geoms == [] ==> r.None?
  {
    var rw := Rewritten(geoms);
    match LineIds(SeparatorCounts(rw))
    case None => None
    case Some(ids) =>
      var pts := FlatPoints(rw, parse);
      if |pts| + 1 != |ids| then None
      else Some(GroupById(ids[..|pts|], pts))
  }

  // ---------------------------------------------------------------------
  // Lemmas: from WKT pairs to grouped points

  /** `"x y"` with no space in `x` is partitioned into `x` and `y`. */
  lemma {:induction false} PartitionAtSpace(x: String, y: String)
    requires ' ' !in x
    ensures Partition(x + " " + y) == (x, y)
  {
    var p := x + " " + y;
    if x == [] {
      assert p == [' '] + y;
    } else {
      assert p[0] == x[0];
      assert p[1..] == x[1..] + " " + y;
      PartitionAtSpace(x[1..], y);
      assert x == [x[0]] + x[1..];
    }
  }

  /** `"x y"` with no space in `x` stands for the point (parse(x), parse(y)). */
  lemma CoordinatesOf(x: String, y: String, parse: String -> Float)
    requires ' ' !in x
    ensures Coordinates(x + " " + y, parse) == Point(parse(x), parse(y))
  {
    PartitionAtSpace(x, y);
  }

  lemma {:induction false} RemoveCharNone(s: String, c: char)
    requires c !in s
    ensures RemoveChar(s, c) == s
  {
    if s != [] {
      assert s == [s[0]] + s[1..];
      RemoveCharNone(s[1..], c);
    }
  }

  /** Removing the separator from a pair that ends with it gives back the pair. */
  lemma {:induction false} RemoveTrailing(p: String, c: char)
    requires c !in p
    ensures RemoveChar(p + [c], c) == p
  {
    var q := p + [c];
    if p == [] {
      assert q == [c] && q[1..] == [];
    } else {
      assert q[0] == p[0] != c;
      assert q[1..] == p[1..] + [c];
      RemoveTrailing(p[1..], c);
      assert RemoveChar(q, c) == [p[0]] + p[1..];
      assert p == [p[0]] + p[1..];
    }
  }

  /** The pairs, each with its separator. */
  function Pieces(ps: seq<String>): (r: seq<String>)
    ensures |r| == |ps|
  {
    seq(|ps|, k requires 0 <= k < |ps| => ps[k] + "|")
  }

  lemma {:induction false} ConcatPieces(ps: seq<String>)
    ensures Concat(Pieces(ps)) == Terminated(ps)
  {
    if ps != [] {
      assert Pieces(ps)[1..] == Pieces(ps[1..]);
      ConcatPieces(ps[1..]);
    }
  }

  lemma PiecesEnd(ps: seq<String>)
    ensures forall k :: 0 <= k < |ps| ==> EndsWith(Pieces(ps)[k], "|")
  {
    forall k | 0 <= k < |ps|
      ensures EndsWith(Pieces(ps)[k], "|")
    {
      var q := ps[k] + "|";
      assert q[|q| - 1..] == "|";
    }
  }

  lemma PieceOnce(p: String, j: nat)
    requires PointText(p) && j < |p|
    ensures !OccursAt(p + "|", "|", j)
  {
    var q := p + "|";
    assert q[j] == p[j];
    assert q[j..j + 1][0] == q[j];
  }

  lemma PiecesOnce(ps: seq<String>)
    requires forall i :: 0 <= i < |ps| ==> PointText(ps[i])
    ensures forall k, j: nat :: 0 <= k < |ps| && j + 1 < |Pieces(ps)[k]| ==> !OccursAt(Pieces(ps)[k], "|", j)
  {
    forall k, j: nat | 0 <= k < |ps| && j + 1 < |Pieces(ps)[k]|
      ensures !OccursAt(Pieces(ps)[k], "|", j)
    {
      PieceOnce(ps[k], j);
    }
  }

  /** Splitting a terminated list of pairs gives back the pairs, each with its separator. */
  lemma SplitTerminated(ps: seq<String>)
    requires forall i :: 0 <= i < |ps| ==> PointText(ps[i])
    ensures Split(Terminated(ps), "|") == Pieces(ps)
  {
    ConcatPieces(ps);
    PiecesEnd(ps);
    PiecesOnce(ps);
    SplitJoin(Pieces(ps), "|");
  }

  /** The points of a terminated row are the points of its pairs. */
  lemma RowPointsTerminated(ps: seq<String>, parse: String -> Float)
    requires forall i :: 0 <= i < |ps| ==> PointText(ps[i])
    ensures RowPoints(Terminated(ps), parse) == LinePoints(ps, parse)
  {
    SplitTerminated(ps);
    forall k | 0 <= k < |ps|
      ensures PointOf(ps[k] + "|", parse) == Coordinates(ps[k], parse)
    {
      assert '|' !in ps[k] by {
        assert PointText(ps[k]);
      }
      RemoveTrailing(ps[k], '|');
    }
  }

  /** The flattened rows before row i fill the first Start(i) slots. */
  lemma {:induction false} FlattenPrefix<T>(rows: seq<seq<T>>, counts: seq<nat>, i: nat)
    requires |rows| == |counts| && i <= |rows|
    requires forall k :: 0 <= k < |rows| ==> |rows[k]| == counts[k]
    ensures |Flatten(rows[..i])| == Start(counts, i)
  {
    if i > 0 {
      FlattenPrefix(rows, counts, i - 1);
      assert rows[..i] == rows[..i - 1] + [rows[i - 1]];
      FlattenAppend(rows[..i - 1], [rows[i - 1]]);
      assert Flatten([rows[i - 1]]) == rows[i - 1] + Flatten([]);
      SumStep(counts, i - 1);
    }
  }

  lemma FlattenRowAt<T>(rows: seq<seq<T>>, counts: seq<nat>, i: nat)
    requires |rows| == |counts|
    requires forall k :: 0 <= k < |rows| ==> |rows[k]| == counts[k]
    requires i < |rows|
    ensures Start(counts, i) <= End(counts, i) <= |Flatten(rows)|
    ensures Flatten(rows)[Start(counts, i)..End(counts, i)] == rows[i]
  {
    FlattenPrefix(rows, counts, i);
    SumStep(counts, i);
    assert rows == rows[..i] + rows[i..];
    FlattenAppend(rows[..i], rows[i..]);
    assert rows[i..] == [rows[i]] + rows[i + 1..];
    FlattenAppend([rows[i]], rows[i + 1..]);
    assert Flatten([rows[i]]) == rows[i] + Flatten([]);
    assert Flatten(rows) == Flatten(rows[..i]) + (rows[i] + Flatten(rows[i + 1..]));
  }

  /** Row i of the flattened table occupies the slots [Start(i), End(i)). */
  lemma FlattenRows<T>(rows: seq<seq<T>>, counts: seq<nat>)
    requires |rows| == |counts|
    requires forall k :: 0 <= k < |rows| ==> |rows[k]| == counts[k]
    ensures |Flatten(rows)| == Start(counts, |counts|)
    ensures forall i :: 0 <= i < |rows| ==>
              Start(counts, i) <= End(counts, i) <= |Flatten(rows)|
              && Flatten(rows)[Start(counts, i)..End(counts, i)] == rows[i]
  {
    assert rows[..|rows|] == rows;
    FlattenPrefix(rows, counts, |rows|);
    forall i | 0 <= i < |rows|
      ensures Start(counts, i) <= End(counts, i) <= |Flatten(rows)|
      ensures Flatten(rows)[Start(counts, i)..End(counts, i)] == rows[i]
    {
      FlattenRowAt(rows, counts, i);
    }
  }

  /** A sorted table of distinct keys that are exactly 0, ..., m - 1 is 0, ..., m - 1. */
  lemma {:induction false} DenseKeysAt(keys: seq<nat>, m: nat, i: nat)
    requires SortedBy(keys, Identity) && Distinct(keys)
    requires forall x: nat :: x in keys <==> x < m
    requires i < |keys|
    ensures keys[i] == i
    decreases i
  {
    assert keys[i] in keys;
    if i == 0 {
      assert m > 0;
      assert 0 in keys;
      var t :| 0 <= t < |keys| && keys[t] == 0;
      assert Identity(keys[0]) <= Identity(keys[t]);
    } else {
      DenseKeysAt(keys, m, i - 1);
      assert Identity(keys[i - 1]) <= Identity(keys[i]);
      assert keys[i] > i - 1;
      assert i in keys;
      forall u | 0 <= u < i
        ensures keys[u] <= i - 1
      {
        if u < i - 1 {
          assert Identity(keys[u]) <= Identity(keys[i - 1]);
        }
      }
      var t :| 0 <= t < |keys| && keys[t] == i;
      assert Identity(keys[i]) <= Identity(keys[t]);
    }
  }

  lemma DenseKeys(keys: seq<nat>, m: nat)
    requires SortedBy(keys, Identity) && Distinct(keys)
    requires forall x: nat :: x in keys <==> x < m
    ensures |keys| == m && forall i :: 0 <= i < m ==> keys[i] == i
  {
    forall i | 0 <= i < |keys|
      ensures keys[i] == i
    {
      DenseKeysAt(keys, m, i);
    }
    if |keys| > 0 {
      assert keys[|keys| - 1] in keys;
    }
    if m > 0 {
      assert m - 1 in keys;
      var t :| 0 <= t < |keys| && keys[t] == m - 1;
    }
  }

  /** Row-by-row ids take exactly the values 0, ..., |counts| - 1. */
  lemma BlockIdValues(counts: seq<nat>, ids: seq<nat>, x: nat)
    requires |ids| == Start(counts, |counts|) && AllPositive(counts)
    requires forall i, j :: 0 <= i < |counts| && 0 <= j < |ids| ==>
               (ids[j] == i <==> Start(counts, i) <= j < End(counts, i))
    ensures x in ids <==> x < |counts|
  {
    var m := |counts|;
    if x < m {
      StartMonotone(counts, x, x + 1);
      StartMonotone(counts, x + 1, m);
      assert ids[Start(counts, x)] == x;
    }
    if x in ids {
      var j :| 0 <= j < |ids| && ids[j] == x;
      RowOf(counts, j);
      var i :| 0 <= i < m && Start(counts, i) <= j < End(counts, i);
    }
  }

  /** Ids that number points row by row group them back into the rows. */
  lemma GroupByBlocks(counts: seq<nat>, ids: seq<nat>, pts: seq<Point>)
    requires |ids| == |pts| == Start(counts, |counts|) && AllPositive(counts)
    requires forall i, j :: 0 <= i < |counts| && 0 <= j < |ids| ==>
               (ids[j] == i <==> Start(counts, i) <= j < End(counts, i))
    requires forall i :: 0 <= i < |counts| ==> Start(counts, i) <= End(counts, i) <= |ids|
    ensures |GroupById(ids, pts)| == |counts|
    ensures forall i :: 0 <= i < |counts| ==> GroupById(ids, pts)[i] == pts[Start(counts, i)..End(counts, i)]
  {
    var m := |counts|;
    var d := Dedup(ids);
    var keys := SortBy(d, Identity);
    SortDistinct(d, Identity);
    forall x: nat
      ensures x in keys <==> x < m
    {
      SortMembers(d, Identity, x);
      BlockIdValues(counts, ids, x);
    }
    DenseKeys(keys, m);
    forall i | 0 <= i < m
      ensures GroupById(ids, pts)[i] == pts[Start(counts, i)..End(counts, i)]
    {
      assert GroupById(ids, pts)[i] == Grouped(ids, pts, keys[i]);
      assert keys[i] == i;
      GroupedBlock(ids, pts, keys[i], Start(counts, i), End(counts, i));
    }
  }

  /** Each geometry is `MULTILINESTRING ((...))` over the pairs `pss[i]`. */
  predicate SingleParts(geoms: seq<String>, pss: seq<seq<String>>) {
    |geoms| == |pss|
    && forall i :: 0 <= i < |pss| ==>
         |pss[i]| > 0 && (forall k :: 0 <= k < |pss[i]| ==> PointText(pss[i][k]))
         && geoms[i] == SinglePart(pss[i])
  }

  /** The rewritten rows of single-part geometries: their pairs, separator counts and points. */
  lemma RewrittenRows(geoms: seq<String>, pss: seq<seq<String>>, parse: String -> Float)
    requires SingleParts(geoms, pss)
    ensures var counts := SeparatorCounts(Rewritten(geoms));
            AllPositive(counts) && forall i :: 0 <= i < |pss| ==> counts[i] == |pss[i]|
    ensures forall i :: 0 <= i < |pss| ==> PointRows(Rewritten(geoms), parse)[i] == LinePoints(pss[i], parse)
  {
    var rw := Rewritten(geoms);
    forall i | 0 <= i < |pss|
      ensures rw[i] == Terminated(pss[i])
      ensures CountChar(rw[i], '|') == |pss[i]|
      ensures RowPoints(rw[i], parse) == LinePoints(pss[i], parse)
    {
      RewriteSinglePart(pss[i]);
      CountTerminated(pss[i]);
      RowPointsTerminated(pss[i], parse);
    }
  }

  /**
   * Single-part geometries `MULTILINESTRING ((x y, ...))` parse to one line
   * per row, in row order, holding the row's points in the order written.
   */
  lemma ParseSingleParts(geoms: seq<String>, pss: seq<seq<String>>, parse: String -> Float)
    requires geoms != [] && SingleParts(geoms, pss)
    ensures ParseLineStrings(geoms, parse).Some?
    ensures |ParseLineStrings(geoms, parse).value| == |geoms|
    ensures forall i :: 0 <= i < |geoms| ==> ParseLineStrings(geoms, parse).value[i] == LinePoints(pss[i], parse)
  {
    var rw := Rewritten(geoms);
    var counts := SeparatorCounts(rw);
    var rows := PointRows(rw, parse);
    RewrittenRows(geoms, pss, parse);
    FlattenRows(rows, counts);
    LineIdsBlocks(counts);
    var ids := LineIds(counts).value;
    var pts := FlatPoints(rw, parse);
    var n := |pts|;
    GroupByBlocks(counts, ids[..n], pts);
    var r := ParseLineStrings(geoms, parse);
    assert r == Some(GroupById(ids[..n], pts));
  }

  /** Every point lands in the group of its id, and nothing else is in any group. */
  lemma GroupByIdMember(ids: seq<nat>, pts: seq<Point>, x: Point)
    requires |ids| == |pts|
    ensures (exists i :: 0 <= i < |GroupById(ids, pts)| && x in GroupById(ids, pts)[i]) <==> x in pts
  {
    var keys := SortBy(Dedup(ids), Identity);
    var r := GroupById(ids, pts);
    if i :| 0 <= i < |r| && x in r[i] {
      GroupedMember(ids, pts, keys[i], x);
    }
    if x in pts {
      var j :| 0 <= j < |pts| && pts[j] == x;
      SortMembers(Dedup(ids), Identity, ids[j]);
      var i :| 0 <= i < |keys| && keys[i] == ids[j];
      GroupedMember(ids, pts, keys[i], x);
      assert x in r[i];
    }
  }

  /** The groups come in ascending id order, one per distinct id. */
  lemma GroupByIdOrder(ids: seq<nat>, pts: seq<Point>)
    requires |ids| == |pts|
    ensures forall i :: 0 <= i < |GroupById(ids, pts)| ==> GroupById(ids, pts)[i] != []
    ensures forall v :: v in ids <==> exists i :: 0 <= i < |GroupById(ids, pts)| && GroupById(ids, pts)[i] == Grouped(ids, pts, v)
                                                 && SortBy(Dedup(ids), Identity)[i] == v
    ensures SortedBy(SortBy(Dedup(ids), Identity), Identity) && Distinct(SortBy(Dedup(ids), Identity))
  {
    var keys := SortBy(Dedup(ids), Identity);
    var r := GroupById(ids, pts);
    SortDistinct(Dedup(ids), Identity);
    forall i | 0 <= i < |r|
      ensures r[i] != []
    {
      assert keys[i] in keys;
      SortMembers(Dedup(ids), Identity, keys[i]);
      var j :| 0 <= j < |ids| && ids[j] == keys[i];
      GroupedMember(ids, pts, keys[i], pts[j]);
    }
    forall v
      ensures v in ids <==> exists i :: 0 <= i < |r| && r[i] == Grouped(ids, pts, v) && keys[i] == v
    {
      SortMembers(Dedup(ids), Identity, v);
      if v in ids {
        var i :| 0 <= i < |keys| && keys[i] == v;
        assert r[i] == Grouped(ids, pts, v);
      }
      if i :| 0 <= i < |r| && r[i] == Grouped(ids, pts, v) && keys[i] == v {
        assert keys[i] in keys;
      }
    }
  }

  // ---------------------------------------------------------------------
  // readStreets: filter the MULTILINESTRING rows, parse, group by name

  /** A row of the centerline table: the `the_geom` and `FULL_STREE` columns. */
  datatype StreetRow = StreetRow(geom: String, name: String)

  /** A street: its name and the list of its lines. */
  datatype Street = Street(name: String, lines: seq<seq<Point>>)

  /** `matchesRe(/MULTILINESTRING\s?/)`: the pattern matches at the start of the text. */
  predicate IsMultiLine(r: StreetRow) {
    StartsWith(r.geom, MultiLineString)
  }

  /** `filter(...)`: the rows whose geometry is a MULTILINESTRING, in table order. */
  function FilterStreets(rows: seq<StreetRow>): (r: seq<StreetRow>)
    ensures |r| <= |rows|
    ensures forall x :: x in r <==> x in rows && IsMultiLine(x)
    ensures forall k :: 0 <= k < |r| ==> IsMultiLine(r[k])
  {
    if rows == [] then []
    else
      var n := |rows| - 1;
      assert forall x :: x in rows <==> x in rows[..n] || x == rows[n] by {
        assert rows == rows[..n] + [rows[n]];
      }
      FilterStreets(rows[..n]) + (if IsMultiLine(rows[n]) then [rows[n]] else [])
  }

  function Geoms(rows: seq<StreetRow>): (r: seq<String>)
    ensures |r| == |rows| && forall k :: 0 <= k < |rows| ==> r[k] == rows[k].geom
  {
    seq(|rows|, k requires 0 <= k < |rows| => rows[k].geom)
  }

  function Names(rows: seq<StreetRow>): (r: seq<String>)
    ensures |r| == |rows| && forall k :: 0 <= k < |rows| ==> r[k] == rows[k].name
  {
    seq(|rows|, k requires 0 <= k < |rows| => rows[k].name)
  }

  /**
   * `groupBy({ by: 'name' }).collectList()`: one street per distinct name,
   * in order of first appearance, with the lines of that name's rows in
   * table order.
   */
  function GroupByName(names: seq<String>, lines: seq<seq<Point>>): (r: seq<Street>)
    requires |names| == |lines|
    ensures |r| == |Dedup(names)|
  {
    var ns := Dedup(names);
    seq(|ns|, i requires 0 <= i < |ns| => Street(ns[i], Grouped(names, lines, ns[i])))
  }

  /**
   * `readStreets`: keep the MULTILINESTRING rows, replace each geometry by
   * its parsed lines, group the rows by street name. A parse that fails, or
   * a line column that does not match the kept rows, gives `None`.
   */
  function ReadStreets(rows: seq<StreetRow>, parse: String -> Float): (r: Option<seq<Street>>)
    ensures FilterStreets(rows) == [] ==> r.None?
  {
    var kept := FilterStreets(rows);
    match ParseLineStrings(Geoms(kept), parse)
    case None => None
    case Some(lines) =>
      if |lines| != |kept| then None
      else Some(GroupByName(Names(kept), lines))
  }

  /** The streets are the distinct names, each with exactly the lines its rows hold. */
  lemma GroupByNameRows(names: seq<String>, lines: seq<seq<Point>>)
    requires |names| == |lines|
    ensures var r := GroupByName(names, lines);
            (forall i, j :: 0 <= i < j < |r| ==> r[i].name != r[j].name)
            && (forall n :: n in names <==> exists i :: 0 <= i < |r| && r[i].name == n)
            && (forall i, l :: 0 <= i < |r| ==>
                  (l in r[i].lines <==> exists k :: 0 <= k < |names| && names[k] == r[i].name && lines[k] == l))
  {
    var r := GroupByName(names, lines);
    var ns := Dedup(names);
    forall n
      ensures n in names <==> exists i :: 0 <= i < |r| && r[i].name == n
    {
      if n in names {
        var i :| 0 <= i < |ns| && ns[i] == n;
        assert r[i].name == n;
      }
    }
    forall i, l | 0 <= i < |r|
      ensures l in r[i].lines <==> exists k :: 0 <= k < |names| && names[k] == r[i].name && lines[k] == l
    {
      GroupedMember(names, lines, ns[i], l);
    }
  }

  /** The names of the MULTILINESTRING rows. */
  function StreetNames(rows: seq<StreetRow>): (r: set<String>) {
    set x | x in rows && IsMultiLine(x) :: x.name
  }

  lemma KeptNames(rows: seq<StreetRow>, n: String)
    ensures n in Names(FilterStreets(rows)) <==> n in StreetNames(rows)
  {
    var kept := FilterStreets(rows);
    var names := Names(kept);
    if n in StreetNames(rows) {
      var x :| x in rows && IsMultiLine(x) && x.name == n;
      assert x in kept;
      var k :| 0 <= k < |kept| && kept[k] == x;
      assert names[k] == n;
    }
    if n in names {
      var k :| 0 <= k < |names| && names[k] == n;
      assert kept[k] in kept;
    }
  }

  /**
   * A table whose MULTILINESTRING rows all hold single-part geometries
   * over `pss`: the streets are the distinct names of those rows, and a
   * street's lines are the points of exactly the rows with its name.
   */
  lemma ReadStreetsSingleParts(rows: seq<StreetRow>, pss: seq<seq<String>>, parse: String -> Float)
    requires FilterStreets(rows) != [] && SingleParts(Geoms(FilterStreets(rows)), pss)
    ensures ReadStreets(rows, parse).Some?
    ensures var kept := FilterStreets(rows);
            var r := ReadStreets(rows, parse).value;
            (forall i, j :: 0 <= i < j < |r| ==> r[i].name != r[j].name)
            && (forall n :: n in StreetNames(rows) <==> exists i :: 0 <= i < |r| && r[i].name == n)
            && (forall i, l :: 0 <= i < |r| ==>
                  (l in r[i].lines <==> exists k :: 0 <= k < |kept| && kept[k].name == r[i].name && LinePoints(pss[k], parse) == l))
  {
    ReadStreetsParsed(rows, pss, parse);
    var kept := FilterStreets(rows);
    GroupedStreets(rows, ParseLineStrings(Geoms(kept), parse).value, pss, parse);
  }

  /** Grouping the kept rows' lines by name: the streets of `ReadStreetsSingleParts`. */
  lemma GroupedStreets(rows: seq<StreetRow>, lines: seq<seq<Point>>, pss: seq<seq<String>>, parse: String -> Float)
    requires |lines| == |FilterStreets(rows)| <= |pss|
    requires forall k :: 0 <= k < |lines| ==> lines[k] == LinePoints(pss[k], parse)
    ensures var kept := FilterStreets(rows);
            var r := GroupByName(Names(kept), lines);
            (forall i, j :: 0 <= i < j < |r| ==> r[i].name != r[j].name)
            && (forall n :: n in StreetNames(rows) <==> exists i :: 0 <= i < |r| && r[i].name == n)
            && (forall i, l :: 0 <= i < |r| ==>
                  (l in r[i].lines <==> exists k :: 0 <= k < |kept| && kept[k].name == r[i].name && LinePoints(pss[k], parse) == l))
  {
    var kept := FilterStreets(rows);
    var names := Names(kept);
    var r := GroupByName(names, lines);
    GroupByNameRows(names, lines);
    forall n
      ensures n in StreetNames(rows) <==> n in names
    {
      KeptNames(rows, n);
    }
    forall i, l | 0 <= i < |r|
      ensures (l in r[i].lines <==> exists k :: 0 <= k < |kept| && kept[k].name == r[i].name && LinePoints(pss[k], parse) == l)
    {
      assert forall k :: 0 <= k < |kept| ==> names[k] == kept[k].name && lines[k] == LinePoints(pss[k], parse);
    }
  }

  /** With single-part geometries the parse succeeds with one line per kept row, and the streets group those lines. */
  lemma ReadStreetsParsed(rows: seq<StreetRow>, pss: seq<seq<String>>, parse: String -> Float)
    requires FilterStreets(rows) != [] && SingleParts(Geoms(FilterStreets(rows)), pss)
    ensures ParseLineStrings(Geoms(FilterStreets(rows)), parse).Some?
    ensures var kept := FilterStreets(rows);
            var lines := ParseLineStrings(Geoms(kept), parse).value;
            |lines| == |kept|
            && (forall k :: 0 <= k < |kept| ==> lines[k] == LinePoints(pss[k], parse))
            && ReadStreets(rows, parse) == Some(GroupByName(Names(kept), lines))
  {
    ParseSingleParts(Geoms(FilterStreets(rows)), pss, parse);
  }
}
