/**
 * Graph shaping (modules/json-graph/src/shape.ts): stride-2 edge
 * subsampling, renumbering onto dense node ids, the inner join of node
 * attributes, size rescaling, hex color decoding, parallel-edge bundles with
 * offset/length, little-endian packing of 32-bit pairs and sorting by id.
 *
 * cugraph's renumbering (`Graph.fromEdgeList`, `nodeIds`, `edgeIds`) is a
 * foreign call; it is modelled as a parameter `keys`, any distinct listing
 * of the endpoint keys, where node id `i` stands for key `keys[i]`.
 */
module Shape {
  import opened Wrappers
  import opened Text
  import opened Columns
  import opened Sorting
  import opened Seqs
  import GpuRead

  // ---------------------------------------------------------------------
  // Subsampling: `gather(Series.sequence({ init: 0, step: 2, size }))`

  /** The cap `1e5 * 2` on the number of sampled edges. */
  const MaxSampledEdges: nat := 200000

  /** `Math.min(1e5 * 2, numRows / 2)`, as the integral size of the sequence. */
  function SampleSize(numRows: nat): (r: nat) {
    if MaxSampledEdges < numRows / 2 then MaxSampledEdges else numRows / 2
  }

  /** `Series.sequence({ init, step, size })`. */
  function Sequence(init: int, step: int, size: nat): (r: seq<int>)
    ensures |r| == size
    ensures forall k :: 0 <= k < size ==> r[k] == init + k * step
  {
    if size == 0 then [] else Sequence(init, step, size - 1) + [init + (size - 1) * step]
  }

  /** `gather(idx)`: the rows at the given indices. */
  function Gather<T>(s: seq<T>, idx: seq<int>): (r: seq<T>)
    requires forall k :: 0 <= k < |idx| ==> 0 <= idx[k] < |s|
  {
    seq(|idx|, k requires 0 <= k < |idx| => s[idx[k]])
  }

  function Subsample<T>(edges: seq<T>): (r: seq<T>) {
    var idx := Sequence(0, 2, SampleSize(|edges|));
    Gather(edges, idx)
  }

  /** Subsampling keeps edges 0, 2, 4, ... and min(200000, numRows / 2) of them. */
  lemma SubsampleKeeps<T>(edges: seq<T>)
    ensures |Subsample(edges)| == SampleSize(|edges|) <= MaxSampledEdges
    ensures 2 * |Subsample(edges)| <= |edges|
    ensures forall k :: 0 <= k < |Subsample(edges)| ==> Subsample(edges)[k] == edges[2 * k]
  {
  }

  // ---------------------------------------------------------------------
  // Renumbering

  /** Every key that occurs as a source or a target. */
  function Endpoints(edges: seq<GpuRead.EdgeRow>): (r: set<int>) {
    (set e | e in edges :: e.source) + (set e | e in edges :: e.target)
  }

  /**
   * `keys` lists the endpoint keys without repetition: node id `i` is key
   * `keys[i]`, a bijection from the endpoint keys onto 0..n-1.
   */
  predicate IsRenumbering(keys: seq<int>, edges: seq<GpuRead.EdgeRow>) {
    Distinct(keys)
    && (forall k :: k in keys ==> k in Endpoints(edges))
    && (forall k :: k in Endpoints(edges) ==> k in keys)
  }

  /** Endpoints in edge order: source then target of each edge. */
  function EndpointList(edges: seq<GpuRead.EdgeRow>): (r: seq<int>)
    ensures |r| == 2 * |edges|
    ensures forall k :: k in r <==> k in Endpoints(edges)
  {
    if edges == [] then []
    else
      var t := EndpointList(edges[1..]);
      assert Endpoints(edges) == {edges[0].source, edges[0].target} + Endpoints(edges[1..]) by {
        assert edges == [edges[0]] + edges[1..];
      }
      [edges[0].source, edges[0].target] + t
  }

  /** A renumbering exists for every edge list: number the keys in order of first appearance. */
  function FirstAppearance(edges: seq<GpuRead.EdgeRow>): (keys: seq<int>)
    ensures IsRenumbering(keys, edges)
  {
    Dedup(EndpointList(edges))
  }

  /** A renumbering has at most two nodes per edge. */
  lemma RenumberingSize(keys: seq<int>, edges: seq<GpuRead.EdgeRow>)
    requires IsRenumbering(keys, edges)
    ensures |keys| <= 2 * |edges|
  {
    forall k | k in keys
      ensures k in EndpointList(edges)
    {
    }
    DistinctLength(keys, EndpointList(edges));
  }

  /** The id of a key: its position in the renumbering. */
  function IndexOf(keys: seq<int>, k: int): (i: nat)
    requires k in keys
    ensures i < |keys| && keys[i] == k
    ensures forall j :: 0 <= j < i ==> keys[j] != k
  {
    if keys[0] == k then 0 else 1 + IndexOf(keys[1..], k)
  }

  /** A row of `graph.edgeIds`: edge id and the dense ids of its endpoints. */
  datatype IdEdge = IdEdge(id: int, src: int, dst: int)

  /** `graph.edgeIds`: edge i keeps id i, its endpoints become their dense ids. */
  function EdgeIds(edges: seq<GpuRead.EdgeRow>, keys: seq<int>): (r: seq<IdEdge>)
    requires IsRenumbering(keys, edges)
    ensures |r| == |edges|
    ensures forall i :: 0 <= i < |r| ==>
              r[i].id == i && 0 <= r[i].src < |keys| && 0 <= r[i].dst < |keys|
              && keys[r[i].src] == edges[i].source && keys[r[i].dst] == edges[i].target
  {
    seq(|edges|, i requires 0 <= i < |edges| =>
      assert edges[i].source in Endpoints(edges) && edges[i].target in Endpoints(edges);
      IdEdge(i, IndexOf(keys, edges[i].source), IndexOf(keys, edges[i].target)))
  }

  // ---------------------------------------------------------------------
  // Nodes: inner join of the renumbered nodes with the input node table

  /** A row of the join: the dense id and the attributes of one matching input node. */
  datatype JoinedNode = JoinedNode(id: int, x: Float, y: Float, size: int, color: String)

  function Joined(id: int, n: GpuRead.NodeRow): (r: JoinedNode) {
    JoinedNode(id, n.x, n.y, n.size, n.color)
  }

  /** The input nodes whose key equals `key`, in input order, labelled with `id`. */
  function MatchesOf(id: int, key: int, inNodes: seq<GpuRead.NodeRow>): (r: seq<JoinedNode>)
    ensures |r| == KeyCount(key, inNodes)
    ensures forall n :: n in r <==>
              exists j :: 0 <= j < |inNodes| && inNodes[j].key == Some(key) && n == Joined(id, inNodes[j])
  {
    if inNodes == [] then []
    else
      var t := MatchesOf(id, key, inNodes[1..]);
      assert forall n :: (exists j :: 1 <= j < |inNodes| && inNodes[j].key == Some(key) && n == Joined(id, inNodes[j]))
                         ==> n in t by {
        forall n, j | 1 <= j < |inNodes| && inNodes[j].key == Some(key) && n == Joined(id, inNodes[j])
          ensures n in t
        {
          assert inNodes[1..][j - 1] == inNodes[j];
        }
      }
      (if inNodes[0].key == Some(key) then [Joined(id, inNodes[0])] else []) + t
  }

  /** How many input nodes carry `key`. */
  function KeyCount(key: int, inNodes: seq<GpuRead.NodeRow>): (r: nat) {
    if inNodes == [] then 0
    else (if inNodes[0].key == Some(key) then 1 else 0) + KeyCount(key, inNodes[1..])
  }

  /**
   * `graph.nodes.assign(graph.nodeIds).join({ on: ['node'], other: inNodes })`:
   * for each id in ascending order, one row per input node with that key. A
   * null input key matches no renumbered node.
   */
  function JoinNodes(keys: seq<int>, inNodes: seq<GpuRead.NodeRow>): (r: seq<JoinedNode>) {
    Flatten(seq(|keys|, i requires 0 <= i < |keys| => MatchesOf(i, keys[i], inNodes)))
  }

  /** The join holds exactly the (id, input node) pairs whose keys agree. */
  lemma JoinNodesMember(keys: seq<int>, inNodes: seq<GpuRead.NodeRow>, n: JoinedNode)
    ensures n in JoinNodes(keys, inNodes) <==>
              exists i, j :: 0 <= i < |keys| && 0 <= j < |inNodes|
                             && inNodes[j].key == Some(keys[i]) && n == Joined(i, inNodes[j])
  {
    var ss := seq(|keys|, i requires 0 <= i < |keys| => MatchesOf(i, keys[i], inNodes));
    FlattenMember(ss, n);
    if i, j :| 0 <= i < |keys| && 0 <= j < |inNodes| && inNodes[j].key == Some(keys[i]) && n == Joined(i, inNodes[j]) {
      assert n in ss[i];
    }
  }

  /** When every renumbered key has exactly one input node, the join has one row per id, in id order. */
  lemma JoinNodesUnique(keys: seq<int>, inNodes: seq<GpuRead.NodeRow>)
    requires forall i :: 0 <= i < |keys| ==> KeyCount(keys[i], inNodes) == 1
    ensures |JoinNodes(keys, inNodes)| == |keys|
    ensures forall i :: 0 <= i < |keys| ==>
              (exists j :: 0 <= j < |inNodes| && inNodes[j].key == Some(keys[i])
                           && JoinNodes(keys, inNodes)[i] == Joined(i, inNodes[j]))
  {
    var ss := seq(|keys|, i requires 0 <= i < |keys| => MatchesOf(i, keys[i], inNodes));
    FlattenLength(ss, 1);
    forall i | 0 <= i < |keys|
      ensures Flatten(ss)[i] == ss[i][0]
    {
      FlattenSingleton(ss, i);
    }
    forall i | 0 <= i < |keys|
      ensures exists j :: 0 <= j < |inNodes| && inNodes[j].key == Some(keys[i]) && ss[i][0] == Joined(i, inNodes[j])
    {
      assert ss[i][0] in MatchesOf(i, keys[i], inNodes);
    }
  }

  lemma {:induction false} FlattenSingleton<T>(ss: seq<seq<T>>, i: nat)
    requires forall k :: 0 <= k < |ss| ==> |ss[k]| == 1
    requires i < |ss|
    ensures |Flatten(ss)| == |ss| && Flatten(ss)[i] == ss[i][0]
  {
    FlattenLength(ss, 1);
    if i > 0 {
      FlattenSingleton(ss[1..], i - 1);
    }
  }

  // ---------------------------------------------------------------------
  // Node size: `scale().mul(254).add(1).cast(Uint8)`

  datatype ShapeError =
    | ZeroSizeRange         // every joined size is equal: scale() divides 0 by 0
    | ColumnLengthMismatch  // two columns that must be aligned are not

  /** One rescaled size: (s - lo) / (hi - lo) * 254 + 1, truncated to an integer. */
  function ScaledSize(s: int, lo: int, hi: int): (r: int)
    requires lo < hi
  {
    (((s - lo) as real / (hi - lo) as real) * 254.0 + 1.0).Floor
  }

  /** Min-max rescaling of the size column; all-equal sizes are the 0/0 case. */
  function RescaleSizes(sizes: seq<int>): (r: Result<seq<int>, ShapeError>)
    ensures r.Success? ==> |r.value| == |sizes|
    ensures r.Failure? <==> |sizes| > 0 && MinOf(sizes) == MaxOf(sizes)
  {
    if |sizes| == 0 then Success([])
    else
      var lo := MinOf(sizes);
      var hi := MaxOf(sizes);
      if lo == hi then Failure(ZeroSizeRange)
      else Success(seq(|sizes|, i requires 0 <= i < |sizes| => ScaledSize(sizes[i], lo, hi)))
  }

  /** Rescaled sizes fit a Uint8 and span 1..255: the smallest maps to 1, the largest to 255. */
  lemma ScaledSizeRange(s: int, lo: int, hi: int)
    requires lo <= s <= hi && lo < hi
    ensures 1 <= ScaledSize(s, lo, hi) <= 255
    ensures s == lo ==> ScaledSize(s, lo, hi) == 1
    ensures s == hi ==> ScaledSize(s, lo, hi) == 255
  {
    var t := (s - lo) as real / (hi - lo) as real;
    assert 0.0 <= t;
    assert t <= 1.0 by {
      assert t * (hi - lo) as real == (s - lo) as real;
    }
    if s == hi {
      assert t == 1.0;
      assert t * 254.0 + 1.0 == 255.0;
    }
  }

  /** Rescaling preserves order. */
  lemma ScaledSizeMonotone(s1: int, s2: int, lo: int, hi: int)
    requires s1 <= s2 && lo < hi
    ensures ScaledSize(s1, lo, hi) <= ScaledSize(s2, lo, hi)
  {
    var d := (hi - lo) as real;
    var t1 := (s1 - lo) as real / d;
    var t2 := (s2 - lo) as real / d;
    assert t1 <= t2 by {
      assert t2 - t1 == (s2 - s1) as real / d;
    }
  }

  /** Every rescaled size lies in 1..255, with the extremes attained. */
  lemma RescaleSizesRange(sizes: seq<int>)
    requires RescaleSizes(sizes).Success?
    ensures forall i :: 0 <= i < |sizes| ==> 1 <= RescaleSizes(sizes).value[i] <= 255
    ensures forall i :: 0 <= i < |sizes| && sizes[i] == MinOf(sizes) ==> RescaleSizes(sizes).value[i] == 1
    ensures forall i :: 0 <= i < |sizes| && sizes[i] == MaxOf(sizes) ==> RescaleSizes(sizes).value[i] == 255
    ensures forall i, j :: 0 <= i < |sizes| && 0 <= j < |sizes| && sizes[i] <= sizes[j] ==>
              RescaleSizes(sizes).value[i] <= RescaleSizes(sizes).value[j]
  {
    if |sizes| > 0 {
      var lo := MinOf(sizes);
      var hi := MaxOf(sizes);
      forall i | 0 <= i < |sizes|
        ensures 1 <= ScaledSize(sizes[i], lo, hi) <= 255
        ensures sizes[i] == lo ==> ScaledSize(sizes[i], lo, hi) == 1
        ensures sizes[i] == hi ==> ScaledSize(sizes[i], lo, hi) == 255
      {
        assert sizes[i] in sizes;
        ScaledSizeRange(sizes[i], lo, hi);
      }
      forall i, j | 0 <= i < |sizes| && 0 <= j < |sizes| && sizes[i] <= sizes[j]
        ensures ScaledSize(sizes[i], lo, hi) <= ScaledSize(sizes[j], lo, hi)
      {
        ScaledSizeMonotone(sizes[i], sizes[j], lo, hi);
      }
    }
  }

  // ---------------------------------------------------------------------
  // Node color: `replaceSlice('FF', 0, 1).hexToIntegers(Int32)`

  predicate IsHexDigit(c: char) {
    ('0' <= c <= '9') || ('A' <= c <= 'F') || ('a' <= c <= 'f')
  }

  function HexDigit(c: char): (r: nat)
    requires IsHexDigit(c)
  {
    if '0' <= c <= '9' then c as int - '0' as int
    else if 'A' <= c <= 'F' then c as int - 'A' as int + 10
    else c as int - 'a' as int + 10
  }

  /** The hex digits of `s` read as one number; other characters are skipped. */
  function HexNat(s: String): (r: nat) {
    if s == [] then 0
    else if IsHexDigit(s[|s| - 1]) then HexNat(s[..|s| - 1]) * 16 + HexDigit(s[|s| - 1])
    else HexNat(s[..|s| - 1])
  }

  function Pow16(n: nat): (r: nat) {
    if n == 0 then 1 else 16 * Pow16(n - 1)
  }

  predicate AllHex(s: String) {
    forall k :: 0 <= k < |s| ==> IsHexDigit(s[k])
  }

  /** `replaceSlice('FF', 0, 1)`: the first character is replaced by "FF". */
  function ReplaceFirst(color: String): (r: String)
    ensures StartsWith(r, "FF")
    ensures |color| > 0 ==> r == "FF" + color[1..]
  {
    "FF" + (if |color| > 0 then color[1..] else [])
  }

  /** The Int32 color cell, as its 32-bit pattern: the hex value wraps to 32 bits. */
  function ColorBits(color: String): (r: u32) {
    Bits32(HexNat(ReplaceFirst(color)))
  }

  /** Appending hex digits shifts the value by four bits per digit. */
  lemma {:induction false} HexNatAppend(a: String, b: String)
    requires AllHex(b)
    ensures HexNat(a + b) == HexNat(a) * Pow16(|b|) + HexNat(b)
    ensures HexNat(b) < Pow16(|b|)
    decreases |b|
  {
    if b == [] {
      assert a + b == a;
    } else {
      var b' := b[..|b| - 1];
      var c := b[|b| - 1];
      assert a + b == (a + b') + [c] && b == b' + [c];
      assert AllHex(b') by {
        assert forall k :: 0 <= k < |b'| ==> b'[k] == b[k];
      }
      HexNatAppend(a, b');
      HexNatSnoc(a + b', c);
      HexNatSnoc(b', c);
      ShiftDigit(HexNat(a), HexNat(b'), Pow16(|b'|), HexDigit(c));
    }
  }

  lemma HexNatSnoc(s: String, c: char)
    requires IsHexDigit(c)
    ensures HexNat(s + [c]) == HexNat(s) * 16 + HexDigit(c)
  {
    assert (s + [c])[..|s|] == s;
  }

  lemma ShiftDigit(x: nat, y: nat, p: nat, dg: nat)
    requires y < p && dg < 16
    ensures (x * p + y) * 16 + dg == x * (16 * p) + (y * 16 + dg)
    ensures y * 16 + dg < 16 * p
  {
  }

  /**
   * A CSS color "#RRGGBB" becomes the 32-bit pattern 0xFFRRGGBB: alpha byte
   * 0xFF above the 24-bit RGB value of the six digits.
   */
  lemma ColorOfHexTriplet(c: char, rgb: String)
    requires |rgb| == 6 && AllHex(rgb)
    ensures ColorBits([c] + rgb) == 0xFF00_0000 + HexNat(rgb)
    ensures ColorBits([c] + rgb) / 0x100_0000 == 0xFF
    ensures ColorBits([c] + rgb) % 0x100_0000 == HexNat(rgb)
  {
    assert ReplaceFirst([c] + rgb) == "FF" + rgb by {
      assert ([c] + rgb)[1..] == rgb;
    }
    HexNatAppend("FF", rgb);
    assert HexNat("FF") == 255 by {
      assert "FF"[..1] == "F";
      assert "F"[..0] == "";
    }
    assert Pow16(6) == 0x100_0000;
  }

  /** The default node color "#000000" is opaque black. */
  lemma DefaultColorBits()
    ensures ColorBits(GpuRead.DefaultColor) == 0xFF00_0000
  {
    var d := GpuRead.DefaultColor;
    assert d == ['#'] + "000000";
    ColorOfHexTriplet('#', "000000");
    assert HexNat("000000") == 0 by {
      assert "000000" == Zeros(6);
      ZerosValue(6);
    }
  }

  function Zeros(n: nat): (r: String) {
    seq(n, _ => '0')
  }

  lemma {:induction false} ZerosValue(n: nat)
    ensures HexNat(Zeros(n)) == 0
  {
    if n > 0 {
      assert Zeros(n)[..n - 1] == Zeros(n - 1);
      ZerosValue(n - 1);
    }
  }

  // ---------------------------------------------------------------------
  // shapeNodes

  /** A row of the shaped node table: `id, x, y, size, color`. */
  datatype ShapedNode = ShapedNode(id: int, x: Float, y: Float, size: int, color: u32)

  function JoinedSizes(keys: seq<int>, inNodes: seq<GpuRead.NodeRow>): (r: seq<int>)
    ensures |r| == |JoinNodes(keys, inNodes)|
  {
    var joined := JoinNodes(keys, inNodes);
    seq(|joined|, i requires 0 <= i < |joined| => joined[i].size)
  }

  /** The joined rows with their rescaled sizes and decoded colors, before sorting. */
  function AssignNodes(joined: seq<JoinedNode>, sizes: seq<int>): (r: seq<ShapedNode>)
    requires |sizes| == |joined|
    ensures |r| == |joined|
  {
    seq(|joined|, i requires 0 <= i < |joined| =>
      ShapedNode(joined[i].id, joined[i].x, joined[i].y, sizes[i], ColorBits(joined[i].color)))
  }

  function ById(n: ShapedNode): (r: int) { n.id }

  function ShapeNodes(keys: seq<int>, inNodes: seq<GpuRead.NodeRow>): (r: Result<seq<ShapedNode>, ShapeError>) {
    var joined := JoinNodes(keys, inNodes);
    match RescaleSizes(JoinedSizes(keys, inNodes))
    case Failure(e) => Failure(e)
    case Success(sizes) => Success(SortBy(AssignNodes(joined, sizes), ById))
  }

  /**
   * The shaped nodes are the join sorted by id: each row is an (id, input
   * node) pair whose keys agree, with x and y copied, the size rescaled
   * against the smallest and largest joined size, and the color decoded;
   * every such pair gives a row. Shaping fails only when all joined sizes
   * are equal.
   */
  lemma ShapeNodesRows(keys: seq<int>, inNodes: seq<GpuRead.NodeRow>)
    ensures ShapeNodes(keys, inNodes).Failure? <==>
              |JoinNodes(keys, inNodes)| > 0 && MinOf(JoinedSizes(keys, inNodes)) == MaxOf(JoinedSizes(keys, inNodes))
    ensures ShapeNodes(keys, inNodes).Success? ==>
              var r := ShapeNodes(keys, inNodes).value;
              var sizes := JoinedSizes(keys, inNodes);
              |r| == |JoinNodes(keys, inNodes)|
              && SortedBy(r, ById)
              && (forall n :: n in r ==>
                    exists i, j :: 0 <= i < |keys| && 0 <= j < |inNodes| && inNodes[j].key == Some(keys[i])
                                   && n == ShapedNode(i, inNodes[j].x, inNodes[j].y,
                                                      ScaledSize(inNodes[j].size, MinOf(sizes), MaxOf(sizes)),
                                                      ColorBits(inNodes[j].color)))
              && (forall i, j :: 0 <= i < |keys| && 0 <= j < |inNodes| && inNodes[j].key == Some(keys[i]) ==>
                    exists n :: n in r && n.id == i && n.x == inNodes[j].x && n.y == inNodes[j].y
                                && n.color == ColorBits(inNodes[j].color))
              && (forall n :: n in r ==> 1 <= n.size <= 255)
  {
    ShapeNodesStages(keys, inNodes);
    if RescaleSizes(JoinedSizes(keys, inNodes)).Success? {
      AssignedRowsSound(keys, inNodes);
      AssignedRowsComplete(keys, inNodes);
    }
  }

  /** Every row of the sorted, rescaled join comes from a matching (id, input node) pair. */
  lemma AssignedRowsSound(keys: seq<int>, inNodes: seq<GpuRead.NodeRow>)
    requires RescaleSizes(JoinedSizes(keys, inNodes)).Success?
    ensures var sizes := JoinedSizes(keys, inNodes);
            var r := SortBy(AssignNodes(JoinNodes(keys, inNodes), RescaleSizes(sizes).value), ById);
            |r| == |JoinNodes(keys, inNodes)|
            && (forall n :: n in r ==>
                  exists i, j :: 0 <= i < |keys| && 0 <= j < |inNodes| && inNodes[j].key == Some(keys[i])
                                 && n == ShapedNode(i, inNodes[j].x, inNodes[j].y,
                                                    ScaledSize(inNodes[j].size, MinOf(sizes), MaxOf(sizes)),
                                                    ColorBits(inNodes[j].color)))
            && (forall n :: n in r ==> 1 <= n.size <= 255)
  {
    var sizes := JoinedSizes(keys, inNodes);
    var r := SortBy(AssignNodes(JoinNodes(keys, inNodes), RescaleSizes(sizes).value), ById);
    forall n | n in r
      ensures exists i, j :: 0 <= i < |keys| && 0 <= j < |inNodes| && inNodes[j].key == Some(keys[i])
                             && n == ShapedNode(i, inNodes[j].x, inNodes[j].y,
                                                ScaledSize(inNodes[j].size, MinOf(sizes), MaxOf(sizes)),
                                                ColorBits(inNodes[j].color))
      ensures 1 <= n.size <= 255
    {
      AssignedRowSound(keys, inNodes, n);
    }
  }

  lemma AssignedRowSound(keys: seq<int>, inNodes: seq<GpuRead.NodeRow>, n: ShapedNode)
    requires RescaleSizes(JoinedSizes(keys, inNodes)).Success?
    requires n in SortBy(AssignNodes(JoinNodes(keys, inNodes), RescaleSizes(JoinedSizes(keys, inNodes)).value), ById)
    ensures var sizes := JoinedSizes(keys, inNodes);
            exists i, j :: 0 <= i < |keys| && 0 <= j < |inNodes| && inNodes[j].key == Some(keys[i])
                           && n == ShapedNode(i, inNodes[j].x, inNodes[j].y,
                                              ScaledSize(inNodes[j].size, MinOf(sizes), MaxOf(sizes)),
                                              ColorBits(inNodes[j].color))
    ensures 1 <= n.size <= 255
  {
    var joined := JoinNodes(keys, inNodes);
    var sizes := JoinedSizes(keys, inNodes);
    var scaled := RescaleSizes(sizes).value;
    var pre := AssignNodes(joined, scaled);
    SortMembers(pre, ById, n);
    var k :| 0 <= k < |pre| && pre[k] == n;
    assert 1 <= n.size <= 255 by {
      RescaleSizesRange(sizes);
    }
    assert joined[k] in joined;
    JoinNodesMember(keys, inNodes, joined[k]);
    assert scaled[k] == ScaledSize(sizes[k], MinOf(sizes), MaxOf(sizes)) by {
      RescaleSizesRange(sizes);
    }
  }

  /** Every matching (id, input node) pair gives a row of the sorted, rescaled join. */
  lemma AssignedRowsComplete(keys: seq<int>, inNodes: seq<GpuRead.NodeRow>)
    requires RescaleSizes(JoinedSizes(keys, inNodes)).Success?
    ensures var r := SortBy(AssignNodes(JoinNodes(keys, inNodes), RescaleSizes(JoinedSizes(keys, inNodes)).value), ById);
            forall i, j :: 0 <= i < |keys| && 0 <= j < |inNodes| && inNodes[j].key == Some(keys[i]) ==>
              exists n :: n in r && n.id == i && n.x == inNodes[j].x && n.y == inNodes[j].y
                          && n.color == ColorBits(inNodes[j].color)
  {
    var joined := JoinNodes(keys, inNodes);
    var pre := AssignNodes(joined, RescaleSizes(JoinedSizes(keys, inNodes)).value);
    var r := SortBy(pre, ById);
    forall i, j | 0 <= i < |keys| && 0 <= j < |inNodes| && inNodes[j].key == Some(keys[i])
      ensures exists n :: n in r && n.id == i && n.x == inNodes[j].x && n.y == inNodes[j].y
                          && n.color == ColorBits(inNodes[j].color)
    {
      JoinNodesMember(keys, inNodes, Joined(i, inNodes[j]));
      var k :| 0 <= k < |joined| && joined[k] == Joined(i, inNodes[j]);
      SortMembers(pre, ById, pre[k]);
      assert pre[k] in r;
    }
  }

  /**
   * When every renumbered key has exactly one input node, the shaped table
   * has one row per node id, at the position of its id.
   */
  lemma ShapeNodesDense(keys: seq<int>, inNodes: seq<GpuRead.NodeRow>)
    requires forall i :: 0 <= i < |keys| ==> KeyCount(keys[i], inNodes) == 1
    requires ShapeNodes(keys, inNodes).Success?
    ensures |ShapeNodes(keys, inNodes).value| == |keys|
    ensures forall i :: 0 <= i < |keys| ==> ShapeNodes(keys, inNodes).value[i].id == i
    ensures forall i :: 0 <= i < |keys| ==>
              exists j :: 0 <= j < |inNodes| && inNodes[j].key == Some(keys[i])
                          && ShapeNodes(keys, inNodes).value[i].color == ColorBits(inNodes[j].color)
                          && ShapeNodes(keys, inNodes).value[i].x == inNodes[j].x
                          && ShapeNodes(keys, inNodes).value[i].y == inNodes[j].y
  {
    ShapeNodesStages(keys, inNodes);
    JoinNodesUnique(keys, inNodes);
    DenseAssigned(keys, inNodes, JoinNodes(keys, inNodes), RescaleSizes(JoinedSizes(keys, inNodes)).value);
  }

  /** `shapeNodes` is the join, rescaled and decoded, then sorted by id. */
  lemma ShapeNodesStages(keys: seq<int>, inNodes: seq<GpuRead.NodeRow>)
    ensures ShapeNodes(keys, inNodes).Success? <==> RescaleSizes(JoinedSizes(keys, inNodes)).Success?
    ensures ShapeNodes(keys, inNodes).Success? ==>
              ShapeNodes(keys, inNodes).value
              == SortBy(AssignNodes(JoinNodes(keys, inNodes), RescaleSizes(JoinedSizes(keys, inNodes)).value), ById)
  {
  }

  /** A join with one row per id, in id order, is already sorted: row i is id i. */
  lemma DenseAssigned(keys: seq<int>, inNodes: seq<GpuRead.NodeRow>, joined: seq<JoinedNode>, scaled: seq<int>)
    requires |joined| == |keys| && |scaled| == |joined|
    requires forall i :: 0 <= i < |keys| ==>
               (exists j :: 0 <= j < |inNodes| && inNodes[j].key == Some(keys[i]) && joined[i] == Joined(i, inNodes[j]))
    ensures var r := SortBy(AssignNodes(joined, scaled), ById);
            |r| == |keys|
            && (forall i :: 0 <= i < |keys| ==> r[i].id == i)
            && forall i :: 0 <= i < |keys| ==>
                 exists j :: 0 <= j < |inNodes| && inNodes[j].key == Some(keys[i])
                             && r[i].color == ColorBits(inNodes[j].color) && r[i].x == inNodes[j].x && r[i].y == inNodes[j].y
  {
    var pre := AssignNodes(joined, scaled);
    assert forall i :: 0 <= i < |pre| ==> pre[i].id == i;
    assert SortedBy(pre, ById);
    SortSorted(pre, ById);
    var r := SortBy(pre, ById);
    forall i | 0 <= i < |keys|
      ensures exists j :: 0 <= j < |inNodes| && inNodes[j].key == Some(keys[i])
                          && r[i].color == ColorBits(inNodes[j].color) && r[i].x == inNodes[j].x && r[i].y == inNodes[j].y
    {
      var j :| 0 <= j < |inNodes| && inNodes[j].key == Some(keys[i]) && joined[i] == Joined(i, inNodes[j]);
      assert r[i] == pre[i];
    }
  }

  // ---------------------------------------------------------------------
  // Edge bundles: `edgesToBundles` and `computeEdgeBundles`

  /** How many of `es` run from `s` to `d` (the ordered pair: never symmetrized). */
  function PairCount(es: seq<IdEdge>, s: int, d: int): (k: nat)
    ensures k <= |es|
  {
    if es == [] then 0
    else PairCount(es[..|es| - 1], s, d) + (if es[|es| - 1].src == s && es[|es| - 1].dst == d then 1 else 0)
  }

  function PairsOf(es: seq<IdEdge>): (r: seq<(int, int)>)
    ensures |r| == |es| && forall i :: 0 <= i < |es| ==> r[i] == (es[i].src, es[i].dst)
  {
    seq(|es|, i requires 0 <= i < |es| => (es[i].src, es[i].dst))
  }

  /** A flattened bundle row: the group's pair, a position in its id list, the group's size. */
  datatype BundleRow = BundleRow(src: int, dst: int, offset: int, length: int)

  /** One group flattened by `flattenIndices`: positions 0..k-1, each with length k. */
  function GroupRows(s: int, d: int, k: nat): (r: seq<BundleRow>)
    ensures |r| == k
    ensures forall o :: 0 <= o < k ==> r[o] == BundleRow(s, d, o, k)
  {
    seq(k, o requires 0 <= o < k => BundleRow(s, d, o, k))
  }

  function GroupTable(all: seq<IdEdge>, groups: seq<(int, int)>): (r: seq<BundleRow>) {
    if groups == [] then []
    else GroupRows(groups[0].0, groups[0].1, PairCount(all, groups[0].0, groups[0].1)) + GroupTable(all, groups[1..])
  }

  /**
   * `edgesToBundles`: group by (src, dst), count each group's members and
   * flatten each group's id list to its indices. Groups are taken in order
   * of first appearance; no later step depends on that order.
   */
  function EdgesToBundles(edges: seq<IdEdge>): (r: seq<BundleRow>) {
    GroupTable(edges, Dedup(PairsOf(edges)))
  }

  lemma {:induction false} GroupTableMember(all: seq<IdEdge>, groups: seq<(int, int)>, b: BundleRow)
    ensures b in GroupTable(all, groups) <==>
              (b.src, b.dst) in groups && 0 <= b.offset < b.length == PairCount(all, b.src, b.dst)
  {
    if groups != [] {
      GroupTableMember(all, groups[1..], b);
      assert groups == [groups[0]] + groups[1..];
      var g := groups[0];
      if b in GroupRows(g.0, g.1, PairCount(all, g.0, g.1)) {
        var o :| 0 <= o < PairCount(all, g.0, g.1) && GroupRows(g.0, g.1, PairCount(all, g.0, g.1))[o] == b;
      }
      if (b.src, b.dst) == g && 0 <= b.offset < b.length == PairCount(all, b.src, b.dst) {
        assert GroupRows(g.0, g.1, PairCount(all, g.0, g.1))[b.offset] == b;
      }
    }
  }

  /** The flattened bundles: for each pair that occurs, one row per position below its count. */
  lemma EdgesToBundlesMember(edges: seq<IdEdge>, b: BundleRow)
    ensures b in EdgesToBundles(edges) <==>
              (exists i :: 0 <= i < |edges| && edges[i].src == b.src && edges[i].dst == b.dst)
              && 0 <= b.offset < b.length == PairCount(edges, b.src, b.dst)
  {
    GroupTableMember(edges, Dedup(PairsOf(edges)), b);
    if (b.src, b.dst) in PairsOf(edges) {
      var i :| 0 <= i < |edges| && PairsOf(edges)[i] == (b.src, b.dst);
    }
    if i :| 0 <= i < |edges| && edges[i].src == b.src && edges[i].dst == b.dst {
      assert PairsOf(edges)[i] == (b.src, b.dst);
    }
  }

  /** A row of `edges.join({ on: ['src', 'dst'], other: bundles })`. */
  datatype JoinedEdge = JoinedEdge(id: int, src: int, dst: int, offset: int, length: int)

  /** The bundle rows on pair (s, d), in table order. */
  function BundlesOn(bundles: seq<BundleRow>, s: int, d: int): (r: seq<BundleRow>)
    ensures forall b :: b in r <==> b in bundles && b.src == s && b.dst == d
  {
    if bundles == [] then []
    else
      assert forall b :: b in bundles <==> b == bundles[0] || b in bundles[1..] by {
        assert bundles == [bundles[0]] + bundles[1..];
      }
      (if bundles[0].src == s && bundles[0].dst == d then [bundles[0]] else []) + BundlesOn(bundles[1..], s, d)
  }

  function Expand(e: IdEdge, bs: seq<BundleRow>): (r: seq<JoinedEdge>)
    ensures forall x :: x in r <==> exists b :: b in bs && x == JoinedEdge(e.id, e.src, e.dst, b.offset, b.length)
  {
    var r := seq(|bs|, o requires 0 <= o < |bs| => JoinedEdge(e.id, e.src, e.dst, bs[o].offset, bs[o].length));
    assert forall x :: (exists b :: b in bs && x == JoinedEdge(e.id, e.src, e.dst, b.offset, b.length)) ==> x in r by {
      forall x, b | b in bs && x == JoinedEdge(e.id, e.src, e.dst, b.offset, b.length)
        ensures x in r
      {
        var o :| 0 <= o < |bs| && bs[o] == b;
        assert r[o] == x;
      }
    }
    r
  }

  /** The inner join on (src, dst): each edge meets every bundle row of its pair. */
  function JoinBundles(es: seq<IdEdge>, bundles: seq<BundleRow>): (r: seq<JoinedEdge>) {
    if es == [] then []
    else Expand(es[0], BundlesOn(bundles, es[0].src, es[0].dst)) + JoinBundles(es[1..], bundles)
  }

  lemma {:induction false} JoinBundlesMember(es: seq<IdEdge>, bundles: seq<BundleRow>, x: JoinedEdge)
    ensures x in JoinBundles(es, bundles) <==>
              exists i, b :: 0 <= i < |es| && b in bundles && b.src == es[i].src && b.dst == es[i].dst
                             && x == JoinedEdge(es[i].id, es[i].src, es[i].dst, b.offset, b.length)
  {
    if es != [] {
      JoinBundlesMember(es[1..], bundles, x);
      if x in JoinBundles(es[1..], bundles) {
        var i, b :| 0 <= i < |es[1..]| && b in bundles && b.src == es[1..][i].src && b.dst == es[1..][i].dst
                    && x == JoinedEdge(es[1..][i].id, es[1..][i].src, es[1..][i].dst, b.offset, b.length);
        assert es[1..][i] == es[i + 1];
      }
      if i, b :| 0 <= i < |es| && b in bundles && b.src == es[i].src && b.dst == es[i].dst
                 && x == JoinedEdge(es[i].id, es[i].src, es[i].dst, b.offset, b.length) {
        if i > 0 {
          assert es[1..][i - 1] == es[i];
        } else {
          assert b in BundlesOn(bundles, es[0].src, es[0].dst);
        }
      }
    }
  }

  /** A row of the bundled edge table: `id, src, dst, edge, bundle`. */
  datatype BundledEdge = BundledEdge(id: int, src: int, dst: int, edge: u64, bundle: u64)

  /** The row for edge `e` at position `o` of a bundle of `k`: both pairs packed little-endian. */
  function BundleOf(e: IdEdge, o: int, k: int): (r: BundledEdge) {
    BundledEdge(e.id, e.src, e.dst, Pack(Bits32(e.src), Bits32(e.dst)), Pack(Bits32(o), Bits32(k)))
  }

  /** `assign({ edge, bundle })`: interleave and view each pair of Int32 columns as Uint64. */
  function BundleColumns(joined: seq<JoinedEdge>): (r: seq<BundledEdge>)
    ensures |r| == |joined|
    ensures forall i :: 0 <= i < |joined| ==>
              r[i] == BundleOf(IdEdge(joined[i].id, joined[i].src, joined[i].dst), joined[i].offset, joined[i].length)
  {
    var n := |joined|;
    var srcs := seq(n, i requires 0 <= i < n => Bits32(joined[i].src));
    var dsts := seq(n, i requires 0 <= i < n => Bits32(joined[i].dst));
    var offsets := seq(n, i requires 0 <= i < n => Bits32(joined[i].offset));
    var lengths := seq(n, i requires 0 <= i < n => Bits32(joined[i].length));
    var edge := PackColumns(srcs, dsts);
    var bundle := PackColumns(offsets, lengths);
    PackedColumns(srcs, dsts);
    PackedColumns(offsets, lengths);
    seq(n, i requires 0 <= i < n => BundledEdge(joined[i].id, joined[i].src, joined[i].dst, edge[i], bundle[i]))
  }

  function EdgeById(e: BundledEdge): (r: int) { e.id }

  /**
   * `computeEdgeBundles` as written: the join on (src, dst) pairs each edge
   * with every flattened row of its bundle, then the table is sorted by id.
   */
  function ComputeEdgeBundles(edges: seq<IdEdge>): (r: seq<BundledEdge>) {
    SortBy(BundleColumns(JoinBundles(edges, EdgesToBundles(edges))), EdgeById)
  }

  /** The bundle row of edge i at position o, as the join on (src, dst) produces it. */
  predicate IsBundleRow(edges: seq<IdEdge>, x: BundledEdge, i: int, o: int) {
    0 <= i < |edges| && 0 <= o < PairCount(edges, edges[i].src, edges[i].dst)
    && x == BundleOf(edges[i], o, PairCount(edges, edges[i].src, edges[i].dst))
  }

  lemma JoinedRowIsBundleRow(edges: seq<IdEdge>, x: BundledEdge)
    requires x in BundleColumns(JoinBundles(edges, EdgesToBundles(edges)))
    ensures exists i, o :: IsBundleRow(edges, x, i, o)
  {
    var bundles := EdgesToBundles(edges);
    var joined := JoinBundles(edges, bundles);
    var cols := BundleColumns(joined);
    var p :| 0 <= p < |cols| && cols[p] == x;
    assert joined[p] in joined;
    JoinBundlesMember(edges, bundles, joined[p]);
    var i, b :| 0 <= i < |edges| && b in bundles && b.src == edges[i].src && b.dst == edges[i].dst
                && joined[p] == JoinedEdge(edges[i].id, edges[i].src, edges[i].dst, b.offset, b.length);
    EdgesToBundlesMember(edges, b);
    assert IsBundleRow(edges, x, i, b.offset);
  }

  lemma BundleRowIsJoined(edges: seq<IdEdge>, x: BundledEdge, i: int, o: int)
    requires IsBundleRow(edges, x, i, o)
    ensures x in BundleColumns(JoinBundles(edges, EdgesToBundles(edges)))
  {
    var bundles := EdgesToBundles(edges);
    var joined := JoinBundles(edges, bundles);
    var k := PairCount(edges, edges[i].src, edges[i].dst);
    EdgesToBundlesMember(edges, BundleRow(edges[i].src, edges[i].dst, o, k));
    var j := JoinedEdge(edges[i].id, edges[i].src, edges[i].dst, o, k);
    JoinBundlesMember(edges, bundles, j);
    var p :| 0 <= p < |joined| && joined[p] == j;
    assert BundleColumns(joined)[p] == x;
  }

  /**
   * The rows of `computeEdgeBundles` as written: edge i appears once for
   * every position o below the size k of its bundle, each time with
   * bundle (o, k); the table is sorted by id.
   */
  lemma ComputeEdgeBundlesRows(edges: seq<IdEdge>, x: BundledEdge)
    ensures SortedBy(ComputeEdgeBundles(edges), EdgeById)
    ensures x in ComputeEdgeBundles(edges) <==> exists i, o :: IsBundleRow(edges, x, i, o)
  {
    var cols := BundleColumns(JoinBundles(edges, EdgesToBundles(edges)));
    SortMembers(cols, EdgeById, x);
    if x in cols {
      JoinedRowIsBundleRow(edges, x);
    }
    if i, o :| IsBundleRow(edges, x, i, o) {
      BundleRowIsJoined(edges, x, i, o);
    }
  }

  /** Two edges 0 -> 1 and one edge 1 -> 0, ids 0, 1, 2. */
  function ParallelEdges(): (r: seq<IdEdge>) {
    [IdEdge(0, 0, 1), IdEdge(1, 0, 1), IdEdge(2, 1, 0)]
  }

  /**
   * As written, edge 0 of a two-edge bundle gets two rows, one with offset 0
   * and one with offset 1, although the edge table is meant to hold one row
   * per edge.
   */
  lemma ParallelEdgesRepeated()
    ensures BundleOf(IdEdge(0, 0, 1), 0, 2) in ComputeEdgeBundles(ParallelEdges())
    ensures BundleOf(IdEdge(0, 0, 1), 1, 2) in ComputeEdgeBundles(ParallelEdges())
    ensures BundleOf(IdEdge(0, 0, 1), 0, 2) != BundleOf(IdEdge(0, 0, 1), 1, 2)
  {
    var es := ParallelEdges();
    assert PairCount(es, 0, 1) == 2 by {
      assert es[..2][..1] == [es[0]];
      assert es[..2] == es[..|es| - 1];
    }
    ComputeEdgeBundlesRows(es, BundleOf(es[0], 0, 2));
    assert IsBundleRow(es, BundleOf(es[0], 0, 2), 0, 0);
    ComputeEdgeBundlesRows(es, BundleOf(es[0], 1, 2));
    assert IsBundleRow(es, BundleOf(es[0], 1, 2), 0, 1);
    PackUnpack(0, 2);
    PackUnpack(1, 2);
  }

  /** As written the example's table has five rows, where the intended one has three. */
  lemma ParallelEdgesRowCount()
    ensures |ComputeEdgeBundles(ParallelEdges())| == 5
    ensures |BundleEdges(ParallelEdges())| == 3
  {
    var es := ParallelEdges();
    assert PairCount(es, 0, 1) == 2 by {
      assert es[..2][..1] == [es[0]];
      assert es[..2] == es[..|es| - 1];
    }
    assert PairCount(es, 1, 0) == 1 by {
      assert es[..2][..1] == [es[0]];
      assert es[..2] == es[..|es| - 1];
    }
    assert RowCount(es, es[2..]) == 1;
    assert es[1..][1..] == es[2..];
    ComputeEdgeBundlesCount(es);
  }

  /** The position of edge i in its bundle's id list: earlier edges on the same pair. */
  function Rank(es: seq<IdEdge>, i: nat): (r: nat)
    requires i < |es|
  {
    PairCount(es[..i], es[i].src, es[i].dst)
  }

  lemma {:induction false} PairCountPrefix(es: seq<IdEdge>, i: nat, j: nat, s: int, d: int)
    requires i <= j <= |es|
    ensures PairCount(es[..i], s, d) <= PairCount(es[..j], s, d)
    decreases j - i
  {
    if i < j {
      PairCountPrefix(es, i, j - 1, s, d);
      assert es[..j][..j - 1] == es[..j - 1];
    }
  }

  lemma PairCountStep(es: seq<IdEdge>, i: nat)
    requires i < |es|
    ensures PairCount(es[..i + 1], es[i].src, es[i].dst) == Rank(es, i) + 1
  {
    assert es[..i + 1][..i] == es[..i];
  }

  /** Every position below a bundle's size is the rank of one of its edges. */
  lemma {:induction false} RankAttained(es: seq<IdEdge>, s: int, d: int, o: nat)
    requires o < PairCount(es, s, d)
    ensures exists i :: 0 <= i < |es| && es[i].src == s && es[i].dst == d && Rank(es, i) == o
    decreases |es|
  {
    var n := |es| - 1;
    var init := es[..n];
    if o < PairCount(init, s, d) {
      RankAttained(init, s, d, o);
      var i :| 0 <= i < |init| && init[i].src == s && init[i].dst == d && Rank(init, i) == o;
      assert init[..i] == es[..i];
    } else {
      assert es[..n] == init;
    }
  }

  /**
   * `computeEdgeBundles` as evidently intended: one row per edge, sorted by
   * id, carrying the edge's own position within its bundle and the bundle's
   * size (the join matched on the edge id the position belongs to).
   */
  function BundleEdges(edges: seq<IdEdge>): (r: seq<BundledEdge>) {
    SortBy(IntendedRows(edges), EdgeById)
  }

  /** Edge i with its rank within its bundle and the bundle's size, in edge order. */
  function IntendedRows(edges: seq<IdEdge>): (r: seq<BundledEdge>)
    ensures |r| == |edges|
    ensures forall i :: 0 <= i < |edges| ==>
              r[i] == BundleOf(edges[i], Rank(edges, i), PairCount(edges, edges[i].src, edges[i].dst))
  {
    seq(|edges|, i requires 0 <= i < |edges| =>
      BundleOf(edges[i], Rank(edges, i), PairCount(edges, edges[i].src, edges[i].dst)))
  }

  predicate IdsAscending(edges: seq<IdEdge>) {
    forall i, j :: 0 <= i < j < |edges| ==> edges[i].id <= edges[j].id
  }

  /** With edges in id order, the bundled table keeps them in place, one row per edge. */
  lemma BundleEdgesRows(edges: seq<IdEdge>)
    requires IdsAscending(edges)
    ensures |BundleEdges(edges)| == |edges|
    ensures forall i :: 0 <= i < |edges| ==>
              BundleEdges(edges)[i] == BundleOf(edges[i], Rank(edges, i), PairCount(edges, edges[i].src, edges[i].dst))
  {
    var rows := IntendedRows(edges);
    assert SortedBy(rows, EdgeById);
    SortSorted(rows, EdgeById);
  }

  /**
   * Offsets and lengths: `0 <= offset < length`, the length is the number of
   * edges on the same ordered pair, and edges on one pair get distinct
   * offsets; with `RankAttained` every offset below the length is used, so
   * the offsets of a bundle are exactly 0..length-1.
   */
  lemma RankBounds(edges: seq<IdEdge>)
    ensures forall i :: 0 <= i < |edges| ==>
              0 <= Rank(edges, i) < PairCount(edges, edges[i].src, edges[i].dst)
    ensures forall i, j :: 0 <= i < j < |edges| && edges[i].src == edges[j].src && edges[i].dst == edges[j].dst ==>
              Rank(edges, i) < Rank(edges, j)
  {
    forall i | 0 <= i < |edges|
      ensures 0 <= Rank(edges, i) < PairCount(edges, edges[i].src, edges[i].dst)
    {
      PairCountStep(edges, i);
      PairCountPrefix(edges, i + 1, |edges|, edges[i].src, edges[i].dst);
      assert edges[..|edges|] == edges;
    }
    forall i, j | 0 <= i < j < |edges| && edges[i].src == edges[j].src && edges[i].dst == edges[j].dst
      ensures Rank(edges, i) < Rank(edges, j)
    {
      PairCountStep(edges, i);
      PairCountPrefix(edges, i + 1, j, edges[i].src, edges[i].dst);
    }
  }

  /** The example's ranks and bundle sizes. */
  lemma ParallelEdgesRanks()
    ensures var es := ParallelEdges();
            Rank(es, 0) == 0 && Rank(es, 1) == 1 && Rank(es, 2) == 0
            && PairCount(es, 0, 1) == 2 && PairCount(es, 1, 0) == 1
  {
    var es := ParallelEdges();
    assert es[..2][..1] == [es[0]];
    assert es[..2] == es[..|es| - 1];
    assert es[..1][..0] == [];
  }

  /** On the parallel-edge example the intended table has three rows: bundle (0, 2), (1, 2) and (0, 1). */
  lemma ParallelEdgesBundled()
    ensures BundleEdges(ParallelEdges()) ==
              [BundleOf(IdEdge(0, 0, 1), 0, 2), BundleOf(IdEdge(1, 0, 1), 1, 2), BundleOf(IdEdge(2, 1, 0), 0, 1)]
  {
    var es := ParallelEdges();
    ParallelEdgesRanks();
    var want := [BundleOf(es[0], 0, 2), BundleOf(es[1], 1, 2), BundleOf(es[2], 0, 1)];
    assert IntendedRows(es) == want by {
      assert IntendedRows(es)[0] == want[0];
      assert IntendedRows(es)[1] == want[1];
      assert IntendedRows(es)[2] == want[2];
    }
    BundleEdgesRows(es);
  }

  /**
   * Unpacking a bundled row recovers its pairs exactly: `edge` holds
   * (src, dst), `bundle` holds (offset, length), and rows share an `edge`
   * key exactly when they share the ordered pair.
   */
  lemma BundleOfUnpacks(e: IdEdge, o: int, k: int, e2: IdEdge, o2: int, k2: int)
    requires 0 <= e.src < TWO32 && 0 <= e.dst < TWO32 && 0 <= o < TWO32 && 0 <= k < TWO32
    requires 0 <= e2.src < TWO32 && 0 <= e2.dst < TWO32
    ensures Low(BundleOf(e, o, k).edge) == e.src && High(BundleOf(e, o, k).edge) == e.dst
    ensures Low(BundleOf(e, o, k).bundle) == o && High(BundleOf(e, o, k).bundle) == k
    ensures BundleOf(e, o, k).edge == BundleOf(e2, o2, k2).edge <==> e.src == e2.src && e.dst == e2.dst
  {
    PackUnpack(e.src, e.dst);
    PackUnpack(o, k);
    PackInjective(e.src, e.dst, e2.src, e2.dst);
  }

  // The join as written, edge by edge

  lemma {:induction false} BundlesOnSplit(a: seq<BundleRow>, b: seq<BundleRow>, s: int, d: int)
    ensures BundlesOn(a + b, s, d) == BundlesOn(a, s, d) + BundlesOn(b, s, d)
  {
    if a == [] {
      assert a + b == b;
    } else {
      assert (a + b)[1..] == a[1..] + b;
      BundlesOnSplit(a[1..], b, s, d);
    }
  }

  /** Rows all on pair (s, d) are kept whole; rows none of which are on it are all dropped. */
  lemma {:induction false} BundlesOnSame(bs: seq<BundleRow>, s: int, d: int)
    ensures (forall i :: 0 <= i < |bs| ==> bs[i].src == s && bs[i].dst == d) ==> BundlesOn(bs, s, d) == bs
    ensures (forall i :: 0 <= i < |bs| ==> bs[i].src != s || bs[i].dst != d) ==> BundlesOn(bs, s, d) == []
  {
    if bs != [] {
      assert forall i :: 0 <= i < |bs[1..]| ==> bs[1..][i] == bs[i + 1];
      BundlesOnSame(bs[1..], s, d);
      assert bs == [bs[0]] + bs[1..];
    }
  }

  /** Over distinct groups, the rows on (s, d) are that group's rows, or none. */
  lemma {:induction false} GroupTableOn(all: seq<IdEdge>, groups: seq<(int, int)>, s: int, d: int)
    requires Distinct(groups)
    ensures BundlesOn(GroupTable(all, groups), s, d) ==
              if (s, d) in groups then GroupRows(s, d, PairCount(all, s, d)) else []
  {
    if groups != [] {
      var g := groups[0];
      var rows := GroupRows(g.0, g.1, PairCount(all, g.0, g.1));
      DistinctTail(groups);
      assert groups == [g] + groups[1..];
      BundlesOnSplit(rows, GroupTable(all, groups[1..]), s, d);
      BundlesOnSame(rows, s, d);
      GroupTableOn(all, groups[1..], s, d);
    }
  }

  lemma DistinctTail<T>(s: seq<T>)
    requires Distinct(s) && s != []
    ensures Distinct(s[1..]) && s[0] !in s[1..]
  {
    assert forall i :: 0 <= i < |s[1..]| ==> s[1..][i] == s[i + 1];
  }

  lemma {:induction false} PairCountAbsent(es: seq<IdEdge>, s: int, d: int)
    requires forall i :: 0 <= i < |es| ==> es[i].src != s || es[i].dst != d
    ensures PairCount(es, s, d) == 0
  {
    if es != [] {
      var n := |es| - 1;
      assert forall i :: 0 <= i < |es[..n]| ==> es[..n][i] == es[i];
      PairCountAbsent(es[..n], s, d);
    }
  }

  /** The flattened bundle rows on (s, d): offsets 0..k-1 for the k edges on that pair. */
  lemma BundlesOfPair(edges: seq<IdEdge>, s: int, d: int)
    ensures BundlesOn(EdgesToBundles(edges), s, d) == GroupRows(s, d, PairCount(edges, s, d))
  {
    var pairs := PairsOf(edges);
    GroupTableOn(edges, Dedup(pairs), s, d);
    if (s, d) !in pairs {
      forall i | 0 <= i < |edges|
        ensures edges[i].src != s || edges[i].dst != d
      {
        assert pairs[i] == (edges[i].src, edges[i].dst);
      }
      PairCountAbsent(edges, s, d);
    }
  }

  /** The joined rows of edge e in a bundle of k: offsets 0..k-1, in that order. */
  function EdgeRows(e: IdEdge, k: nat): (r: seq<JoinedEdge>)
    ensures |r| == k && forall o :: 0 <= o < k ==> r[o] == JoinedEdge(e.id, e.src, e.dst, o, k)
  {
    seq(k, o requires 0 <= o < k => JoinedEdge(e.id, e.src, e.dst, o, k))
  }

  /** Each edge of `es` in turn, followed by its rows for its bundle among `all`. */
  function JoinedRows(all: seq<IdEdge>, es: seq<IdEdge>): (r: seq<JoinedEdge>) {
    if es == [] then [] else EdgeRows(es[0], PairCount(all, es[0].src, es[0].dst)) + JoinedRows(all, es[1..])
  }

  /** The join on (src, dst) as written gives each edge, in edge order, all k rows of its bundle. */
  lemma {:induction false} JoinBundlesRows(all: seq<IdEdge>, es: seq<IdEdge>)
    ensures JoinBundles(es, EdgesToBundles(all)) == JoinedRows(all, es)
  {
    if es != [] {
      var e := es[0];
      var k := PairCount(all, e.src, e.dst);
      BundlesOfPair(all, e.src, e.dst);
      assert Expand(e, GroupRows(e.src, e.dst, k)) == EdgeRows(e, k);
      JoinBundlesRows(all, es[1..]);
    }
  }

  /** The number of joined rows: the sum over the edges of their bundle sizes. */
  function RowCount(all: seq<IdEdge>, es: seq<IdEdge>): (r: nat) {
    if es == [] then 0 else PairCount(all, es[0].src, es[0].dst) + RowCount(all, es[1..])
  }

  lemma {:induction false} JoinedRowsCount(all: seq<IdEdge>, es: seq<IdEdge>)
    ensures |JoinedRows(all, es)| == RowCount(all, es)
  {
    if es != [] {
      JoinedRowsCount(all, es[1..]);
    }
  }

  /**
   * As written, the edge table has one row per edge and offset of its
   * bundle: the sum over the edges of their bundle sizes, k² rows for a
   * bundle of k parallel edges.
   */
  lemma ComputeEdgeBundlesCount(edges: seq<IdEdge>)
    ensures |ComputeEdgeBundles(edges)| == RowCount(edges, edges)
  {
    JoinBundlesRows(edges, edges);
    JoinedRowsCount(edges, edges);
  }

  /** No two edges share their ordered pair: every bundle has size one. */
  predicate NoParallel(edges: seq<IdEdge>) {
    forall i :: 0 <= i < |edges| ==> PairCount(edges, edges[i].src, edges[i].dst) == 1
  }

  lemma {:induction false} JoinedRowsSingle(all: seq<IdEdge>, es: seq<IdEdge>)
    requires forall i :: 0 <= i < |es| ==> PairCount(all, es[i].src, es[i].dst) == 1
    ensures |JoinedRows(all, es)| == |es|
    ensures forall i :: 0 <= i < |es| ==> JoinedRows(all, es)[i] == JoinedEdge(es[i].id, es[i].src, es[i].dst, 0, 1)
  {
    if es != [] {
      assert forall i :: 0 <= i < |es[1..]| ==> es[1..][i] == es[i + 1];
      JoinedRowsSingle(all, es[1..]);
    }
  }

  /** Without parallel edges the table as written is the intended one-row-per-edge table. */
  lemma NoParallelBundles(edges: seq<IdEdge>)
    requires NoParallel(edges)
    ensures ComputeEdgeBundles(edges) == BundleEdges(edges)
  {
    SingleColumns(edges);
    var cols := BundleColumns(JoinBundles(edges, EdgesToBundles(edges)));
    var rows := IntendedRows(edges);
    forall i | 0 <= i < |edges|
      ensures cols[i] == rows[i]
    {
      SingleRank(edges, i);
    }
    assert cols == rows;
  }

  /** Without parallel edges, the joined columns hold each edge once, at offset 0 of a bundle of 1. */
  lemma SingleColumns(edges: seq<IdEdge>)
    requires NoParallel(edges)
    ensures var cols := BundleColumns(JoinBundles(edges, EdgesToBundles(edges)));
            |cols| == |edges| && forall i :: 0 <= i < |edges| ==> cols[i] == BundleOf(edges[i], 0, 1)
  {
    JoinBundlesRows(edges, edges);
    JoinedRowsSingle(edges, edges);
    var joined := JoinBundles(edges, EdgesToBundles(edges));
    var cols := BundleColumns(joined);
    forall i | 0 <= i < |edges|
      ensures cols[i] == BundleOf(edges[i], 0, 1)
    {
      assert joined[i] == JoinedEdge(edges[i].id, edges[i].src, edges[i].dst, 0, 1);
      assert IdEdge(joined[i].id, joined[i].src, joined[i].dst) == edges[i];
    }
  }

  /** Without parallel edges every edge is alone in its bundle, at offset 0. */
  lemma SingleRank(edges: seq<IdEdge>, i: nat)
    requires NoParallel(edges) && i < |edges|
    ensures Rank(edges, i) == 0 && PairCount(edges, edges[i].src, edges[i].dst) == 1
  {
    RankBounds(edges);
  }

  // ---------------------------------------------------------------------
  // Edge colors: `computeEdgeColors`

  datatype Endpoint = Src | Dst

  function EndOf(e: BundledEdge, which: Endpoint): (r: int) {
    if which == Src then e.src else e.dst
  }

  /** The colors of the shaped nodes whose id is `v`, in table order. */
  function ColorsOf(v: int, nodes: seq<ShapedNode>): (r: seq<u32>) {
    if nodes == [] then []
    else (if nodes[0].id == v then [nodes[0].color] else []) + ColorsOf(v, nodes[1..])
  }

  /** A row of the color join: edge id and the color of the looked-up node. */
  datatype ColorRow = ColorRow(id: int, color: u32)

  function ColorById(c: ColorRow): (r: int) { c.id }

  /** `edges.select(['id', end]).join({ on: [end], other: nodes.select(['id', 'color']) })`. */
  function JoinColors(rows: seq<BundledEdge>, which: Endpoint, nodes: seq<ShapedNode>): (r: seq<ColorRow>) {
    if rows == [] then []
    else
      var c := ColorsOf(EndOf(rows[0], which), nodes);
      seq(|c|, t requires 0 <= t < |c| => ColorRow(rows[0].id, c[t])) + JoinColors(rows[1..], which, nodes)
  }

  /** The joined colors re-sorted by edge id: `.sortValues({ id }).get('color')`. */
  function LookupColors(rows: seq<BundledEdge>, which: Endpoint, nodes: seq<ShapedNode>): (r: seq<u32>) {
    var joined := SortBy(JoinColors(rows, which, nodes), ColorById);
    seq(|joined|, p requires 0 <= p < |joined| => joined[p].color)
  }

  /**
   * `computeEdgeColors`: the source colors and target colors interleaved and
   * viewed as one Uint64 per row; the two columns must have equal length.
   */
  function ComputeEdgeColors(rows: seq<BundledEdge>, nodes: seq<ShapedNode>): (r: Result<seq<u64>, ShapeError>) {
    var src := LookupColors(rows, Src, nodes);
    var dst := LookupColors(rows, Dst, nodes);
    if |src| != |dst| then Failure(ColumnLengthMismatch) else Success(PackColumns(src, dst))
  }

  /** The shaped node table holds node i at position i. */
  predicate DenseIds(nodes: seq<ShapedNode>) {
    forall i :: 0 <= i < |nodes| ==> nodes[i].id == i
  }

  lemma {:induction false} ColorsOfAbsent(v: int, nodes: seq<ShapedNode>)
    requires forall i :: 0 <= i < |nodes| ==> nodes[i].id != v
    ensures ColorsOf(v, nodes) == []
  {
    if nodes != [] {
      ColorsOfAbsent(v, nodes[1..]);
    }
  }

  /** A node id that occurs once finds exactly that node's color. */
  lemma {:induction false} ColorsOfUnique(v: int, nodes: seq<ShapedNode>, j: nat)
    requires j < |nodes| && nodes[j].id == v
    requires forall i :: 0 <= i < |nodes| && i != j ==> nodes[i].id != v
    ensures ColorsOf(v, nodes) == [nodes[j].color]
  {
    if j == 0 {
      ColorsOfAbsent(v, nodes[1..]);
    } else {
      ColorsOfUnique(v, nodes[1..], j - 1);
    }
  }

  lemma {:induction false} JoinColorsDense(rows: seq<BundledEdge>, which: Endpoint, nodes: seq<ShapedNode>)
    requires DenseIds(nodes)
    requires forall p :: 0 <= p < |rows| ==> 0 <= EndOf(rows[p], which) < |nodes|
    ensures JoinColors(rows, which, nodes) ==
              seq(|rows|, p requires 0 <= p < |rows| => ColorRow(rows[p].id, nodes[EndOf(rows[p], which)].color))
  {
    if rows != [] {
      ColorsOfUnique(EndOf(rows[0], which), nodes, EndOf(rows[0], which));
      JoinColorsDense(rows[1..], which, nodes);
    }
  }

  lemma LookupColorsDense(rows: seq<BundledEdge>, which: Endpoint, nodes: seq<ShapedNode>)
    requires DenseIds(nodes) && SortedBy(rows, EdgeById)
    requires forall p :: 0 <= p < |rows| ==> 0 <= EndOf(rows[p], which) < |nodes|
    ensures |LookupColors(rows, which, nodes)| == |rows|
    ensures forall p :: 0 <= p < |rows| ==> LookupColors(rows, which, nodes)[p] == nodes[EndOf(rows[p], which)].color
  {
    JoinColorsDense(rows, which, nodes);
    var joined := JoinColors(rows, which, nodes);
    assert SortedBy(joined, ColorById);
    SortSorted(joined, ColorById);
  }

  /**
   * With one shaped node per id and edge rows in id order, edge row p gets
   * the color of its source node in the low half and of its target node in
   * the high half.
   */
  lemma EdgeColorsAligned(rows: seq<BundledEdge>, nodes: seq<ShapedNode>)
    requires DenseIds(nodes) && SortedBy(rows, EdgeById)
    requires forall p :: 0 <= p < |rows| ==> 0 <= rows[p].src < |nodes| && 0 <= rows[p].dst < |nodes|
    ensures ComputeEdgeColors(rows, nodes).Success?
    ensures |ComputeEdgeColors(rows, nodes).value| == |rows|
    ensures forall p :: 0 <= p < |rows| ==>
              Low(ComputeEdgeColors(rows, nodes).value[p]) == nodes[rows[p].src].color
              && High(ComputeEdgeColors(rows, nodes).value[p]) == nodes[rows[p].dst].color
    ensures forall p :: 0 <= p < |rows| ==>
              ComputeEdgeColors(rows, nodes).value[p] == Pack(nodes[rows[p].src].color, nodes[rows[p].dst].color)
  {
    LookupColorsDense(rows, Src, nodes);
    LookupColorsDense(rows, Dst, nodes);
    PackedColumns(LookupColors(rows, Src, nodes), LookupColors(rows, Dst, nodes));
  }

  // ---------------------------------------------------------------------
  // shapeEdges and shapeGraph

  /** A row of the shaped edge table: `id, src, dst, edge, bundle, color`. */
  datatype ShapedEdge = ShapedEdge(id: int, src: int, dst: int, edge: u64, bundle: u64, color: u64)

  /** `edges.assign({ color })` over the table `computeEdgeBundles` builds. */
  function ShapeEdges(edges: seq<IdEdge>, nodes: seq<ShapedNode>): (r: Result<seq<ShapedEdge>, ShapeError>) {
    AssignColors(ComputeEdgeBundles(edges), nodes)
  }

  /** The `color` column of the bundled table, added row by row; it must match the table's length. */
  function AssignColors(rows: seq<BundledEdge>, nodes: seq<ShapedNode>): (r: Result<seq<ShapedEdge>, ShapeError>) {
    match ComputeEdgeColors(rows, nodes)
    case Failure(e) => Failure(e)
    case Success(color) =>
      if |color| != |rows| then Failure(ColumnLengthMismatch)
      else Success(seq(|rows|, p requires 0 <= p < |rows| =>
        ShapedEdge(rows[p].id, rows[p].src, rows[p].dst, rows[p].edge, rows[p].bundle, color[p])))
  }

  /**
   * The shaped graph: node table, edge table, the renumbering behind the ids
   * and `graph.numEdges`, the number of edges of the sampled edge list.
   */
  datatype ShapedGraph = ShapedGraph(nodes: seq<ShapedNode>, edges: seq<ShapedEdge>, keys: seq<int>, numEdges: nat)

  /** `shapeGraph`: subsample, renumber, shape the nodes, then the edges. */
  function ShapeGraph(g: GpuRead.Graph, keys: seq<int>): (r: Result<ShapedGraph, ShapeError>)
    requires IsRenumbering(keys, Subsample(g.edges))
  {
    var sampled := Subsample(g.edges);
    var ids := EdgeIds(sampled, keys);
    match ShapeNodes(keys, g.nodes)
    case Failure(e) => Failure(e)
    case Success(nodes) =>
      match ShapeEdges(ids, nodes)
      case Failure(e) => Failure(e)
      case Success(edges) => Success(ShapedGraph(nodes, edges, keys, |sampled|))
  }

  /** With both tables shaped, the graph holds them, the keys and the sampled edge count. */
  lemma ShapeGraphParts(g: GpuRead.Graph, keys: seq<int>)
    requires IsRenumbering(keys, Subsample(g.edges))
    requires ShapeNodes(keys, g.nodes).Success?
    requires ShapeEdges(EdgeIds(Subsample(g.edges), keys), ShapeNodes(keys, g.nodes).value).Success?
    ensures ShapeGraph(g, keys) ==
              Success(ShapedGraph(ShapeNodes(keys, g.nodes).value,
                                  ShapeEdges(EdgeIds(Subsample(g.edges), keys), ShapeNodes(keys, g.nodes).value).value,
                                  keys, |Subsample(g.edges)|))
  {
  }

  /** With one input node per key, the node table is dense over the keys. */
  lemma ShapeNodesIds(keys: seq<int>, inNodes: seq<GpuRead.NodeRow>)
    requires forall i :: 0 <= i < |keys| ==> KeyCount(keys[i], inNodes) == 1
    requires ShapeNodes(keys, inNodes).Success?
    ensures |ShapeNodes(keys, inNodes).value| == |keys| && DenseIds(ShapeNodes(keys, inNodes).value)
  {
    ShapeNodesDense(keys, inNodes);
  }

  /** The bundled part of a shaped row. */
  function Unshaped(x: ShapedEdge): (r: BundledEdge) {
    BundledEdge(x.id, x.src, x.dst, x.edge, x.bundle)
  }

  /**
   * The shaped row of edge i at offset o of its bundle: the bundled row with
   * the colors of its source and target node packed little-endian.
   */
  predicate IsShapedRow(ids: seq<IdEdge>, nodes: seq<ShapedNode>, x: ShapedEdge, i: int, o: int) {
    IsBundleRow(ids, Unshaped(x), i, o)
    && 0 <= ids[i].src < |nodes| && 0 <= ids[i].dst < |nodes|
    && x.color == Pack(nodes[ids[i].src].color, nodes[ids[i].dst].color)
  }

  /** Every row of the table as written has endpoints among the edges' endpoints. */
  lemma BundledRowsInRange(ids: seq<IdEdge>, nodes: seq<ShapedNode>)
    requires forall p :: 0 <= p < |ids| ==> 0 <= ids[p].src < |nodes| && 0 <= ids[p].dst < |nodes|
    ensures var rows := ComputeEdgeBundles(ids);
            forall p :: 0 <= p < |rows| ==> 0 <= rows[p].src < |nodes| && 0 <= rows[p].dst < |nodes|
  {
    var rows := ComputeEdgeBundles(ids);
    forall p | 0 <= p < |rows|
      ensures 0 <= rows[p].src < |nodes| && 0 <= rows[p].dst < |nodes|
    {
      ComputeEdgeBundlesRows(ids, rows[p]);
      var i, o :| IsBundleRow(ids, rows[p], i, o);
    }
  }

  /** The shaped table as written: one colored row per bundled row, in the same order. */
  lemma ShapeEdgesOk(ids: seq<IdEdge>, nodes: seq<ShapedNode>)
    requires DenseIds(nodes)
    requires forall p :: 0 <= p < |ids| ==> 0 <= ids[p].src < |nodes| && 0 <= ids[p].dst < |nodes|
    ensures ShapeEdges(ids, nodes).Success?
    ensures |ShapeEdges(ids, nodes).value| == |ComputeEdgeBundles(ids)|
    ensures forall p :: 0 <= p < |ShapeEdges(ids, nodes).value| ==>
              Unshaped(ShapeEdges(ids, nodes).value[p]) == ComputeEdgeBundles(ids)[p]
  {
    ComputeEdgeBundlesRows(ids, BundledEdge(0, 0, 0, 0, 0));
    BundledRowsInRange(ids, nodes);
    ColoredRows(ComputeEdgeBundles(ids), nodes);
  }

  /** Row p of the shaped table: bundled row p with its two endpoint colors. */
  lemma ShapedAt(ids: seq<IdEdge>, nodes: seq<ShapedNode>, p: nat)
    requires DenseIds(nodes)
    requires forall p :: 0 <= p < |ids| ==> 0 <= ids[p].src < |nodes| && 0 <= ids[p].dst < |nodes|
    requires p < |ComputeEdgeBundles(ids)|
    ensures ShapeEdges(ids, nodes).Success? && p < |ShapeEdges(ids, nodes).value|
    ensures var b := ComputeEdgeBundles(ids)[p];
            0 <= b.src < |nodes| && 0 <= b.dst < |nodes|
            && ShapeEdges(ids, nodes).value[p]
               == ShapedEdge(b.id, b.src, b.dst, b.edge, b.bundle, Pack(nodes[b.src].color, nodes[b.dst].color))
  {
    ComputeEdgeBundlesRows(ids, BundledEdge(0, 0, 0, 0, 0));
    BundledRowsInRange(ids, nodes);
    ColoredRows(ComputeEdgeBundles(ids), nodes);
  }

  /** Every shaped row is edge i's row at some offset o of its bundle. */
  lemma ShapedRowSound(ids: seq<IdEdge>, nodes: seq<ShapedNode>, x: ShapedEdge)
    requires DenseIds(nodes)
    requires forall p :: 0 <= p < |ids| ==> 0 <= ids[p].src < |nodes| && 0 <= ids[p].dst < |nodes|
    requires ShapeEdges(ids, nodes).Success? && x in ShapeEdges(ids, nodes).value
    ensures exists i, o :: IsShapedRow(ids, nodes, x, i, o)
  {
    var v := ShapeEdges(ids, nodes).value;
    var p :| 0 <= p < |v| && v[p] == x;
    ShapeEdgesOk(ids, nodes);
    ShapedAt(ids, nodes, p);
    var b := ComputeEdgeBundles(ids)[p];
    ComputeEdgeBundlesRows(ids, b);
    var i, o :| IsBundleRow(ids, b, i, o);
    assert Unshaped(x) == b;
    assert IsShapedRow(ids, nodes, x, i, o);
  }

  /** Edge i's row at each offset o of its bundle is in the shaped table. */
  lemma ShapedRowComplete(ids: seq<IdEdge>, nodes: seq<ShapedNode>, x: ShapedEdge, i: int, o: int)
    requires DenseIds(nodes)
    requires forall p :: 0 <= p < |ids| ==> 0 <= ids[p].src < |nodes| && 0 <= ids[p].dst < |nodes|
    requires IsShapedRow(ids, nodes, x, i, o)
    ensures ShapeEdges(ids, nodes).Success? && x in ShapeEdges(ids, nodes).value
  {
    var rows := ComputeEdgeBundles(ids);
    ComputeEdgeBundlesRows(ids, Unshaped(x));
    var p :| 0 <= p < |rows| && rows[p] == Unshaped(x);
    ShapedAt(ids, nodes, p);
    assert ShapeEdges(ids, nodes).value[p] == x;
  }

  /** A shaped row is present exactly when it is edge i's row at some offset o of its bundle. */
  lemma ShapedRowMember(ids: seq<IdEdge>, nodes: seq<ShapedNode>, x: ShapedEdge)
    requires DenseIds(nodes)
    requires forall p :: 0 <= p < |ids| ==> 0 <= ids[p].src < |nodes| && 0 <= ids[p].dst < |nodes|
    ensures ShapeEdges(ids, nodes).Success?
    ensures x in ShapeEdges(ids, nodes).value <==> exists i, o :: IsShapedRow(ids, nodes, x, i, o)
  {
    ShapeEdgesOk(ids, nodes);
    if x in ShapeEdges(ids, nodes).value {
      ShapedRowSound(ids, nodes, x);
    }
    if i, o :| IsShapedRow(ids, nodes, x, i, o) {
      ShapedRowComplete(ids, nodes, x, i, o);
    }
  }

  /**
   * The shaped edge table over a dense node table: sorted by edge id, with
   * as many rows as the edges have bundle partners in all (k² for a bundle
   * of k), and holding exactly the row of each edge at each offset of its
   * bundle, colored by its two endpoints.
   */
  lemma ShapeEdgesRows(ids: seq<IdEdge>, nodes: seq<ShapedNode>)
    requires DenseIds(nodes)
    requires forall p :: 0 <= p < |ids| ==> 0 <= ids[p].src < |nodes| && 0 <= ids[p].dst < |nodes|
    ensures ShapeEdges(ids, nodes).Success?
    ensures |ShapeEdges(ids, nodes).value| == RowCount(ids, ids)
    ensures var v := ShapeEdges(ids, nodes).value;
            forall p, q :: 0 <= p < q < |v| ==> v[p].id <= v[q].id
    ensures forall x :: x in ShapeEdges(ids, nodes).value <==> exists i, o :: IsShapedRow(ids, nodes, x, i, o)
  {
    ComputeEdgeBundlesCount(ids);
    ShapeEdgesOk(ids, nodes);
    ShapeEdgesOrdered(ids, nodes);
    forall x | true
      ensures x in ShapeEdges(ids, nodes).value <==> exists i, o :: IsShapedRow(ids, nodes, x, i, o)
    {
      ShapedRowMember(ids, nodes, x);
    }
  }

  /** The shaped table keeps the id order of the bundled table. */
  lemma ShapeEdgesOrdered(ids: seq<IdEdge>, nodes: seq<ShapedNode>)
    requires DenseIds(nodes)
    requires forall p :: 0 <= p < |ids| ==> 0 <= ids[p].src < |nodes| && 0 <= ids[p].dst < |nodes|
    ensures ShapeEdges(ids, nodes).Success?
    ensures var v := ShapeEdges(ids, nodes).value;
            forall p, q :: 0 <= p < q < |v| ==> v[p].id <= v[q].id
  {
    ComputeEdgeBundlesRows(ids, BundledEdge(0, 0, 0, 0, 0));
    ShapeEdgesOk(ids, nodes);
    var v := ShapeEdges(ids, nodes).value;
    var rows := ComputeEdgeBundles(ids);
    forall p | 0 <= p < |v|
      ensures v[p].id == rows[p].id
    {
      assert Unshaped(v[p]) == rows[p];
    }
  }

  /** The edge row for sampled edge p, in terms of the renumbered edge list. */
  predicate EdgeRowHolds(ids: seq<IdEdge>, nodes: seq<ShapedNode>, x: ShapedEdge, p: int)
    requires 0 <= p < |ids|
    requires 0 <= x.src < |nodes| && 0 <= x.dst < |nodes|
  {
    x.id == ids[p].id && x.src == ids[p].src && x.dst == ids[p].dst
    && Low(x.edge) == x.src && High(x.edge) == x.dst
    && Low(x.bundle) == Rank(ids, p) && High(x.bundle) == PairCount(ids, x.src, x.dst)
    && Low(x.bundle) < High(x.bundle)
    && Low(x.color) == nodes[x.src].color && High(x.color) == nodes[x.dst].color
  }

  /**
   * Without parallel edges, the edge table of an id-ordered edge list holds
   * one row per edge, in order, with its words unpacking to the endpoints,
   * offset 0 of a bundle of 1, and the two endpoint colors.
   */
  lemma ShapeEdgesSimple(ids: seq<IdEdge>, nodes: seq<ShapedNode>)
    requires NoParallel(ids) && IdsAscending(ids) && DenseIds(nodes)
    requires |ids| < TWO32 && |nodes| <= TWO32
    requires forall p :: 0 <= p < |ids| ==> 0 <= ids[p].src < |nodes| && 0 <= ids[p].dst < |nodes|
    ensures ShapeEdges(ids, nodes).Success?
    ensures |ShapeEdges(ids, nodes).value| == |ids|
    ensures forall p :: 0 <= p < |ids| ==>
              var x := ShapeEdges(ids, nodes).value[p];
              0 <= x.src < |nodes| && 0 <= x.dst < |nodes| && EdgeRowHolds(ids, nodes, x, p)
              && Low(x.bundle) == 0 && High(x.bundle) == 1
  {
    NoParallelShape(ids, nodes);
    IntendedEdgesRows(ids, nodes);
    var v := AssignColors(BundleEdges(ids), nodes).value;
    forall p | 0 <= p < |ids|
      ensures Low(v[p].bundle) == 0 && High(v[p].bundle) == 1
    {
      SingleRank(ids, p);
    }
  }

  lemma NoParallelShape(ids: seq<IdEdge>, nodes: seq<ShapedNode>)
    requires NoParallel(ids)
    ensures ShapeEdges(ids, nodes) == AssignColors(BundleEdges(ids), nodes)
  {
    NoParallelBundles(ids);
  }

  /** The corrected table with colors: one row per edge, in order, its words unpacked. */
  lemma IntendedEdgesRows(ids: seq<IdEdge>, nodes: seq<ShapedNode>)
    requires IdsAscending(ids) && DenseIds(nodes)
    requires |ids| < TWO32 && |nodes| <= TWO32
    requires forall p :: 0 <= p < |ids| ==> 0 <= ids[p].src < |nodes| && 0 <= ids[p].dst < |nodes|
    ensures AssignColors(BundleEdges(ids), nodes).Success?
    ensures |AssignColors(BundleEdges(ids), nodes).value| == |ids|
    ensures forall p :: 0 <= p < |ids| ==>
              var x := AssignColors(BundleEdges(ids), nodes).value[p];
              0 <= x.src < |nodes| && 0 <= x.dst < |nodes| && EdgeRowHolds(ids, nodes, x, p)
  {
    BundledRows(ids);
    ColoredRows(BundleEdges(ids), nodes);
    forall p | 0 <= p < |ids|
      ensures var x := AssignColors(BundleEdges(ids), nodes).value[p];
              0 <= x.src < |nodes| && 0 <= x.dst < |nodes| && EdgeRowHolds(ids, nodes, x, p)
    {
      IntendedRowAt(ids, nodes, p);
    }
  }

  lemma IntendedRowAt(ids: seq<IdEdge>, nodes: seq<ShapedNode>, p: nat)
    requires IdsAscending(ids) && DenseIds(nodes)
    requires |ids| < TWO32 && |nodes| <= TWO32
    requires forall p :: 0 <= p < |ids| ==> 0 <= ids[p].src < |nodes| && 0 <= ids[p].dst < |nodes|
    requires p < |ids|
    ensures AssignColors(BundleEdges(ids), nodes).Success?
    ensures |AssignColors(BundleEdges(ids), nodes).value| == |ids|
    ensures var x := AssignColors(BundleEdges(ids), nodes).value[p];
            0 <= x.src < |nodes| && 0 <= x.dst < |nodes| && EdgeRowHolds(ids, nodes, x, p)
  {
    BundledRows(ids);
    ColoredRows(BundleEdges(ids), nodes);
  }

  /** The bundled table of an id-ordered edge list: one row per edge, in order, its words unpacked. */
  lemma BundledRows(ids: seq<IdEdge>)
    requires IdsAscending(ids) && |ids| < TWO32
    requires forall p :: 0 <= p < |ids| ==> 0 <= ids[p].src < TWO32 && 0 <= ids[p].dst < TWO32
    ensures var rows := BundleEdges(ids);
            |rows| == |ids| && SortedBy(rows, EdgeById)
            && forall p :: 0 <= p < |ids| ==>
                 rows[p].id == ids[p].id && rows[p].src == ids[p].src && rows[p].dst == ids[p].dst
                 && Low(rows[p].edge) == ids[p].src && High(rows[p].edge) == ids[p].dst
                 && Low(rows[p].bundle) == Rank(ids, p)
                 && High(rows[p].bundle) == PairCount(ids, ids[p].src, ids[p].dst)
                 && Low(rows[p].bundle) < High(rows[p].bundle)
  {
    BundleEdgesRows(ids);
    RankBounds(ids);
    var rows := BundleEdges(ids);
    assert SortedBy(rows, EdgeById);
    forall p | 0 <= p < |rows|
      ensures Low(rows[p].edge) == ids[p].src && High(rows[p].edge) == ids[p].dst
      ensures Low(rows[p].bundle) == Rank(ids, p)
      ensures High(rows[p].bundle) == PairCount(ids, ids[p].src, ids[p].dst)
    {
      BundleOfUnpacks(ids[p], Rank(ids, p), PairCount(ids, ids[p].src, ids[p].dst), ids[p], 0, 0);
    }
  }

  /** Adding the color column keeps every row and gives it its two endpoint colors. */
  lemma ColoredRows(rows: seq<BundledEdge>, nodes: seq<ShapedNode>)
    requires DenseIds(nodes) && SortedBy(rows, EdgeById)
    requires forall p :: 0 <= p < |rows| ==> 0 <= rows[p].src < |nodes| && 0 <= rows[p].dst < |nodes|
    ensures AssignColors(rows, nodes).Success?
    ensures |AssignColors(rows, nodes).value| == |rows|
    ensures forall p :: 0 <= p < |rows| ==>
              var x := AssignColors(rows, nodes).value[p];
              x.id == rows[p].id && x.src == rows[p].src && x.dst == rows[p].dst
              && x.edge == rows[p].edge && x.bundle == rows[p].bundle
              && x.color == Pack(nodes[rows[p].src].color, nodes[rows[p].dst].color)
              && Low(x.color) == nodes[rows[p].src].color && High(x.color) == nodes[rows[p].dst].color
  {
    EdgeColorsAligned(rows, nodes);
  }

  /** Every row of the shaped graph's edge table is one of its sampled edges, renumbered. */
  lemma ShapedRowEndpoints(sampled: seq<GpuRead.EdgeRow>, keys: seq<int>, nodes: seq<ShapedNode>, x: ShapedEdge)
    requires IsRenumbering(keys, sampled)
    requires exists i, o :: IsShapedRow(EdgeIds(sampled, keys), nodes, x, i, o)
    ensures 0 <= x.id < |sampled| && 0 <= x.src < |keys| && 0 <= x.dst < |keys|
    ensures keys[x.src] == sampled[x.id].source && keys[x.dst] == sampled[x.id].target
  {
    var ids := EdgeIds(sampled, keys);
    var i, o :| IsShapedRow(ids, nodes, x, i, o);
    assert Unshaped(x) == BundleOf(ids[i], o, PairCount(ids, ids[i].src, ids[i].dst));
  }

  /**
   * Shaping a graph whose every renumbered key has exactly one input node:
   * node i of the table is node id i, `numEdges` counts the sampled edges,
   * and the edge table is sorted by edge id and holds exactly, for each
   * sampled edge and each offset of its bundle, one row whose endpoints map
   * back to the edge's source and target keys.
   */
  lemma ShapeGraphRows(g: GpuRead.Graph, keys: seq<int>)
    requires IsRenumbering(keys, Subsample(g.edges))
    requires forall i :: 0 <= i < |keys| ==> KeyCount(keys[i], g.nodes) == 1
    requires ShapeNodes(keys, g.nodes).Success?
    ensures ShapeGraph(g, keys).Success?
    ensures var r := ShapeGraph(g, keys).value;
            var ids := EdgeIds(Subsample(g.edges), keys);
            |r.nodes| == |keys| && DenseIds(r.nodes) && r.numEdges == |Subsample(g.edges)|
            && |r.edges| == RowCount(ids, ids)
            && (forall p, q :: 0 <= p < q < |r.edges| ==> r.edges[p].id <= r.edges[q].id)
            && (forall x :: x in r.edges <==> exists i, o :: IsShapedRow(ids, r.nodes, x, i, o))
    ensures var r := ShapeGraph(g, keys).value;
            forall x :: x in r.edges ==>
              0 <= x.id < |Subsample(g.edges)| && 0 <= x.src < |keys| && 0 <= x.dst < |keys|
              && keys[x.src] == Subsample(g.edges)[x.id].source && keys[x.dst] == Subsample(g.edges)[x.id].target
  {
    var sampled := Subsample(g.edges);
    var ids := EdgeIds(sampled, keys);
    var nodes := ShapeNodes(keys, g.nodes).value;
    ShapeNodesIds(keys, g.nodes);
    ShapeEdgesRows(ids, nodes);
    ShapeGraphParts(g, keys);
    var r := ShapeGraph(g, keys).value;
    forall x | x in r.edges
      ensures 0 <= x.id < |sampled| && 0 <= x.src < |keys| && 0 <= x.dst < |keys|
      ensures keys[x.src] == sampled[x.id].source && keys[x.dst] == sampled[x.id].target
    {
      ShapedRowEndpoints(sampled, keys, nodes, x);
    }
  }

  /**
   * With one input node per key and no parallel sampled edges, edge row p
   * is sampled edge p: its endpoints are the dense ids of its source and
   * target, and its `edge`, `bundle` and `color` words unpack to
   * (src, dst), (0, 1) and the two endpoint colors.
   */
  lemma ShapeGraphSimple(g: GpuRead.Graph, keys: seq<int>)
    requires IsRenumbering(keys, Subsample(g.edges))
    requires forall i :: 0 <= i < |keys| ==> KeyCount(keys[i], g.nodes) == 1
    requires ShapeNodes(keys, g.nodes).Success?
    requires NoParallel(EdgeIds(Subsample(g.edges), keys))
    ensures ShapeGraph(g, keys).Success?
    ensures var r := ShapeGraph(g, keys).value;
            |r.nodes| == |keys| && DenseIds(r.nodes)
            && |r.edges| == |Subsample(g.edges)| == r.numEdges
            && forall p :: 0 <= p < |r.edges| ==>
                 r.edges[p].id == p
                 && 0 <= r.edges[p].src < |keys| && 0 <= r.edges[p].dst < |keys|
                 && keys[r.edges[p].src] == Subsample(g.edges)[p].source
                 && keys[r.edges[p].dst] == Subsample(g.edges)[p].target
                 && EdgeRowHolds(EdgeIds(Subsample(g.edges), keys), r.nodes, r.edges[p], p)
  {
    var sampled := Subsample(g.edges);
    var ids := EdgeIds(sampled, keys);
    var nodes := ShapeNodes(keys, g.nodes).value;
    ShapeNodesIds(keys, g.nodes);
    assert |ids| < TWO32 && |nodes| <= TWO32 by {
      SubsampleKeeps(g.edges);
      RenumberingSize(keys, sampled);
    }
    assert IdsAscending(ids);
    ShapeEdgesSimple(ids, nodes);
    ShapeGraphParts(g, keys);
    var r := ShapeGraph(g, keys).value;
    forall p | 0 <= p < |r.edges|
      ensures r.edges[p].id == p
              && 0 <= r.edges[p].src < |keys| && 0 <= r.edges[p].dst < |keys|
              && keys[r.edges[p].src] == Subsample(g.edges)[p].source
              && keys[r.edges[p].dst] == Subsample(g.edges)[p].target
              && EdgeRowHolds(EdgeIds(Subsample(g.edges), keys), r.nodes, r.edges[p], p)
    {
      SimpleGraphRowAt(g, keys, p);
    }
  }

  lemma SimpleGraphRowAt(g: GpuRead.Graph, keys: seq<int>, p: nat)
    requires IsRenumbering(keys, Subsample(g.edges))
    requires forall i :: 0 <= i < |keys| ==> KeyCount(keys[i], g.nodes) == 1
    requires ShapeNodes(keys, g.nodes).Success?
    requires NoParallel(EdgeIds(Subsample(g.edges), keys))
    requires p < |Subsample(g.edges)|
    ensures ShapeGraph(g, keys).Success?
    ensures var r := ShapeGraph(g, keys).value;
            |r.nodes| == |keys| && |r.edges| == |Subsample(g.edges)|
            && r.edges[p].id == p
            && 0 <= r.edges[p].src < |keys| && 0 <= r.edges[p].dst < |keys|
            && keys[r.edges[p].src] == Subsample(g.edges)[p].source
            && keys[r.edges[p].dst] == Subsample(g.edges)[p].target
            && EdgeRowHolds(EdgeIds(Subsample(g.edges), keys), r.nodes, r.edges[p], p)
  {
    var sampled := Subsample(g.edges);
    var ids := EdgeIds(sampled, keys);
    var nodes := ShapeNodes(keys, g.nodes).value;
    ShapeNodesIds(keys, g.nodes);
    assert |ids| < TWO32 && |nodes| <= TWO32 by {
      SubsampleKeeps(g.edges);
      RenumberingSize(keys, sampled);
    }
    assert IdsAscending(ids);
    ShapeEdgesSimpleAt(ids, nodes, p);
    ShapeGraphParts(g, keys);
  }

  lemma ShapeEdgesSimpleAt(ids: seq<IdEdge>, nodes: seq<ShapedNode>, p: nat)
    requires NoParallel(ids) && IdsAscending(ids) && DenseIds(nodes)
    requires |ids| < TWO32 && |nodes| <= TWO32
    requires forall p :: 0 <= p < |ids| ==> 0 <= ids[p].src < |nodes| && 0 <= ids[p].dst < |nodes|
    requires p < |ids|
    ensures ShapeEdges(ids, nodes).Success? && |ShapeEdges(ids, nodes).value| == |ids|
    ensures var x := ShapeEdges(ids, nodes).value[p];
            0 <= x.src < |nodes| && 0 <= x.dst < |nodes| && EdgeRowHolds(ids, nodes, x, p)
  {
    NoParallelShape(ids, nodes);
    IntendedRowAt(ids, nodes, p);
  }

}
