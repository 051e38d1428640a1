/**
 * The layout loop (modules/json-graph/src/layout.ts). `runLayout` is an
 * async generator that alternates between yielding one render frame,
 * waiting for the renderer to call that frame's `onAfterRender`, and
 * running force-directed placement until it produces NaN-free positions.
 *
 * The generator is modelled as a class whose methods are the events that
 * move it between its suspension points: `Poll` (the consumer asks for the
 * next frame), `AfterRender` (the renderer calls a frame's callback) and
 * `Place` (one `forceAtlas2` call returns; its result is a parameter).
 */
module Layout {
  import opened Wrappers
  import opened Columns
  import Shape

  /** The placement parameters passed on every `forceAtlas2` call. */
  datatype LayoutParams = LayoutParams(
    gravity: real,
    scalingRatio: real,
    linLogMode: bool,
    strongGravityMode: bool,
    outboundAttraction: bool,
    edgeWeightInfluence: real,
    barnesHutTheta: real,
    jitterTolerance: real)

  const Params: LayoutParams := LayoutParams(2.0, 1.0, false, true, false, 0.0, 0.000000001, 0.05)

  /** One `forceAtlas2` call: the positions it starts from (none after a NaN reset) and its parameters. */
  datatype Call = Call(positions: Option<seq<Float>>, params: LayoutParams)

  // ---------------------------------------------------------------------
  // attrs: the frame builder

  datatype NodeLayer = NodeLayer(
    offset: nat,
    length: nat,
    nodeRadius: seq<int>,
    nodeXPositions: seq<Float>,
    nodeYPositions: seq<Float>,
    nodeFillColors: seq<u32>,
    nodeElementIndices: seq<int>)

  datatype EdgeLayer = EdgeLayer(
    offset: nat,
    length: nat,
    edgeList: seq<u64>,
    edgeColors: seq<u64>,
    edgeBundles: seq<u64>)

  /** A yielded frame; `onAfterRender` identifies the callback of this frame. */
  datatype Frame = Frame(onAfterRender: nat, bbox: Option<BBox>, nodes: NodeLayer, edges: EdgeLayer)

  function Xs(nodes: seq<Shape.ShapedNode>): (r: seq<Float>)
    ensures |r| == |nodes| && forall i :: 0 <= i < |nodes| ==> r[i] == nodes[i].x
  {
    seq(|nodes|, i requires 0 <= i < |nodes| => nodes[i].x)
  }

  function Ys(nodes: seq<Shape.ShapedNode>): (r: seq<Float>)
    ensures |r| == |nodes| && forall i :: 0 <= i < |nodes| ==> r[i] == nodes[i].y
  {
    seq(|nodes|, i requires 0 <= i < |nodes| => nodes[i].y)
  }

  function Sizes(nodes: seq<Shape.ShapedNode>): (r: seq<int>)
    ensures |r| == |nodes| && forall i :: 0 <= i < |nodes| ==> r[i] == nodes[i].size
  {
    seq(|nodes|, i requires 0 <= i < |nodes| => nodes[i].size)
  }

  /** The node table's `color` column: one 32-bit fill colour per node. */
  function FillColors(nodes: seq<Shape.ShapedNode>): (r: seq<u32>)
    ensures |r| == |nodes| && forall i :: 0 <= i < |nodes| ==> r[i] == nodes[i].color
  {
    seq(|nodes|, i requires 0 <= i < |nodes| => nodes[i].color)
  }

  function NodeIds(nodes: seq<Shape.ShapedNode>): (r: seq<int>)
    ensures |r| == |nodes| && forall i :: 0 <= i < |nodes| ==> r[i] == nodes[i].id
  {
    seq(|nodes|, i requires 0 <= i < |nodes| => nodes[i].id)
  }

  function EdgeWords(edges: seq<Shape.ShapedEdge>): (r: seq<u64>)
    ensures |r| == |edges| && forall i :: 0 <= i < |edges| ==> r[i] == edges[i].edge
  {
    seq(|edges|, i requires 0 <= i < |edges| => edges[i].edge)
  }

  /**
   * The edge table's `color` column: one 64-bit word per edge row packing
   * its two endpoint colours. The same projection as `FillColors`, over the
   * other table and its other field.
   */
  function ColorWords(edges: seq<Shape.ShapedEdge>): (r: seq<u64>)
    ensures |r| == |edges| && forall i :: 0 <= i < |edges| ==> r[i] == edges[i].color
  {
    seq(|edges|, i requires 0 <= i < |edges| => edges[i].color)
  }

  function BundleWords(edges: seq<Shape.ShapedEdge>): (r: seq<u64>)
    ensures |r| == |edges| && forall i :: 0 <= i < |edges| ==> r[i] == edges[i].bundle
  {
    seq(|edges|, i requires 0 <= i < |edges| => edges[i].bundle)
  }

  function BoundingBox(nodes: seq<Shape.ShapedNode>): (r: Option<BBox>)
    ensures r.Some? <==> nodes != [] && forall i :: 0 <= i < |nodes| ==> nodes[i].x.Fin? && nodes[i].y.Fin?
    ensures r.Some? ==>
              forall i :: 0 <= i < |nodes| ==>
                r.value.xMin <= nodes[i].x.value <= r.value.xMax
                && r.value.yMin <= nodes[i].y.value <= r.value.yMax
    ensures r.Some? ==>
              (exists i :: 0 <= i < |nodes| && nodes[i].x.value == r.value.xMin)
              && (exists i :: 0 <= i < |nodes| && nodes[i].x.value == r.value.xMax)
              && (exists i :: 0 <= i < |nodes| && nodes[i].y.value == r.value.yMin)
              && (exists i :: 0 <= i < |nodes| && nodes[i].y.value == r.value.yMax)
  {
    Box(Xs(nodes), Ys(nodes))
  }

  /**
   * `attrs`: the frame for the current tables. The bounding box encloses
   * every node position and each of its sides touches one; the node layer
   * spans `numNodes` rows and the edge layer `numEdges`, over views of the
   * size, x, y, color and id columns and of the edge, color and bundle
   * columns.
   */
  function Attrs(nodes: seq<Shape.ShapedNode>, edges: seq<Shape.ShapedEdge>,
                 numNodes: nat, numEdges: nat, onAfterRender: nat): (f: Frame)
    ensures f.onAfterRender == onAfterRender
    ensures f.nodes.offset == 0 && f.nodes.length == numNodes
    ensures f.edges.offset == 0 && f.edges.length == numEdges
    ensures f.bbox.Some? <==> nodes != [] && forall i :: 0 <= i < |nodes| ==> nodes[i].x.Fin? && nodes[i].y.Fin?
    ensures f.bbox.Some? ==>
              forall i :: 0 <= i < |nodes| ==>
                f.bbox.value.xMin <= nodes[i].x.value <= f.bbox.value.xMax
                && f.bbox.value.yMin <= nodes[i].y.value <= f.bbox.value.yMax
    ensures f.bbox.Some? ==>
              (exists i :: 0 <= i < |nodes| && nodes[i].x.value == f.bbox.value.xMin)
              && (exists i :: 0 <= i < |nodes| && nodes[i].x.value == f.bbox.value.xMax)
              && (exists i :: 0 <= i < |nodes| && nodes[i].y.value == f.bbox.value.yMin)
              && (exists i :: 0 <= i < |nodes| && nodes[i].y.value == f.bbox.value.yMax)
    ensures f.nodes.nodeXPositions == Xs(nodes) && f.nodes.nodeYPositions == Ys(nodes)
    ensures |f.nodes.nodeRadius| == |f.nodes.nodeFillColors| == |f.nodes.nodeElementIndices| == |nodes|
    ensures forall i :: 0 <= i < |nodes| ==>
              f.nodes.nodeRadius[i] == nodes[i].size && f.nodes.nodeFillColors[i] == nodes[i].color
              && f.nodes.nodeElementIndices[i] == nodes[i].id
    ensures |f.edges.edgeList| == |f.edges.edgeColors| == |f.edges.edgeBundles| == |edges|
    ensures forall i :: 0 <= i < |edges| ==>
              f.edges.edgeList[i] == edges[i].edge && f.edges.edgeColors[i] == edges[i].color
              && f.edges.edgeBundles[i] == edges[i].bundle
  {
    Frame(
      onAfterRender,
      BoundingBox(nodes),
      NodeLayer(0, numNodes, Sizes(nodes), Xs(nodes), Ys(nodes), FillColors(nodes), NodeIds(nodes)),
      EdgeLayer(0, numEdges, EdgeWords(edges), ColorWords(edges), BundleWords(edges)))
  }

  // ---------------------------------------------------------------------
  // NaN detection and position write-back

  /** `Series.new(positions).isNaN().sum()`. */
  function NaNCount(ps: seq<Float>): (c: nat)
    ensures c <= |ps|
  {
    if ps == [] then 0 else (if ps[0].NaN? then 1 else 0) + NaNCount(ps[1..])
  }

  /** The NaN count is positive exactly when some position is NaN. */
  lemma {:induction false} NaNCountPositive(ps: seq<Float>)
    ensures NaNCount(ps) > 0 <==> exists i :: 0 <= i < |ps| && ps[i].NaN?
  {
    if ps != [] {
      NaNCountPositive(ps[1..]);
      if i :| 1 <= i < |ps| && ps[i].NaN? {
        assert ps[1..][i - 1].NaN?;
      }
    }
  }

  /** `nodes.assign({ x, y })`: new positions, every other column kept. */
  function WithPositions(nodes: seq<Shape.ShapedNode>, xs: seq<Float>, ys: seq<Float>): (r: seq<Shape.ShapedNode>)
    requires |xs| == |nodes| && |ys| == |nodes|
    ensures Xs(r) == xs && Ys(r) == ys
    ensures |r| == |nodes| && forall i :: 0 <= i < |nodes| ==>
              r[i].id == nodes[i].id && r[i].size == nodes[i].size && r[i].color == nodes[i].color
  {
    seq(|nodes|, i requires 0 <= i < |nodes| => nodes[i].(x := xs[i], y := ys[i]))
  }

  /** The generator's suspension point. */
  datatype Phase =
    | Ready                     // at the top of the loop, positions defined: the next poll yields
    | AwaitingAck(ticket: nat)  // a frame is out; waiting for its onAfterRender
    | Placing                   // running forceAtlas2 until a NaN-free result

  class LayoutLoop {
    /** `props.graph.numNodes` and `numEdges`. */
    const n: nat
    const numEdges: nat
    const edges: seq<Shape.ShapedEdge>
    var nodes: seq<Shape.ShapedNode>
    var positions: Option<seq<Float>>
    var phase: Phase
    /** Frames yielded so far; frame k carries callback k. */
    var frames: nat
    /** Every `forceAtlas2` call made so far. */
    var calls: seq<Call>

    ghost predicate Valid()
      reads this
    {
      |nodes| == n
      && (!phase.Placing? ==> positions == Some(Xs(nodes) + Ys(nodes)))
      && (phase.Placing? && positions.Some? ==> positions == Some(Xs(nodes) + Ys(nodes)))
      && (phase.AwaitingAck? ==> phase.ticket + 1 == frames)
      && (forall c :: c in calls ==> c.params == Params)
    }

    /**
     * Starts the generator over `numNodes` = the number of renumbered keys and
     * the graph's `numEdges`: the initial positions are the x column followed
     * by the y column. The node table must have one row per node, as it does
     * when every key has exactly one node record (`Shape.ShapeGraphRows`).
     */
    constructor(g: Shape.ShapedGraph)
      requires |g.nodes| == |g.keys|
      ensures Valid()
      ensures n == |g.keys| && numEdges == g.numEdges && edges == g.edges && nodes == g.nodes
      ensures positions == Some(Xs(g.nodes) + Ys(g.nodes))
      ensures phase == Ready && frames == 0 && calls == []
    {
      n := |g.keys|;
      numEdges := g.numEdges;
      edges := g.edges;
      nodes := g.nodes;
      positions := Some(Xs(g.nodes) + Ys(g.nodes));
      phase := Ready;
      frames := 0;
      calls := [];
    }

    /**
     * The consumer asks for the next frame. Only at the top of the loop is
     * one yielded; while a frame is unacknowledged or placement is running
     * there is none, and nothing changes, so at most one frame is out.
     */
    method Poll() returns (f: Option<Frame>)
      requires Valid()
      modifies this
      ensures Valid()
      ensures old(phase).Ready? ==>
                f == Some(Attrs(nodes, edges, n, numEdges, old(frames)))
                && phase == AwaitingAck(old(frames)) && frames == old(frames) + 1
                && nodes == old(nodes) && positions == old(positions) && calls == old(calls)
      ensures !old(phase).Ready? ==> f.None? && unchanged(this)
    {
      if phase.Ready? {
        f := Some(Attrs(nodes, edges, n, numEdges, frames));
        phase := AwaitingAck(frames);
        frames := frames + 1;
      } else {
        f := None;
      }
    }

    /**
     * The renderer calls the callback of frame `ticket`. Only the callback of
     * the outstanding frame resumes the generator; any other is a no-op.
     */
    method AfterRender(ticket: nat)
      requires Valid()
      modifies this
      ensures Valid()
      ensures old(phase) == AwaitingAck(ticket) ==>
                phase == Placing && nodes == old(nodes) && positions == old(positions)
                && frames == old(frames) && calls == old(calls)
      ensures old(phase) != AwaitingAck(ticket) ==> unchanged(this)
    {
      if phase == AwaitingAck(ticket) {
        phase := Placing;
      }
    }

    /**
     * One `forceAtlas2` call returns `result` (2n floats: n x values, then n
     * y values). It is made with the current positions and the fixed
     * parameters. A result holding a NaN is dropped: positions become
     * undefined and placement runs again without yielding. Otherwise node x
     * and y take the two halves and the loop returns to its top.
     */
    method Place(result: seq<Float>)
      requires Valid()
      requires |result| == 2 * n
      modifies this
      ensures Valid()
      ensures !old(phase).Placing? ==> unchanged(this)
      ensures old(phase).Placing? ==> calls == old(calls) + [Call(old(positions), Params)] && frames == old(frames)
      ensures old(phase).Placing? && NaNCount(result) > 0 ==>
                positions.None? && phase == Placing && nodes == old(nodes)
      ensures old(phase).Placing? && NaNCount(result) == 0 ==>
                positions == Some(result) && phase == Ready
                && nodes == WithPositions(old(nodes), result[..n], result[n..])
    {
      if phase.Placing? {
        calls := calls + [Call(positions, Params)];
        if NaNCount(result) > 0 {
          positions := None;
        } else {
          nodes := WithPositions(nodes, result[..n], result[n..]);
          assert result == result[..n] + result[n..];
          positions := Some(result);
          phase := Ready;
        }
      }
    }
  }
}
