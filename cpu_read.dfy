/**
 * The reference reader (modules/json-graph/src/cpu-read.ts): after
 * `JSON.parse`, two loops copy the parsed records into preallocated typed
 * columns, one index at a time, converting each numeric field with `+`.
 * `JSON.parse` itself is a foreign call; its result is the `Document` given
 * to `ReadJSON`.
 */
module CpuRead {
  import opened Wrappers
  import opened Text
  import opened Columns
  import opened JsNumber
  import GpuRead

  /** A node's `attributes` object: each field as `JSON.parse` left it. */
  datatype Attributes = Attributes(x: Json, y: Json, size: Json, color: Json)

  /** `attributes` is None when the record has none (or it is null): reading a field of it throws. */
  datatype NodeRecord = NodeRecord(key: Json, attributes: Option<Attributes>)

  datatype EdgeRecord = EdgeRecord(key: Json, source: Json, target: Json)

  /** What `JSON.parse` returns: `options`, `nodes` and `edges`. */
  datatype Document<O> = Document(options: O, nodes: seq<NodeRecord>, edges: seq<EdgeRecord>)

  /** The exception the node loop raises on a record without attributes. */
  datatype ReadError = TypeError

  /**
   * `int32Array[i] = +v`: ToNumber, then ToInt32. NaN (a missing field, a
   * string that is no number) is stored as 0, and so is null; a number is
   * truncated toward zero and wrapped to 32 bits.
   */
  function Int32Cell(v: Json): (r: int)
    ensures InInt32(r)
  {
    match ToNumber(v)
    case None => 0
    case Some(x) => ToInt32(Trunc(x))
  }

  /** The Int32 cell of each kind of value. */
  lemma Int32CellMeaning(v: Json)
    ensures ToNumber(v).None? ==> Int32Cell(v) == 0
    ensures ToNumber(v).Some? ==> (Trunc(ToNumber(v).value) - Int32Cell(v)) % TWO32 == 0
    ensures v.Absent? || v.Null? ==> Int32Cell(v) == 0
    ensures IsInt32Number(v) ==> Int32Cell(v) as real == v.n
  {
    if IsInt32Number(v) {
      TruncIntegral(v.n);
    }
  }

  /** `float32Array[i] = +v`: ToNumber, kept as it is; only NaN-ness and the value are modelled. */
  function Float32Cell(v: Json): (r: Float)
    ensures r.NaN? <==> ToNumber(v).None?
  {
    match ToNumber(v)
    case None => NaN
    case Some(x) => Fin(x)
  }

  /** The Float32 cell of each kind of value: a missing field is NaN, null is 0, a number is itself. */
  lemma Float32CellMeaning(v: Json)
    ensures Float32Cell(v).Fin? ==> ToNumber(v) == Some(Float32Cell(v).value)
    ensures v.Absent? ==> Float32Cell(v) == NaN
    ensures v.Null? ==> Float32Cell(v) == Fin(0.0)
    ensures v.Num? ==> Float32Cell(v) == Fin(v.n)
  {
  }

  /** A graphology key written as a decimal string is stored as the number it spells. */
  lemma StringKeys(k: int)
    ensures Int32Cell(Str(IntText(k))) == ToInt32(k)
    ensures InInt32(k) ==> Int32Cell(Str(IntText(k))) == k
  {
    IntTextNumber(k);
    assert Trunc(k as real) == k;
  }

  /** What `+` makes of numbers: truncation toward zero, then 32-bit wrap-around. */
  lemma NumberCellExamples()
    ensures Int32Cell(Num(2.7)) == 2 && Int32Cell(Num(-2.7)) == -2
    ensures Int32Cell(Num(4294967298.0)) == 2
    ensures Int32Cell(Bool(true)) == 1
  {
    assert Trunc(2.7) == 2;
    assert Trunc(-2.7) == -2;
    assert Trunc(4294967298.0) == 4294967298;
  }

  /** JSON null reads as 0 in both kinds of column, a missing field as NaN. */
  lemma NullAndMissingExamples()
    ensures Int32Cell(Null) == 0 && Float32Cell(Null) == Fin(0.0)
    ensures Int32Cell(Absent) == 0 && Float32Cell(Absent) == NaN
  {
  }

  /** A key or size that is a word, not a number, is NaN and so stored as 0. */
  lemma WordCellExample()
    ensures Int32Cell(Str("abc")) == 0 && Float32Cell(Str("abc")) == NaN
  {
    var s := "abc";
    assert s[0] == 'a' && s[|s| - 1] == 'c';
    LetterStartIsNaN(s);
  }

  /** A key with white space around it is read as the number inside. */
  lemma PaddedKeyExample()
    ensures Int32Cell(Str(" 12\n")) == 12
  {
    PaddedKeyNumber();
    assert Trunc(12.0) == 12;
  }

  datatype NodeColumns = NodeColumns(key: seq<int>, x: seq<Float>, y: seq<Float>, size: seq<int>, color: seq<Json>)

  datatype EdgeColumns = EdgeColumns(key: seq<Json>, source: seq<int>, target: seq<int>)

  datatype CpuGraph<O> = CpuGraph(options: O, nodes: NodeColumns, edges: EdgeColumns)

  /** Every node record carries an `attributes` object. */
  predicate HasAttributes(nodes: seq<NodeRecord>) {
    forall i :: 0 <= i < |nodes| ==> nodes[i].attributes.Some?
  }

  /**
   * The node columns as a function of the records: entry i comes from record
   * i, and a record without attributes makes the loop throw.
   */
  function NodeColumnsOf(nodes: seq<NodeRecord>): (r: Result<NodeColumns, ReadError>)
    ensures r.Success? <==> HasAttributes(nodes)
    ensures r.Success? ==> |r.value.key| == |r.value.x| == |r.value.y| == |r.value.size| == |r.value.color| == |nodes|
  {
    if HasAttributes(nodes) then
      Success(NodeColumns(
        seq(|nodes|, i requires 0 <= i < |nodes| => Int32Cell(nodes[i].key)),
        seq(|nodes|, i requires 0 <= i < |nodes| && nodes[i].attributes.Some? => Float32Cell(nodes[i].attributes.value.x)),
        seq(|nodes|, i requires 0 <= i < |nodes| && nodes[i].attributes.Some? => Float32Cell(nodes[i].attributes.value.y)),
        seq(|nodes|, i requires 0 <= i < |nodes| && nodes[i].attributes.Some? => Int32Cell(nodes[i].attributes.value.size)),
        seq(|nodes|, i requires 0 <= i < |nodes| && nodes[i].attributes.Some? => nodes[i].attributes.value.color)))
    else Failure(TypeError)
  }

  /** The edge columns as a function of the records: entry i comes from record i. */
  function EdgeColumnsOf(edges: seq<EdgeRecord>): (r: EdgeColumns)
    ensures |r.key| == |r.source| == |r.target| == |edges|
  {
    EdgeColumns(
      seq(|edges|, i requires 0 <= i < |edges| => edges[i].key),
      seq(|edges|, i requires 0 <= i < |edges| => Int32Cell(edges[i].source)),
      seq(|edges|, i requires 0 <= i < |edges| => Int32Cell(edges[i].target)))
  }

  /** "create node list": the first loop, over the node records; it throws at a record without attributes. */
  method ReadNodeColumns(nodes: seq<NodeRecord>) returns (r: Result<NodeColumns, ReadError>)
    ensures r == NodeColumnsOf(nodes)
  {
    var n := |nodes|;
    var nodeKey := new int[n];
    var nodeX := new Float[n];
    var nodeY := new Float[n];
    var nodeSize := new int[n];
    var nodeColor := new Json[n];
    for i := 0 to n
      modifies nodeKey, nodeX, nodeY, nodeSize, nodeColor
      invariant NodesFilled(NodeColumns(nodeKey[..], nodeX[..], nodeY[..], nodeSize[..], nodeColor[..]), nodes, i)
    {
      match nodes[i].attributes
      case None =>
        assert !HasAttributes(nodes);
        return Failure(TypeError);
      case Some(a) =>
        ghost var before := NodeColumns(nodeKey[..], nodeX[..], nodeY[..], nodeSize[..], nodeColor[..]);
        WriteNode(nodeKey, nodeX, nodeY, nodeSize, nodeColor, i, nodes[i].key, a);
        NodesFilledStep(before, NodeColumns(nodeKey[..], nodeX[..], nodeY[..], nodeSize[..], nodeColor[..]), nodes, i);
    }
    var c := NodeColumns(nodeKey[..], nodeX[..], nodeY[..], nodeSize[..], nodeColor[..]);
    NodesFilledAll(c, nodes);
    r := Success(c);
  }

  /** One pass of the node loop: entry `i` of every column takes the record's field. */
  method WriteNode(nodeKey: array<int>, nodeX: array<Float>, nodeY: array<Float>, nodeSize: array<int>,
                   nodeColor: array<Json>, i: nat, key: Json, a: Attributes)
    requires i < nodeKey.Length == nodeX.Length == nodeY.Length == nodeSize.Length == nodeColor.Length
    requires nodeKey != nodeSize && nodeX != nodeY
    modifies nodeKey, nodeX, nodeY, nodeSize, nodeColor
    ensures nodeKey[..] == old(nodeKey[..])[i := Int32Cell(key)]
    ensures nodeX[..] == old(nodeX[..])[i := Float32Cell(a.x)]
    ensures nodeY[..] == old(nodeY[..])[i := Float32Cell(a.y)]
    ensures nodeSize[..] == old(nodeSize[..])[i := Int32Cell(a.size)]
    ensures nodeColor[..] == old(nodeColor[..])[i := a.color]
  {
    nodeKey[i] := Int32Cell(key);
    nodeX[i] := Float32Cell(a.x);
    nodeY[i] := Float32Cell(a.y);
    nodeSize[i] := Int32Cell(a.size);
    nodeColor[i] := a.color;
  }

  /** Record `rec`, which has attributes, is row `k` of the node columns `c`. */
  ghost predicate NodeAt(c: NodeColumns, k: nat, rec: NodeRecord)
    requires k < |c.key| == |c.x| == |c.y| == |c.size| == |c.color|
  {
    rec.attributes.Some?
    && c.key[k] == Int32Cell(rec.key) && c.x[k] == Float32Cell(rec.attributes.value.x)
    && c.y[k] == Float32Cell(rec.attributes.value.y) && c.size[k] == Int32Cell(rec.attributes.value.size)
    && c.color[k] == rec.attributes.value.color
  }

  /** The first `i` entries of every node column come from the first `i` records. */
  ghost predicate NodesFilled(c: NodeColumns, nodes: seq<NodeRecord>, i: nat) {
    i <= |nodes| && |c.key| == |c.x| == |c.y| == |c.size| == |c.color| == |nodes|
    && forall k :: 0 <= k < i ==> NodeAt(c, k, nodes[k])
  }

  lemma NodesFilledStep(c: NodeColumns, d: NodeColumns, nodes: seq<NodeRecord>, i: nat)
    requires NodesFilled(c, nodes, i) && i < |nodes| && nodes[i].attributes.Some?
    requires d.key == c.key[i := Int32Cell(nodes[i].key)]
    requires d.x == c.x[i := Float32Cell(nodes[i].attributes.value.x)]
    requires d.y == c.y[i := Float32Cell(nodes[i].attributes.value.y)]
    requires d.size == c.size[i := Int32Cell(nodes[i].attributes.value.size)]
    requires d.color == c.color[i := nodes[i].attributes.value.color]
    ensures NodesFilled(d, nodes, i + 1)
  {
    forall k | 0 <= k < i + 1 ensures NodeAt(d, k, nodes[k]) {
      if k < i {
        assert NodeAt(c, k, nodes[k]);
        NodeAtKept(c, d, i, k, nodes[k]);
      } else {
        NodeAtWritten(c, d, i, nodes[i].key, nodes[i].attributes.value);
      }
    }
  }

  /** The row the loop has just written holds its record. */
  lemma NodeAtWritten(c: NodeColumns, d: NodeColumns, i: nat, key: Json, a: Attributes)
    requires i < |c.key| == |c.x| == |c.y| == |c.size| == |c.color|
    requires d.key == c.key[i := Int32Cell(key)] && d.x == c.x[i := Float32Cell(a.x)]
    requires d.y == c.y[i := Float32Cell(a.y)] && d.size == c.size[i := Int32Cell(a.size)]
    requires d.color == c.color[i := a.color]
    ensures NodeAt(d, i, NodeRecord(key, Some(a)))
  {
  }

  /** A row the loop did not write keeps its record. */
  lemma NodeAtKept(c: NodeColumns, d: NodeColumns, i: nat, k: nat, rec: NodeRecord)
    requires i < |c.key| == |c.x| == |c.y| == |c.size| == |c.color| && k < |c.key| && k != i
    requires |d.key| == |d.x| == |d.y| == |d.size| == |d.color| == |c.key|
    requires d.key[k] == c.key[k] && d.x[k] == c.x[k] && d.y[k] == c.y[k]
    requires d.size[k] == c.size[k] && d.color[k] == c.color[k]
    requires NodeAt(c, k, rec)
    ensures NodeAt(d, k, rec)
  {
  }

  lemma NodesFilledAll(c: NodeColumns, nodes: seq<NodeRecord>)
    requires NodesFilled(c, nodes, |nodes|)
    ensures NodeColumnsOf(nodes) == Success(c)
  {
    assert HasAttributes(nodes) by {
      forall k | 0 <= k < |nodes| ensures nodes[k].attributes.Some? {
        assert NodeAt(c, k, nodes[k]);
      }
    }
    var v := NodeColumnsOf(nodes).value;
    forall k | 0 <= k < |nodes| ensures NodeAt(v, k, nodes[k]) {
    }
    NodeColumnsUnique(c, v, nodes);
  }

  /** Two node tables that both hold every record row for row are the same table. */
  lemma NodeColumnsUnique(c: NodeColumns, v: NodeColumns, nodes: seq<NodeRecord>)
    requires NodesFilled(c, nodes, |nodes|) && NodesFilled(v, nodes, |nodes|)
    ensures c == v
  {
    forall k | 0 <= k < |nodes| ensures c.key[k] == v.key[k] && c.x[k] == v.x[k] && c.y[k] == v.y[k]
                                       && c.size[k] == v.size[k] && c.color[k] == v.color[k] {
      assert NodeAt(c, k, nodes[k]) && NodeAt(v, k, nodes[k]);
    }
  }

  /** "create edge list": the second loop, over the edge records. */
  method ReadEdgeColumns(edges: seq<EdgeRecord>) returns (c: EdgeColumns)
    ensures c == EdgeColumnsOf(edges)
  {
    var m := |edges|;
    var edgeKey := new Json[m];
    var edgeSource := new int[m];
    var edgeTarget := new int[m];
    for i := 0 to m
      modifies edgeKey, edgeSource, edgeTarget
      invariant EdgesFilled(EdgeColumns(edgeKey[..], edgeSource[..], edgeTarget[..]), edges, i)
    {
      ghost var before := EdgeColumns(edgeKey[..], edgeSource[..], edgeTarget[..]);
      var rec := edges[i];
      edgeKey[i] := rec.key;
      edgeSource[i] := Int32Cell(rec.source);
      edgeTarget[i] := Int32Cell(rec.target);
      EdgesFilledStep(before, EdgeColumns(edgeKey[..], edgeSource[..], edgeTarget[..]), edges, i);
    }
    c := EdgeColumns(edgeKey[..], edgeSource[..], edgeTarget[..]);
    EdgesFilledAll(c, edges);
  }

  /** Record `rec` is row `k` of the edge columns `c`. */
  ghost predicate EdgeAt(c: EdgeColumns, k: nat, rec: EdgeRecord)
    requires k < |c.key| == |c.source| == |c.target|
  {
    c.key[k] == rec.key && c.source[k] == Int32Cell(rec.source) && c.target[k] == Int32Cell(rec.target)
  }

  /** The first `i` entries of every edge column come from the first `i` records. */
  ghost predicate EdgesFilled(c: EdgeColumns, edges: seq<EdgeRecord>, i: nat) {
    i <= |edges| && |c.key| == |c.source| == |c.target| == |edges|
    && forall k :: 0 <= k < i ==> EdgeAt(c, k, edges[k])
  }

  lemma EdgesFilledStep(c: EdgeColumns, d: EdgeColumns, edges: seq<EdgeRecord>, i: nat)
    requires EdgesFilled(c, edges, i) && i < |edges|
    requires d.key == c.key[i := edges[i].key]
    requires d.source == c.source[i := Int32Cell(edges[i].source)]
    requires d.target == c.target[i := Int32Cell(edges[i].target)]
    ensures EdgesFilled(d, edges, i + 1)
  {
    forall k | 0 <= k < i + 1 ensures EdgeAt(d, k, edges[k]) {
      if k < i {
        assert EdgeAt(c, k, edges[k]);
      }
    }
  }

  lemma EdgesFilledAll(c: EdgeColumns, edges: seq<EdgeRecord>)
    requires EdgesFilled(c, edges, |edges|)
    ensures c == EdgeColumnsOf(edges)
  {
    var v := EdgeColumnsOf(edges);
    forall k | 0 <= k < |edges| ensures c.key[k] == v.key[k] && c.source[k] == v.source[k] && c.target[k] == v.target[k] {
      assert EdgeAt(c, k, edges[k]);
    }
  }

  /**
   * `readJSON`: fill the typed columns in two loops. It throws when a node
   * record has no attributes; otherwise every node column has
   * `nodes.length` entries, every edge column `edges.length`, no record is
   * filtered, and `options` is passed through unchanged.
   */
  method ReadJSON<O>(doc: Document<O>) returns (r: Result<CpuGraph<O>, ReadError>)
    ensures r.Success? <==> HasAttributes(doc.nodes)
    ensures r.Failure? ==> r.error == TypeError
    ensures r.Success? ==> r.value.options == doc.options
    ensures r.Success? ==> Success(r.value.nodes) == NodeColumnsOf(doc.nodes)
    ensures r.Success? ==> r.value.edges == EdgeColumnsOf(doc.edges)
  {
    var nodes := ReadNodeColumns(doc.nodes);
    if nodes.Failure? {
      return Failure(TypeError);
    }
    var edges := ReadEdgeColumns(doc.edges);
    r := Success(CpuGraph(doc.options, nodes.value, edges));
  }

  /** Every node column has one entry per record, taken from that record. */
  lemma NodeColumnsShape(nodes: seq<NodeRecord>)
    requires HasAttributes(nodes)
    ensures var c := NodeColumnsOf(nodes).value;
            |c.key| == |c.x| == |c.y| == |c.size| == |c.color| == |nodes|
            && forall i :: 0 <= i < |nodes| ==> NodeAt(c, i, nodes[i])
  {
  }

  /** Every edge column has one entry per record: no edge is filtered. */
  lemma EdgeColumnsShape(edges: seq<EdgeRecord>)
    ensures var c := EdgeColumnsOf(edges);
            |c.key| == |c.source| == |c.target| == |edges|
            && forall i :: 0 <= i < |edges| ==>
                 c.key[i] == edges[i].key && c.source[i] == Int32Cell(edges[i].source)
                 && c.target[i] == Int32Cell(edges[i].target)
  {
  }

  // Agreement with the columnar reader

  /**
   * The columnar reader's field extraction at one path found what the
   * parsed record holds there: the number itself, or null for a missing
   * field. Other JSON values are outside this relation.
   */
  predicate NumberSeen(got: Option<Float>, v: Json) {
    (v.Num? && got == Some(Fin(v.n))) || (v.Absent? && got.None?)
  }

  predicate IntSeen(got: Option<int>, v: Json) {
    (v.Num? && got.Some? && got.value as real == v.n) || (v.Absent? && got.None?)
  }

  predicate TextSeen(got: Option<String>, v: Json) {
    (v.Str? && got == Some(v.s)) || (v.Absent? && got.None?)
  }

  /**
   * Row string `row` and parsed record `rec` describe the same node: the
   * columnar reader's field extraction finds at each path what `JSON.parse`
   * found in the record.
   */
  predicate NodeRowIs(ext: GpuRead.Extractor, row: String, rec: NodeRecord) {
    rec.attributes.Some?
    && IntSeen(ext.int32(row, ".key"), rec.key)
    && NumberSeen(ext.float32(row, ".attributes.x"), rec.attributes.value.x)
    && NumberSeen(ext.float32(row, ".attributes.y"), rec.attributes.value.y)
    && IntSeen(ext.int32(row, ".attributes.size"), rec.attributes.value.size)
    && TextSeen(ext.text(row, ".attributes.color"), rec.attributes.value.color)
  }

  predicate EdgeRowIs(ext: GpuRead.Extractor, row: String, rec: EdgeRecord) {
    TextSeen(ext.text(row, ".key"), rec.key)
    && IntSeen(ext.int32(row, ".source"), rec.source)
    && IntSeen(ext.int32(row, ".target"), rec.target)
  }

  /** A JSON number that is an integer within Int32. */
  predicate IsInt32Number(v: Json) {
    v.Num? && IsIntegral(v.n) && InInt32(v.n.Floor)
  }

  /** Every field present as a number (an Int32 integer where the column is Int32) or a string. */
  predicate NodeComplete(rec: NodeRecord) {
    rec.attributes.Some? && IsInt32Number(rec.key) && rec.attributes.value.x.Num? && rec.attributes.value.y.Num?
    && IsInt32Number(rec.attributes.value.size) && rec.attributes.value.color.Str?
  }

  predicate EdgeComplete(rec: EdgeRecord) {
    rec.key.Str? && IsInt32Number(rec.source) && IsInt32Number(rec.target)
  }

  /**
   * On records where every field is present, the columnar reader and this
   * reference reader give the same node table, row for row.
   */
  lemma NodesAgree(ext: GpuRead.Extractor, rows: seq<String>, nodes: seq<NodeRecord>)
    requires |rows| == |nodes|
    requires forall i :: 0 <= i < |rows| ==> NodeRowIs(ext, rows[i], nodes[i]) && NodeComplete(nodes[i])
    ensures NodeColumnsOf(nodes).Success?
    ensures var gpu, cpu := GpuRead.NodeRowsOf(ext, rows), NodeColumnsOf(nodes).value;
            |gpu| == |cpu.key| &&
            forall i :: 0 <= i < |gpu| ==>
              gpu[i].key == Some(cpu.key[i]) && gpu[i].x == cpu.x[i] && gpu[i].y == cpu.y[i]
              && gpu[i].size == cpu.size[i] && cpu.color[i] == Str(gpu[i].color)
  {
    assert HasAttributes(nodes);
    GpuRead.NodeRowsRead(ext, rows);
    var gpu, cpu := GpuRead.NodeRowsOf(ext, rows), NodeColumnsOf(nodes).value;
    forall i | 0 <= i < |gpu|
      ensures gpu[i].key == Some(cpu.key[i]) && gpu[i].x == cpu.x[i] && gpu[i].y == cpu.y[i]
              && gpu[i].size == cpu.size[i] && cpu.color[i] == Str(gpu[i].color)
    {
      assert NodeRowIs(ext, rows[i], nodes[i]) && NodeComplete(nodes[i]);
      var a := nodes[i].attributes.value;
      IntSeenCell(ext.int32(rows[i], ".key"), nodes[i].key);
      IntSeenCell(ext.int32(rows[i], ".attributes.size"), a.size);
    }
  }

  /** An Int32 integer the extraction found is the one the Int32 cell stores. */
  lemma IntSeenCell(got: Option<int>, v: Json)
    requires IntSeen(got, v) && IsInt32Number(v)
    ensures got == Some(Int32Cell(v))
  {
    Int32CellMeaning(v);
  }

  /**
   * On complete edge records the two readers give the same edge table;
   * the columnar reader's all-non-null filter then drops nothing.
   */
  lemma EdgesAgree(ext: GpuRead.Extractor, rows: seq<String>, edges: seq<EdgeRecord>)
    requires |rows| == |edges|
    requires forall i :: 0 <= i < |rows| ==> EdgeRowIs(ext, rows[i], edges[i]) && EdgeComplete(edges[i])
    ensures var gpu, cpu := GpuRead.EdgeRowsOf(ext, rows), EdgeColumnsOf(edges);
            |gpu| == |cpu.key| &&
            forall i :: 0 <= i < |gpu| ==>
              cpu.key[i] == Str(gpu[i].key) && gpu[i].source == cpu.source[i] && gpu[i].target == cpu.target[i]
  {
    assert GpuRead.EdgePath("key") == ".key" && GpuRead.EdgePath("source") == ".source"
      && GpuRead.EdgePath("target") == ".target";
    var keys := GpuRead.Project(ext, rows, ".key", GpuRead.Utf8).texts;
    var sources := GpuRead.Project(ext, rows, ".source", GpuRead.Int32).ints;
    var targets := GpuRead.Project(ext, rows, ".target", GpuRead.Int32).ints;
    var cpu := EdgeColumnsOf(edges);
    forall i | 0 <= i < |rows|
      ensures keys[i] == Some(edges[i].key.s)
      ensures sources[i] == Some(cpu.source[i]) && targets[i] == Some(cpu.target[i])
    {
      EdgeRowAgrees(ext, rows[i], edges[i]);
    }
  }

  lemma EdgeRowAgrees(ext: GpuRead.Extractor, row: String, rec: EdgeRecord)
    requires EdgeRowIs(ext, row, rec) && EdgeComplete(rec)
    ensures ext.text(row, ".key") == Some(rec.key.s)
    ensures ext.int32(row, ".source") == Some(Int32Cell(rec.source))
    ensures ext.int32(row, ".target") == Some(Int32Cell(rec.target))
  {
    IntSeenCell(ext.int32(row, ".source"), rec.source);
    IntSeenCell(ext.int32(row, ".target"), rec.target);
  }

  /** Without a default policy the readers differ: a node lacking `x` is 0 on one and NaN on the other. */
  lemma MissingXDisagrees(ext: GpuRead.Extractor, rows: seq<String>, nodes: seq<NodeRecord>, i: int)
    requires |rows| == |nodes| && 0 <= i < |rows| && HasAttributes(nodes)
    requires NodeRowIs(ext, rows[i], nodes[i]) && nodes[i].attributes.value.x.Absent?
    ensures GpuRead.NodeRowsOf(ext, rows)[i].x == Fin(0.0)
    ensures NodeColumnsOf(nodes).Success? && NodeColumnsOf(nodes).value.x[i] == NaN
  {
    GpuRead.NodeRowsRead(ext, rows);
  }

  /** An edge record lacking its source is kept here but dropped by the columnar reader. */
  lemma MissingSourceDisagrees(ext: GpuRead.Extractor, rows: seq<String>, edges: seq<EdgeRecord>, i: int)
    requires |rows| == |edges| && 0 <= i < |rows|
    requires forall k :: 0 <= k < |rows| ==> EdgeRowIs(ext, rows[k], edges[k])
    requires edges[i].source.Absent?
    ensures |GpuRead.EdgeRowsOf(ext, rows)| < |EdgeColumnsOf(edges).key|
  {
    var keys := GpuRead.Project(ext, rows, GpuRead.EdgePath("key"), GpuRead.Utf8).texts;
    var sources := GpuRead.Project(ext, rows, GpuRead.EdgePath("source"), GpuRead.Int32).ints;
    var targets := GpuRead.Project(ext, rows, GpuRead.EdgePath("target"), GpuRead.Int32).ints;
    assert GpuRead.EdgePath("source") == ".source";
    assert EdgeRowIs(ext, rows[i], edges[i]);
    assert sources[i].None?;
    DropNullsShorter(keys, sources, targets, i);
  }

  /** A row with a null field makes the all-non-null filter drop at least one row. */
  lemma {:induction false} DropNullsShorter(keys: seq<Option<String>>, sources: seq<Option<int>>,
                                            targets: seq<Option<int>>, i: int)
    requires |keys| == |sources| == |targets| && 0 <= i < |keys|
    requires keys[i].None? || sources[i].None? || targets[i].None?
    ensures |GpuRead.DropNulls(keys, sources, targets)| < |keys|
  {
    if i > 0 {
      DropNullsShorter(keys[1..], sources[1..], targets[1..], i - 1);
    }
  }
}
