/**
 * The narrow, columnar JSON graph reader (modules/json-graph/src/gpu-read.ts).
 *
 * The document is one string. Each stage splits the text it is given on a
 * literal key marker (`"options":`, then `"edges":`, then `"nodes":`), reads
 * its section from the piece AFTER the marker and hands the piece BEFORE the
 * marker to the next stage. An array section is cut into row strings on
 * "[\n", "\n]" and "},", and every field is projected out of every row by a
 * fixed path. Field extraction with its cast (`getJSONObject(path).cast(t)`)
 * and the `JSON.parse` of the options text are foreign calls and are
 * parameters here.
 */
module GpuRead {
  import opened Wrappers
  import opened Text
  import opened Columns

  const OptionsMarker: String := "\"options\":"
  const EdgesMarker: String := "\"edges\":"
  const NodesMarker: String := "\"nodes\":"
  const ArrayOpen: String := "[\n"
  const ArrayClose: String := "\n]"
  const RowSeparator: String := "},"
  const ObjectClose: String := "}"
  const DefaultColor: String := "#000000"

  /**
   * `FormatError`: a section or array bracket the reader needs is not in the
   * text. The source does not check for this; it gathers piece 1 of a split
   * that has only one piece. `SyntaxError`: `JSON.parse` rejects the options
   * text.
   */
  datatype ReadError = FormatError | SyntaxError

  /** `Options`: the graph's type and flags, as `JSON.parse` returns them. */
  datatype Options = Options(graphType: String, multi: bool, allowSelfLoops: bool)

  /** Column types of the reader's schema. */
  datatype DType = Utf8 | Int32 | Float32

  datatype Field = Field(name: String, dtype: DType)

  /** `EdgeTypes`: key, source, target. */
  const EdgeTypes: seq<Field> := [Field("key", Utf8), Field("source", Int32), Field("target", Int32)]

  /** `NodeTypes`: key, x, y, size, color. */
  const NodeTypes: seq<Field> :=
    [Field("key", Int32), Field("x", Float32), Field("y", Float32), Field("size", Int32), Field("color", Utf8)]

  /**
   * `getJSONObject(path).cast(t)` on one row string: the value at `path`
   * cast to the column type, or null (None) when it is absent. And
   * `JSON.parse(text) as Options`: the parsed options, or None when `text`
   * is not JSON and `JSON.parse` throws.
   */
  datatype Extractor = Extractor(
    text: (String, String) -> Option<String>,
    int32: (String, String) -> Option<int>,
    float32: (String, String) -> Option<Float>,
    parseOptions: String -> Option<Options>)

  /** A nullable column of one of the three types. */
  datatype Column =
    | Utf8Column(texts: seq<Option<String>>)
    | Int32Column(ints: seq<Option<int>>)
    | Float32Column(floats: seq<Option<Float>>)

  /** One column of the table: every row's value at `path`, cast to `t`. */
  function Project(ext: Extractor, rows: seq<String>, path: String, t: DType): (c: Column)
    ensures t == Utf8 ==> c.Utf8Column? && |c.texts| == |rows|
    ensures t == Int32 ==> c.Int32Column? && |c.ints| == |rows|
    ensures t == Float32 ==> c.Float32Column? && |c.floats| == |rows|
  {
    match t
    case Utf8 => Utf8Column(seq(|rows|, i requires 0 <= i < |rows| => ext.text(rows[i], path)))
    case Int32 => Int32Column(seq(|rows|, i requires 0 <= i < |rows| => ext.int32(rows[i], path)))
    case Float32 => Float32Column(seq(|rows|, i requires 0 <= i < |rows| => ext.float32(rows[i], path)))
  }

  /** Edge fields are read at `.name`. */
  function EdgePath(name: String): (r: String) { "." + name }

  /** Node `key` is read at `.key`, every other node field at `.attributes.name`. */
  function NodePath(name: String): (r: String) {
    if name == "key" then ".key" else ".attributes." + name
  }

  predicate DistinctNames(fields: seq<Field>) {
    forall i, j :: 0 <= i < j < |fields| ==> fields[i].name != fields[j].name
  }

  /** The declared node fields have five distinct names, so each gets its own column. */
  lemma NodeTypesDistinct()
    ensures DistinctNames(NodeTypes)
  {
    assert "key"[0] == 'k' && "x"[0] == 'x' && "y"[0] == 'y' && "size"[0] == 's' && "color"[0] == 'c';
  }

  /** The declared edge fields have three distinct names. */
  lemma EdgeTypesDistinct()
    ensures DistinctNames(EdgeTypes)
  {
    assert "key"[0] == 'k' && "source"[0] == 's' && "target"[0] == 't';
  }

  /**
   * The `types.forEach` loop: one projected column per declared field,
   * stored under the field's name.
   */
  method ReadColumns(ext: Extractor, rows: seq<String>, fields: seq<Field>, path: String -> String)
    returns (cols: map<String, Column>)
    requires DistinctNames(fields)
    ensures cols.Keys == set k | 0 <= k < |fields| :: fields[k].name
    ensures forall k :: 0 <= k < |fields| ==>
              cols[fields[k].name] == Project(ext, rows, path(fields[k].name), fields[k].dtype)
  {
    cols := map[];
    var i := 0;
    while i < |fields|
      invariant 0 <= i <= |fields|
      invariant cols.Keys == set k | 0 <= k < i :: fields[k].name
      invariant forall k :: 0 <= k < i ==>
                  cols[fields[k].name] == Project(ext, rows, path(fields[k].name), fields[k].dtype)
    {
      var f := fields[i];
      cols := cols[f.name := Project(ext, rows, path(f.name), f.dtype)];
      i := i + 1;
    }
  }

  /**
   * The rows of an array section: the text after the first "[\n", up to
   * and including the first "\n]" after it, cut after every "},".
   */
  function ArrayRows(section: String): (r: Result<seq<String>, ReadError>)
    ensures r.Success? ==> |r.value| > 0
  {
    match Piece(Split(section, ArrayOpen), 1)
    case None => Failure(FormatError)
    case Some(body) =>
      var inner := Split(body, ArrayClose)[0];
      Success(Split(inner, RowSeparator))
  }

  /** An edge row of the output table: every field is non-null. */
  datatype EdgeRow = EdgeRow(key: String, source: int, target: int)

  /** Row `i` of the three nullable columns holds exactly the fields of `e`. */
  predicate RowHolds(keys: seq<Option<String>>, sources: seq<Option<int>>, targets: seq<Option<int>>,
                     i: int, e: EdgeRow)
    requires 0 <= i < |keys| == |sources| == |targets|
  {
    keys[i] == Some(e.key) && sources[i] == Some(e.source) && targets[i] == Some(e.target)
  }

  /** `dropNulls(0, 3)`: keep exactly the rows where all three fields are non-null. */
  function DropNulls(keys: seq<Option<String>>, sources: seq<Option<int>>, targets: seq<Option<int>>): (r: seq<EdgeRow>)
    requires |keys| == |sources| == |targets|
    ensures |r| <= |keys|
    ensures forall e: EdgeRow :: e in r <==> exists i :: 0 <= i < |keys| && RowHolds(keys, sources, targets, i, e)
    ensures (forall i :: 0 <= i < |keys| ==> keys[i].Some? && sources[i].Some? && targets[i].Some?) ==>
              |r| == |keys| &&
              forall i :: 0 <= i < |keys| ==> r[i] == EdgeRow(keys[i].value, sources[i].value, targets[i].value)
  {
    if keys == [] then []
    else
      var ks, ss, ts := keys[1..], sources[1..], targets[1..];
      var rest := DropNulls(ks, ss, ts);
      assert forall e: EdgeRow, i :: 1 <= i < |keys| ==>
               (RowHolds(keys, sources, targets, i, e) <==> RowHolds(ks, ss, ts, i - 1, e));
      assert forall e: EdgeRow :: e in rest <==> exists i :: 1 <= i < |keys| && RowHolds(keys, sources, targets, i, e) by {
        forall e: EdgeRow
          ensures e in rest <==> exists i :: 1 <= i < |keys| && RowHolds(keys, sources, targets, i, e)
        {
          if e in rest {
            var j :| 0 <= j < |ks| && RowHolds(ks, ss, ts, j, e);
            assert RowHolds(keys, sources, targets, j + 1, e);
          }
        }
      }
      assert forall e: EdgeRow :: RowHolds(keys, sources, targets, 0, e) <==>
               keys[0].Some? && sources[0].Some? && targets[0].Some?
               && e == EdgeRow(keys[0].value, sources[0].value, targets[0].value);
      if keys[0].Some? && sources[0].Some? && targets[0].Some? then
        var h := EdgeRow(keys[0].value, sources[0].value, targets[0].value);
        assert forall e: EdgeRow :: e in [h] + rest <==>
                 exists i :: 0 <= i < |keys| && RowHolds(keys, sources, targets, i, e) by {
          forall e: EdgeRow
            ensures e in [h] + rest <==> exists i :: 0 <= i < |keys| && RowHolds(keys, sources, targets, i, e)
          {
            if e == h {
              assert RowHolds(keys, sources, targets, 0, e);
            } else if exists i :: 0 <= i < |keys| && RowHolds(keys, sources, targets, i, e) {
              var i :| 0 <= i < |keys| && RowHolds(keys, sources, targets, i, e);
              assert i != 0;
              assert e in rest;
            }
          }
        }
        [h] + rest
      else rest
  }

  /** The edge table of the given rows. */
  function EdgeRowsOf(ext: Extractor, rows: seq<String>): (r: seq<EdgeRow>) {
    DropNulls(Project(ext, rows, EdgePath("key"), Utf8).texts,
              Project(ext, rows, EdgePath("source"), Int32).ints,
              Project(ext, rows, EdgePath("target"), Int32).ints)
  }

  /** A node row: `key` stays nullable, the other fields have defaults. */
  datatype NodeRow = NodeRow(key: Option<int>, x: Float, y: Float, size: int, color: String)

  /** The node table with `replaceNulls` applied to x, y, size and color. */
  function WithDefaults(keys: seq<Option<int>>, xs: seq<Option<Float>>, ys: seq<Option<Float>>,
                        sizes: seq<Option<int>>, colors: seq<Option<String>>): (r: seq<NodeRow>)
    requires |keys| == |xs| == |ys| == |sizes| == |colors|
    ensures |r| == |keys|
    ensures forall i :: 0 <= i < |r| ==>
              r[i].key == keys[i]
              && (xs[i].None? ==> r[i].x == Fin(0.0)) && (xs[i].Some? ==> r[i].x == xs[i].value)
              && (ys[i].None? ==> r[i].y == Fin(0.0)) && (ys[i].Some? ==> r[i].y == ys[i].value)
              && (sizes[i].None? ==> r[i].size == 0) && (sizes[i].Some? ==> r[i].size == sizes[i].value)
              && (colors[i].None? ==> r[i].color == DefaultColor) && (colors[i].Some? ==> r[i].color == colors[i].value)
  {
    seq(|keys|, i requires 0 <= i < |keys| =>
      NodeRow(keys[i], xs[i].GetOr(Fin(0.0)), ys[i].GetOr(Fin(0.0)), sizes[i].GetOr(0), colors[i].GetOr(DefaultColor)))
  }

  /** The node table of the given rows. */
  function NodeRowsOf(ext: Extractor, rows: seq<String>): (r: seq<NodeRow>) {
    WithDefaults(Project(ext, rows, NodePath("key"), Int32).ints,
                 Project(ext, rows, NodePath("x"), Float32).floats,
                 Project(ext, rows, NodePath("y"), Float32).floats,
                 Project(ext, rows, NodePath("size"), Int32).ints,
                 Project(ext, rows, NodePath("color"), Utf8).texts)
  }

  /**
   * `t` is the text after the options marker up to and including its first
   * `}`: a non-empty prefix of it with no earlier `}`, or all of it when it
   * holds none.
   */
  predicate IsOptionsText(text: String, t: String) {
    t != [] && StartsWith(text, t)
    && (Contains(text, ObjectClose) ==>
          EndsWith(t, ObjectClose) && forall j: nat :: j + |ObjectClose| < |t| ==> !OccursAt(t, ObjectClose, j))
    && (!Contains(text, ObjectClose) ==> t == text)
  }

  /** The text `readOptions` hands to `JSON.parse`: piece 0 of the options section split on `}`. */
  function OptionsText(section: String): (r: String)
    requires section != []
  {
    Split(section, ObjectClose)[0]
  }

  /**
   * `readOptions`: the next text is piece 0, and the options are what
   * `JSON.parse` makes of piece 1 cut after its first `}`. A missing piece 1
   * is a format error and text that does not parse a syntax error.
   */
  function ReadOptions(ext: Extractor, pair: seq<String>): (r: Result<(String, Options), ReadError>)
    requires forall k :: 0 <= k < |pair| ==> pair[k] != []
    ensures r == Failure(FormatError) <==> |pair| < 2
    ensures r == Failure(SyntaxError) <==> |pair| >= 2 && ext.parseOptions(OptionsText(pair[1])).None?
    ensures r.Success? ==> r.value.0 == pair[0] && Some(r.value.1) == ext.parseOptions(OptionsText(pair[1]))
  {
    if |pair| < 2 then Failure(FormatError)
    else match ext.parseOptions(OptionsText(pair[1]))
      case None => Failure(SyntaxError)
      case Some(opts) => Success((pair[0], opts))
  }

  /** The text handed to `JSON.parse` is piece 1 up to and including its first `}`. */
  lemma ReadOptionsText(pair: seq<String>)
    requires forall k :: 0 <= k < |pair| ==> pair[k] != []
    ensures |pair| >= 2 ==> IsOptionsText(pair[1], OptionsText(pair[1]))
  {
    if |pair| >= 2 {
      FirstPieceIsPrefix(pair[1], ObjectClose);
      FirstPieceEnds(pair[1], ObjectClose);
    }
  }

  /**
   * An options object holding a nested object is cut at the inner `}`, so
   * `JSON.parse` sees `{"a":{"b":1}` and the read fails with a syntax error.
   */
  lemma NestedOptionsRejected(ext: Extractor, next: String)
    requires next != []
    requires ext.parseOptions("{\"a\":{\"b\":1}").None?
    ensures ReadOptions(ext, [next, "{\"a\":{\"b\":1}}"]) == Failure(SyntaxError)
  {
    NestedOptionsCut();
  }

  lemma NestedOptionsCut()
    ensures OptionsText("{\"a\":{\"b\":1}}") == "{\"a\":{\"b\":1}"
  {
    var s := "{\"a\":{\"b\":1}}";
    assert OccursAt(s, ObjectClose, 11);
    assert forall k :: 0 <= k < 11 ==> s[k] != '}';
    OptionsTextAt(s, 11);
  }

  /** With its first `}` at `i`, the options text is the section up to and including it. */
  lemma OptionsTextAt(s: String, i: nat)
    requires OccursAt(s, ObjectClose, i)
    requires forall k :: 0 <= k < i ==> s[k] != '}'
    ensures OptionsText(s) == s[..i + 1]
  {
    FirstPieceIsPrefix(s, ObjectClose);
    FirstPieceEnds(s, ObjectClose);
    var t := OptionsText(s);
    assert IsOptionsText(s, t);
    assert t == s[..|t|];
    // t's last character is a `}` of s, so it is not before i
    assert s[|t| - 1] == t[|t| - 1] == t[|t| - 1..][0] == '}';
    // and the `}` at i is in t, where only the last character may be one
    assert t[i..i + 1] == s[i..i + 1] == ObjectClose;
    assert OccursAt(t, ObjectClose, i);
  }

  /** What `readEdges` computes from its pair: the next text and the edge table. */
  function EdgeStage(ext: Extractor, pair: seq<String>): (r: Result<(String, seq<EdgeRow>), ReadError>) {
    if |pair| < 2 then Failure(FormatError)
    else match ArrayRows(pair[1])
      case Failure(e) => Failure(e)
      case Success(rows) => Success((pair[0], EdgeRowsOf(ext, rows)))
  }

  /** What `readNodes` computes from its pair: the next text and the node table. */
  function NodeStage(ext: Extractor, pair: seq<String>): (r: Result<(String, seq<NodeRow>), ReadError>) {
    if |pair| < 2 then Failure(FormatError)
    else match ArrayRows(pair[1])
      case Failure(e) => Failure(e)
      case Success(rows) => Success((pair[0], NodeRowsOf(ext, rows)))
  }

  method ReadEdges(ext: Extractor, pair: seq<String>) returns (r: Result<(String, seq<EdgeRow>), ReadError>)
    ensures r == EdgeStage(ext, pair)
  {
    if |pair| < 2 { return Failure(FormatError); }
    var rows := ArrayRows(pair[1]);
    if rows.Failure? { return Failure(FormatError); }
    EdgeTypesDistinct();
    var cols := ReadColumns(ext, rows.value, EdgeTypes, EdgePath);
    assert EdgeTypes[0].name == "key" && EdgeTypes[1].name == "source" && EdgeTypes[2].name == "target";
    var edge := DropNulls(cols["key"].texts, cols["source"].ints, cols["target"].ints);
    r := Success((pair[0], edge));
  }

  method ReadNodes(ext: Extractor, pair: seq<String>) returns (r: Result<(String, seq<NodeRow>), ReadError>)
    ensures r == NodeStage(ext, pair)
  {
    if |pair| < 2 { return Failure(FormatError); }
    var rows := ArrayRows(pair[1]);
    if rows.Failure? { return Failure(FormatError); }
    assert NodeTypes[0].name == "key" && NodeTypes[1].name == "x" && NodeTypes[2].name == "y"
      && NodeTypes[3].name == "size" && NodeTypes[4].name == "color";
    NodeTypesDistinct();
    var cols := ReadColumns(ext, rows.value, NodeTypes, NodePath);
    assert cols["key"] == Project(ext, rows.value, NodePath("key"), Int32) by { assert NodeTypes[0] == Field("key", Int32); }
    assert cols["x"] == Project(ext, rows.value, NodePath("x"), Float32) by { assert NodeTypes[1] == Field("x", Float32); }
    assert cols["y"] == Project(ext, rows.value, NodePath("y"), Float32) by { assert NodeTypes[2] == Field("y", Float32); }
    assert cols["size"] == Project(ext, rows.value, NodePath("size"), Int32) by { assert NodeTypes[3] == Field("size", Int32); }
    assert cols["color"] == Project(ext, rows.value, NodePath("color"), Utf8) by { assert NodeTypes[4] == Field("color", Utf8); }
    var node := WithDefaults(cols["key"].ints, cols["x"].floats, cols["y"].floats,
                             cols["size"].ints, cols["color"].texts);
    r := Success((pair[0], node));
  }

  /** What `readJSON` returns: the parsed options and both tables. */
  datatype Graph = Graph(options: Options, nodes: seq<NodeRow>, edges: seq<EdgeRow>)

  /** The three section texts as the stages find them: the piece after each marker. */
  datatype Sections = Sections(options: String, edges: String, nodes: String)

  function FindSections(file: String): (r: Result<Sections, ReadError>) {
    var pair := Split(file, OptionsMarker);
    if |pair| < 2 then Failure(FormatError)
    else
      var pair2 := Split(pair[0], EdgesMarker);
      if |pair2| < 2 then Failure(FormatError)
      else
        var pair3 := Split(pair2[0], NodesMarker);
        if |pair3| < 2 then Failure(FormatError)
        else Success(Sections(pair[1], pair2[1], pair3[1]))
  }

  /**
   * The whole reader as one function of the document. The options are parsed
   * first, so a syntax error there comes before any error in the tables.
   */
  function Parse(ext: Extractor, file: String): (r: Result<Graph, ReadError>) {
    var pair := Split(file, OptionsMarker);
    if |pair| < 2 then Failure(FormatError)
    else match ext.parseOptions(OptionsText(pair[1]))
    case None => Failure(SyntaxError)
    case Some(opts) =>
      match FindSections(file)
      case Failure(e) => Failure(e)
      case Success(sec) =>
        match ArrayRows(sec.edges)
        case Failure(e) => Failure(e)
        case Success(edgeRows) =>
          match ArrayRows(sec.nodes)
          case Failure(e) => Failure(e)
          case Success(nodeRows) =>
            Success(Graph(opts, NodeRowsOf(ext, nodeRows), EdgeRowsOf(ext, edgeRows)))
  }

  /** `readJSON`: the three stages, each continuing with the text before its marker. */
  method ReadJSON(ext: Extractor, file: String) returns (r: Result<Graph, ReadError>)
    ensures r == Parse(ext, file)
  {
    var pair := Split(file, OptionsMarker);
    var opts := ReadOptions(ext, pair);
    if opts.Failure? { return Failure(opts.error); }
    var next := opts.value.0;

    pair := Split(next, EdgesMarker);
    var edge := ReadEdges(ext, pair);
    if edge.Failure? { return Failure(FormatError); }
    next := edge.value.0;

    pair := Split(next, NodesMarker);
    var node := ReadNodes(ext, pair);
    if node.Failure? { return Failure(FormatError); }

    r := Success(Graph(opts.value.1, node.value.1, edge.value.1));
  }

  /**
   * `readJSON` throws a syntax error exactly when the options section exists
   * and its cut text does not parse; a graph it returns carries the parsed
   * options of the section its stages find.
   */
  lemma ParseOptionsFirst(ext: Extractor, file: String)
    ensures Parse(ext, file) == Failure(SyntaxError) <==>
              |Split(file, OptionsMarker)| >= 2 && ext.parseOptions(OptionsText(Split(file, OptionsMarker)[1])).None?
    ensures Parse(ext, file).Success? ==>
              FindSections(file).Success?
              && Some(Parse(ext, file).value.options) == ext.parseOptions(OptionsText(FindSections(file).value.options))
  {
  }

  /** The options and edges markers cannot start at the same or at adjacent positions. */
  lemma MarkersApart(s: String, po: nat, pe: nat)
    requires OccursAt(s, OptionsMarker, po) && OccursAt(s, EdgesMarker, pe)
    ensures pe != po && pe != po + 1
  {
    assert s[po + 1] == s[po..po + |OptionsMarker|][1] == OptionsMarker[1] == 'o';
    assert s[pe] == s[pe..pe + |EdgesMarker|][0] == EdgesMarker[0] == '"';
    assert s[pe + 1] == s[pe..pe + |EdgesMarker|][1] == EdgesMarker[1] == 'e';
  }

  /** An edges marker ending inside the text up to the options marker starts before it. */
  lemma EdgesBeforeOptions(s: String, po: nat, pe: nat)
    requires OccursAt(s, OptionsMarker, po) && OccursAt(s, EdgesMarker, pe)
    requires pe + |EdgesMarker| < po + |OptionsMarker|
    ensures pe < po
  {
    MarkersApart(s, po, pe);
  }

  /** One stage's pair: piece 0 ends right after the first marker, piece 1 starts there. */
  lemma StageAt(t: String, m: String)
    requires |m| > 0 && |Split(t, m)| >= 2
    ensures Find(t, m).Some? && Find(t, m).value + |m| < |t|
    ensures Split(t, m)[0] == t[..Find(t, m).value + |m|]
    ensures StartsWith(t[Find(t, m).value + |m|..], Split(t, m)[1])
  {
    SplitSecond(t, m);
    FirstPieceIsPrefix(t[Find(t, m).value + |m|..], m);
  }

  /**
   * When the reader finds its three sections, the first nodes marker comes
   * before the first edges marker, which comes before the first options
   * marker; each section starts right after its marker and ends before the
   * next stage's marker.
   */
  lemma {:induction false} SectionsInOrder(file: String)
    requires FindSections(file).Success?
    ensures Find(file, NodesMarker).Some? && Find(file, EdgesMarker).Some? && Find(file, OptionsMarker).Some?
    ensures var pn, pe, po := Find(file, NodesMarker).value, Find(file, EdgesMarker).value, Find(file, OptionsMarker).value;
            var sec := FindSections(file).value;
            pn < pe < po
            && StartsWith(file[po + |OptionsMarker|..], sec.options)
            && StartsWith(file[pe + |EdgesMarker|..po + |OptionsMarker|], sec.edges)
            && StartsWith(file[pn + |NodesMarker|..pe + |EdgesMarker|], sec.nodes)
  {
    var po := Find(file, OptionsMarker).value;
    OuterStages(file);
    var pe := Find(file, EdgesMarker).value;
    InnerStage(file, pe);
  }

  /** The options and edges stages: the edges marker comes first, and each section follows its marker. */
  lemma OuterStages(file: String)
    requires |Split(file, OptionsMarker)| >= 2 && |Split(Split(file, OptionsMarker)[0], EdgesMarker)| >= 2
    ensures Find(file, EdgesMarker).Some? && Find(file, OptionsMarker).Some?
    ensures var pe, po := Find(file, EdgesMarker).value, Find(file, OptionsMarker).value;
            var pair := Split(file, OptionsMarker);
            pe < po && po + |OptionsMarker| <= |file|
            && StartsWith(file[po + |OptionsMarker|..], pair[1])
            && StartsWith(file[pe + |EdgesMarker|..po + |OptionsMarker|], Split(pair[0], EdgesMarker)[1])
            && Split(pair[0], EdgesMarker)[0] == file[..pe + |EdgesMarker|]
  {
    StageAt(file, OptionsMarker);
    var po := Find(file, OptionsMarker).value;
    EdgesStage(file, po);
  }

  /** The edges stage, on the text up to the options marker at `po`: the edges marker comes first. */
  lemma EdgesStage(file: String, po: nat)
    requires OccursAt(file, OptionsMarker, po)
    requires |Split(file[..po + |OptionsMarker|], EdgesMarker)| >= 2
    ensures Find(file, EdgesMarker).Some?
    ensures var pe := Find(file, EdgesMarker).value;
            var t1 := file[..po + |OptionsMarker|];
            pe < po
            && StartsWith(file[pe + |EdgesMarker|..po + |OptionsMarker|], Split(t1, EdgesMarker)[1])
            && Split(t1, EdgesMarker)[0] == file[..pe + |EdgesMarker|]
  {
    StageInPrefix(file, po + |OptionsMarker|, EdgesMarker);
    EdgesBeforeOptions(file, po, Find(file, EdgesMarker).value);
  }

  /** The nodes stage, on the text up to the edges marker at `pe`: the nodes marker comes first. */
  lemma InnerStage(file: String, pe: nat)
    requires pe + |EdgesMarker| <= |file| && |Split(file[..pe + |EdgesMarker|], NodesMarker)| >= 2
    ensures Find(file, NodesMarker).Some?
    ensures var pn := Find(file, NodesMarker).value;
            pn < pe
            && StartsWith(file[pn + |NodesMarker|..pe + |EdgesMarker|], Split(file[..pe + |EdgesMarker|], NodesMarker)[1])
  {
    StageInPrefix(file, pe + |EdgesMarker|, NodesMarker);
  }

  /**
   * A document whose first options marker precedes its first edges marker
   * (the key order options, edges, nodes) is rejected: the edges stage only
   * searches the text before the options marker.
   */
  lemma OptionsFirstRejected(file: String)
    requires Find(file, OptionsMarker).Some?
    requires Find(file, EdgesMarker).Some? ==> Find(file, OptionsMarker).value < Find(file, EdgesMarker).value
    ensures FindSections(file).Failure?
  {
    var pair := Split(file, OptionsMarker);
    SplitSecond(file, OptionsMarker);
    if |pair| >= 2 {
      var po := Find(file, OptionsMarker).value;
      assert pair[0] == file[..po + |OptionsMarker|];
      SplitSecond(pair[0], EdgesMarker);
      if Find(pair[0], EdgesMarker).Some? {
        var pe := Find(pair[0], EdgesMarker).value;
        FindInPrefix(file, EdgesMarker, po + |OptionsMarker|);
        MarkersApart(file, po, pe);
        assert pe + |EdgesMarker| >= |pair[0]|;
      }
      assert |Split(pair[0], EdgesMarker)| < 2;
    }
  }

  /**
   * The rows of an array section are the text after its first "[\n", up to
   * the first "\n]" (which they hold only at their end), cut so that every
   * row but the last ends with "},".
   */
  lemma {:induction false} ArrayRowsCut(section: String)
    ensures ArrayRows(section).Success? <==> |Split(section, ArrayOpen)| >= 2
    ensures ArrayRows(section).Success? ==>
              var i := Find(section, ArrayOpen).value;
              var rows := ArrayRows(section).value;
              StartsWith(section[i + |ArrayOpen|..], Concat(rows))
              && (forall j: nat :: j + |ArrayClose| < |Concat(rows)| ==> !OccursAt(Concat(rows), ArrayClose, j))
              && (forall k :: 0 <= k < |rows| - 1 ==> EndsWith(rows[k], RowSeparator))
  {
    ArrayRowsAt(section);
    if |Split(section, ArrayOpen)| >= 2 {
      var tail := section[Find(section, ArrayOpen).value + |ArrayOpen|..];
      var inner := Split(Split(tail, ArrayOpen)[0], ArrayClose)[0];
      InnerPrefix(tail);
      SplitConcat(inner, RowSeparator);
      SplitPieces(inner, RowSeparator);
    }
  }

  /** The rows of a section are the rows of the text after its first "[\n". */
  lemma ArrayRowsAt(section: String)
    ensures ArrayRows(section).Success? <==> |Split(section, ArrayOpen)| >= 2
    ensures |Split(section, ArrayOpen)| >= 2 ==>
              Find(section, ArrayOpen).Some? && Find(section, ArrayOpen).value + |ArrayOpen| < |section|
              && var tail := section[Find(section, ArrayOpen).value + |ArrayOpen|..];
                 ArrayRows(section) == Success(Split(Split(Split(tail, ArrayOpen)[0], ArrayClose)[0], RowSeparator))
  {
    SplitSecond(section, ArrayOpen);
  }

  /** The text up to the first "\n]" of the first piece of `tail` is a prefix of `tail` holding no earlier "\n]". */
  lemma InnerPrefix(tail: String)
    requires tail != []
    ensures Split(tail, ArrayOpen) != [] && Split(tail, ArrayOpen)[0] != []
    ensures var inner := Split(Split(tail, ArrayOpen)[0], ArrayClose)[0];
            StartsWith(tail, inner)
            && forall j: nat :: j + |ArrayClose| < |inner| ==> !OccursAt(inner, ArrayClose, j)
  {
    var body := Split(tail, ArrayOpen)[0];
    FirstPieceIsPrefix(tail, ArrayOpen);
    var inner := Split(body, ArrayClose)[0];
    FirstPieceIsPrefix(body, ArrayClose);
    assert tail[..|body|] == body;
    assert body[..|inner|] == inner;
  }

  /**
   * An edge is in the table exactly when some row has a non-null `.key`,
   * `.source` and `.target`, with those values; so no output edge has a
   * null field, and incomplete rows are dropped.
   */
  lemma EdgeRowsRead(ext: Extractor, rows: seq<String>, e: EdgeRow)
    ensures e in EdgeRowsOf(ext, rows) <==>
              exists i :: 0 <= i < |rows| && ext.text(rows[i], ".key") == Some(e.key)
                && ext.int32(rows[i], ".source") == Some(e.source) && ext.int32(rows[i], ".target") == Some(e.target)
    ensures |EdgeRowsOf(ext, rows)| <= |rows|
  {
    var keys := Project(ext, rows, EdgePath("key"), Utf8).texts;
    var sources := Project(ext, rows, EdgePath("source"), Int32).ints;
    var targets := Project(ext, rows, EdgePath("target"), Int32).ints;
    assert EdgePath("key") == ".key" && EdgePath("source") == ".source" && EdgePath("target") == ".target";
    assert forall i :: 0 <= i < |rows| ==>
             (RowHolds(keys, sources, targets, i, e) <==>
              ext.text(rows[i], ".key") == Some(e.key)
                && ext.int32(rows[i], ".source") == Some(e.source) && ext.int32(rows[i], ".target") == Some(e.target));
  }

  /**
   * Node rows are never dropped: row i of the node table reads `key` at
   * `.key` with no default, and x, y, size, color at `.attributes.<name>`,
   * with null x, y, size becoming 0 and null color becoming "#000000".
   */
  lemma NodeRowsRead(ext: Extractor, rows: seq<String>)
    ensures |NodeRowsOf(ext, rows)| == |rows|
    ensures forall i :: 0 <= i < |rows| ==>
              var n := NodeRowsOf(ext, rows)[i];
              n.key == ext.int32(rows[i], ".key")
              && n.x == ext.float32(rows[i], ".attributes.x").GetOr(Fin(0.0))
              && n.y == ext.float32(rows[i], ".attributes.y").GetOr(Fin(0.0))
              && n.size == ext.int32(rows[i], ".attributes.size").GetOr(0)
              && n.color == ext.text(rows[i], ".attributes.color").GetOr("#000000")
  {
    assert NodePath("key") == ".key" && NodePath("x") == ".attributes.x" && NodePath("y") == ".attributes.y"
      && NodePath("size") == ".attributes.size" && NodePath("color") == ".attributes.color";
  }
}
