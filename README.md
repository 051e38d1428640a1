# JSON-graph and NYC-taxi data pipeline: a Dafny model

This project models the data-preparation core of two GPU visualisation demos.

**JSON graph.**
- `modules/json-graph/src/gpu-read.ts` reads a graph file with string operations on a one-row column holding the whole file, cut into record texts:
  - the node, edge and options sections are cut apart at their markers;
  - the edge rows holding a null are dropped;
  - null node fields become defaults.
- `cpu-read.ts` does the same work record by record, after a host-side JSON parse, converting each numeric field with JavaScript's unary `+`.
- `shape.ts` turns the graph into render tables:
  - it keeps every second edge, up to 200 000 of them;
  - it renumbers the nodes, joins node attributes, rescales sizes to 1..255 and decodes `#rrggbb` colours into 32-bit words;
  - it packs each edge's endpoints, bundle offset and bundle length, and endpoint colours, into 64-bit words.
- `layout.ts` is a generator:
  - it yields a render frame;
  - it waits for that frame's after-render callback;
  - it runs ForceAtlas2 until the result holds no NaN;
  - it writes the new positions back and loops.

**NYC taxi.**
- `modules/nyc-taxi/src/read-streets.ts` keeps the `MULTILINESTRING` rows of the street centre-line table. It rewrites each WKT text into `|`-terminated `x y` pairs and builds line ids with a scatter and a cumulative sum. It then groups the lines by id and the streets by name.
- `read-points-parquet.ts` interleaves start and end coordinates of every trip. It keeps the points on the globe and returns them with their bounding box.

Modules, one file each, which follow the source:
- **Support modules:**
  - `Wrappers`: `Option` and `Result`.
  - `Text`: the column string primitives — find and split.
  - `Columns`: Float32 as NaN or a real; Int32 width and bit packing; interleave; `minmax`; the bounding box.
  - `Seqs`: flatten, dedup and group-by.
  - `Sorting`: a stable sort by key.
  - `JsNumber`: the parsed JSON field values and the unary `+` on them — ToNumber, StringToNumber over the StringNumericLiteral grammar, and the truncation step of ToInt32 (sections 7.1.4, 7.1.4.1 and 7.1.6 of ECMA-262).
- **One module per core file:** `GpuRead`, `CpuRead`, `Shape`, `Layout`, `ReadStreets`, `ReadPoints`.

Pure code is modelled as functions with lemmas. Three kinds of code are imperative in the model:
- the node and edge loops of `cpu-read.ts` are array loops with invariants;
- the column map of `gpu-read.ts` is built by a loop;
- the layout generator is a class whose methods are its resumption points.

**Outside effects.** Everything outside the modelled code is an input:
- the JSON line extractor of the GPU reader;
- the parsed document of the CPU reader;
- the string-to-float cast of the streets reader;
- cugraph's renumbering, as a key sequence satisfying `Shape.IsRenumbering`;
- the ForceAtlas2 result.

**Modelling choices:**
- **Section order.** The GPU reader takes piece 0 of each split (`gpu-read.ts:41-56`), which is the text *before* each marker. A file it accepts therefore lists nodes first, then edges, then options. This is proved in `GpuRead.SectionsInOrder`. A file with options first is refused, proved in `GpuRead.OptionsFirstRejected`.
- **Missing sections.** `GpuRead.ReadError.FormatError` stands for the `gather(_1)` of a split that has only one piece, when a marker or array bracket is missing (`gpu-read.ts:69`, `87-90` and `117-120`). The source does not check for this case. `SyntaxError` is the throw of `JSON.parse` on the options text.
- **Subsample size.** `Math.min(2e5, numRows / 2)` is a fraction for an odd count. The model takes the floor, because a sequence has an integral size. A graph with a single edge samples no edge.
- **Size scaling.** `scale()` divides by the range of the sizes. The model returns `Failure(ZeroSizeRange)` when all joined sizes are equal, where the code would compute 0/0.
- **Split.** `split(d)` is read as keeping the delimiter at the end of each piece, with no empty pieces (`Text.Split`). This reading makes the `replaceRe(/\|/, '')` at `read-streets.ts:78` remove "the trailing |". It also makes `head(id.length - 1)` at line 93 line ids up with points.

## Model

| member | source | states |
|---|---|---|
| Text.Find | modules/json-graph/src/gpu-read.ts:41 | the index found is an occurrence of the marker and no earlier index is; none exactly when the marker does not occur |
| Text.Split | modules/nyc-taxi/src/read-streets.ts:76 | the pieces are non-empty, and there are pieces exactly when the text is non-empty |
| Text.SplitConcat | modules/nyc-taxi/src/read-streets.ts:76 | concatenating the pieces of a split gives back the text |
| Text.SplitPieces | modules/nyc-taxi/src/read-streets.ts:76-78 | every piece but the last ends with the delimiter |
| Text.SplitJoin | modules/nyc-taxi/src/read-streets.ts:76-78 | pieces that each hold the delimiter once, at their end, are what splitting their concatenation yields (the inverse of SplitConcat) |
| Text.SplitSecond | modules/json-graph/src/gpu-read.ts:41-42 | there is a piece 1 exactly when the marker occurs and text follows it; piece 0 ends right after the first marker |
| Text.FirstPieceIsPrefix | modules/json-graph/src/gpu-read.ts:41-42 | piece 0 is a prefix of the text and holds no earlier occurrence of the marker |
| Columns.ToInt32 | modules/nyc-taxi/src/read-streets.ts:62 | a cast to Int32 lands in the 32-bit signed range, agrees with the input modulo 2^32, and leaves in-range values alone |
| Columns.PackUnpack | modules/json-graph/src/shape.ts:140-142 | the low and high halves of a packed 64-bit word are the two 32-bit words packed |
| Columns.PackInjective | modules/json-graph/src/shape.ts:140-142 | two packed words are equal exactly when both halves are |
| Columns.Interleave | modules/nyc-taxi/src/read-points-parquet.ts:40-41 | the interleaved column has twice the rows, with row i of the first column at 2i and of the second at 2i+1 |
| Columns.View64 | modules/json-graph/src/shape.ts:95 | viewing an even-length Int32 column as Uint64 packs rows 2i and 2i+1 into word i |
| Columns.PackedColumns | modules/json-graph/src/shape.ts:140 | word i of the interleaved view is the row's two values packed, low then high |
| Columns.PackColumns | modules/json-graph/src/shape.ts:140 | interleave-then-view of two columns gives one word per row whose halves are that row's two values |
| Columns.MinMax | modules/nyc-taxi/src/read-points-parquet.ts:48-49 | a minimum and maximum exist exactly when the column is non-empty and holds no NaN; they bound every value and both are attained |
| Seqs.Dedup | modules/nyc-taxi/src/read-streets.ts:40 | the group keys are distinct, are exactly the values present, and are no more than the rows |
| Seqs.GroupedMember | modules/nyc-taxi/src/read-streets.ts:95-96 | a value is in the list collected for key k exactly when some row has key k and that value |
| Seqs.GroupedBlock | modules/nyc-taxi/src/read-streets.ts:95-96 | when the rows with key k are exactly those in a contiguous block, the collected list is that block in order |
| Sorting.SortBy | modules/json-graph/src/shape.ts:60 | sorting by id gives a sequence ordered by the key with the same elements and multiplicities |
| Sorting.SortSorted | modules/json-graph/src/shape.ts:83 | sorting an already ordered sequence leaves it unchanged |
| Sorting.SortMembers | modules/json-graph/src/shape.ts:60 | sorting neither adds nor loses an element |
| Sorting.SortDistinct | modules/nyc-taxi/src/read-streets.ts:97 | sorting distinct keys keeps them distinct |
| GpuRead.Project | modules/json-graph/src/gpu-read.ts:94-96 | projecting a field gives a column of the field's type with one cell per row |
| GpuRead.EdgeTypesDistinct | modules/json-graph/src/gpu-read.ts:76-80 | the three declared edge fields have distinct names, so each is read into its own column |
| GpuRead.NodeTypesDistinct | modules/json-graph/src/gpu-read.ts:104-110 | the five declared node fields have distinct names, so each is read into its own column |
| GpuRead.ReadColumns | modules/json-graph/src/gpu-read.ts:94-96 | the column map has exactly the field names as keys, and each entry is that field projected along its path |
| GpuRead.ArrayRows | modules/json-graph/src/gpu-read.ts:87-90 | a section cut at its array opener yields at least one row |
| GpuRead.ArrayRowsCut | modules/json-graph/src/gpu-read.ts:87-90 | the rows exist exactly when the opener occurs and text follows it; together they form a prefix of the text after the opener, hold the closer only at their end, and every row but the last ends with the row separator |
| GpuRead.DropNulls | modules/json-graph/src/gpu-read.ts:100 | an edge is kept exactly when some row has key, source and target all present and equal to it; with no nulls, every row is kept in order |
| GpuRead.EdgeRowsRead | modules/json-graph/src/gpu-read.ts:82-102 | an edge row is read exactly when some input row's extracted key, source and target are all present and equal to it |
| GpuRead.WithDefaults | modules/json-graph/src/gpu-read.ts:133-136 | every node row is kept; a null int becomes 0, a null float 0.0, a null colour "#000000", and present values pass through |
| GpuRead.NodeRowsRead | modules/json-graph/src/gpu-read.ts:112-139 | one node row per input row; the key is read at `.key`, and x, y, size and colour at `.attributes.<name>`, each either the extracted value or its default |
| GpuRead.ReadOptions | modules/json-graph/src/gpu-read.ts:65-74 | the options stage fails with a format error exactly when the split has no piece 1, and with a syntax error exactly when `JSON.parse` rejects the cut text; otherwise the next text is piece 0 and the options are the parsed value |
| GpuRead.ReadOptionsText | modules/json-graph/src/gpu-read.ts:68-72 | the text handed to `JSON.parse` is a non-empty prefix of piece 1; when piece 1 holds a `}` it ends at the first one, and otherwise it is all of piece 1 |
| GpuRead.OptionsTextAt | modules/json-graph/src/gpu-read.ts:69-71 | when piece 1's first `}` is at position i, the text handed to `JSON.parse` is piece 1 up to and including position i |
| GpuRead.NestedOptionsRejected | modules/json-graph/src/gpu-read.ts:68-72 | an options object `{"a":{"b":1}}` is cut to `{"a":{"b":1}`, so a parser that rejects that text makes the read fail with a syntax error |
| GpuRead.ReadEdges | modules/json-graph/src/gpu-read.ts:82-102 | reads the edge stage: the remaining text and the edge rows, or a format error |
| GpuRead.ReadNodes | modules/json-graph/src/gpu-read.ts:112-139 | reads the node stage: the remaining text and the node rows, or a format error |
| GpuRead.ReadJSON | modules/json-graph/src/gpu-read.ts:23-61 | reads the whole file by chaining the options, edge and node stages on piece 0 of each split; the result holds the parsed options and both tables, or the first stage's format or syntax error |
| GpuRead.ParseOptionsFirst | modules/json-graph/src/gpu-read.ts:41-42 | the read fails with a syntax error exactly when the options section exists and its cut text does not parse; a graph that is returned carries the parse of the options section the stages find |
| GpuRead.MarkersApart | modules/json-graph/src/gpu-read.ts:41-49 | the options and edges markers cannot occur at the same or adjacent positions |
| GpuRead.SectionsInOrder | modules/json-graph/src/gpu-read.ts:41-56 | in every file the reader accepts, the nodes marker comes before the edges marker, which comes before the options marker, and each section's text is what follows its marker |
| GpuRead.OptionsFirstRejected | modules/json-graph/src/gpu-read.ts:41-49 | a file whose options marker precedes its edges marker, or has none, is refused |
| JsNumber.Trunc | modules/json-graph/src/cpu-read.ts:44 | truncation goes toward zero: the integer has the number's sign and lies within 1 of it, on the zero side |
| JsNumber.TruncIntegral | modules/json-graph/src/cpu-read.ts:44 | truncating a number with no fractional part gives that number |
| JsNumber.IntTextNumber | modules/json-graph/src/cpu-read.ts:44 | `+` of an integer's decimal text, as a graphology key is written, is that integer |
| JsNumber.SpacesIgnored | modules/json-graph/src/cpu-read.ts:44 | white space before and after a numeric string does not change its number |
| JsNumber.LetterStartIsNaN | modules/json-graph/src/cpu-read.ts:44 | a string starting with a character no numeric literal starts with is NaN |
| JsNumber.PaddedKeyNumber | modules/json-graph/src/cpu-read.ts:44 | " 12\n" reads as 12 |
| CpuRead.Int32Cell | modules/json-graph/src/cpu-read.ts:44 | whatever the field holds, the stored value is in the 32-bit signed range |
| CpuRead.Int32CellMeaning | modules/json-graph/src/cpu-read.ts:44 | NaN (a missing field or a non-numeric string) and null are stored as 0; any other number is truncated toward zero and wrapped modulo 2^32; an integer within Int32 is stored as itself |
| CpuRead.Float32Cell | modules/json-graph/src/cpu-read.ts:45-46 | the cell is NaN exactly when `+` of the field is NaN |
| CpuRead.Float32CellMeaning | modules/json-graph/src/cpu-read.ts:45-46 | a number is stored as itself, null as 0, a missing field as NaN, and any other value as its `+` |
| CpuRead.StringKeys | modules/json-graph/src/cpu-read.ts:44 | a key given as a decimal string is stored as the integer it spells, wrapped to Int32 |
| CpuRead.NumberCellExamples | modules/json-graph/src/cpu-read.ts:44 | 2.7 is stored as 2, -2.7 as -2, 2^32 + 2 as 2 and `true` as 1 |
| CpuRead.NullAndMissingExamples | modules/json-graph/src/cpu-read.ts:44-46 | null is 0 in both kinds of column; a missing field is 0 in an Int32 column and NaN in a Float32 one |
| CpuRead.WordCellExample | modules/json-graph/src/cpu-read.ts:44-45 | the string "abc" is NaN: 0 in an Int32 column, NaN in a Float32 one |
| CpuRead.PaddedKeyExample | modules/json-graph/src/cpu-read.ts:44 | the key " 12\n" is stored as 12 |
| CpuRead.NodeColumnsOf | modules/json-graph/src/cpu-read.ts:41-48 | the node columns exist exactly when every node record has an attributes object (otherwise `attributes.x` throws a TypeError), with one entry per record in each |
| CpuRead.EdgeColumnsOf | modules/json-graph/src/cpu-read.ts:57-62 | each edge column has one entry per edge record |
| CpuRead.ReadNodeColumns | modules/json-graph/src/cpu-read.ts:37-49 | the loop throws a TypeError at a record without attributes; otherwise it fills the node columns so that row i of every column is record i's converted field |
| CpuRead.ReadEdgeColumns | modules/json-graph/src/cpu-read.ts:55-63 | the loop fills the edge columns so that row i of every column is record i's field, the key as parsed and the endpoints converted |
| CpuRead.ReadJSON | modules/json-graph/src/cpu-read.ts:19-82 | the read fails with a TypeError exactly when some node record lacks attributes; otherwise the graph carries the document's options unchanged and the node and edge columns of its records |
| CpuRead.NodesAgree | modules/json-graph/src/cpu-read.ts:37-49 | on node records whose numeric fields are numbers (Int32 integers for key and size) and whose colour is a string, the CPU columns and the GPU node rows hold the same values, row by row |
| CpuRead.EdgesAgree | modules/json-graph/src/cpu-read.ts:55-63 | on edge records with a string key and Int32 integer endpoints, the CPU columns and the GPU edge rows hold the same values, row by row |
| CpuRead.MissingXDisagrees | modules/json-graph/src/cpu-read.ts:45 | a node without x reads as 0 on the GPU path and as NaN on the CPU path |
| CpuRead.MissingSourceDisagrees | modules/json-graph/src/cpu-read.ts:55-63 | an edge without a source is dropped by the GPU path but kept by the CPU path, so the GPU table is shorter |
| Shape.Sequence | modules/json-graph/src/shape.ts:26-30 | the sequence has the given size and its k-th value is init + k * step |
| Shape.SubsampleKeeps | modules/json-graph/src/shape.ts:26-30 | the sample has min(200000, floor(rows / 2)) edges, at most half of the input, and sample row k is input row 2k |
| Shape.FirstAppearance | modules/json-graph/src/shape.ts:32-34 | numbering the endpoints in order of first appearance is a renumbering: distinct keys that are exactly the endpoints |
| Shape.RenumberingSize | modules/json-graph/src/shape.ts:32-34 | a renumbering has at most two keys per edge |
| Shape.EdgeIds | modules/json-graph/src/shape.ts:65 | renumbered edge i has id i and its endpoints' dense ids point back to its source and target keys |
| Shape.JoinNodesMember | modules/json-graph/src/shape.ts:47-50 | a joined node is in the join exactly when some node id and some input node with that key produce it |
| Shape.JoinNodesUnique | modules/json-graph/src/shape.ts:47-50 | when every key has exactly one input node, the join has exactly one row per id, carrying that node's attributes; the model lists them in id order, which the sort at `shape.ts:60` imposes on distinct ids whatever order the join gives |
| Shape.RescaleSizes | modules/json-graph/src/shape.ts:53 | rescaling keeps one size per node and fails exactly when all joined sizes are equal |
| Shape.ScaledSizeRange | modules/json-graph/src/shape.ts:53 | a scaled size lies in 1..255; the minimum maps to 1 and the maximum to 255 |
| Shape.ScaledSizeMonotone | modules/json-graph/src/shape.ts:53 | scaling preserves the order of sizes |
| Shape.RescaleSizesRange | modules/json-graph/src/shape.ts:53 | every rescaled size is in 1..255, the smallest become 1, the largest 255, and order is preserved |
| Shape.ReplaceFirst | modules/json-graph/src/shape.ts:56 | the colour text starts with "FF", which replaces the first character |
| Shape.HexNatAppend | modules/json-graph/src/shape.ts:56 | the hex value of a concatenation is the first part shifted over the second's digits plus the second, and fits those digits |
| Shape.ColorOfHexTriplet | modules/json-graph/src/shape.ts:56 | a "#rrggbb" colour decodes to the word with alpha byte 0xFF above the value of rrggbb |
| Shape.DefaultColorBits | modules/json-graph/src/shape.ts:56 | the default colour "#000000" decodes to opaque black, 0xFF000000 |
| Shape.ShapeNodesRows | modules/json-graph/src/shape.ts:42-62 | shaping fails exactly when all joined sizes are equal; otherwise the rows are sorted by id; each row is a joined (id, node) pair with x and y copied, size rescaled and colour decoded; every joined pair yields a row |
| Shape.ShapeNodesDense | modules/json-graph/src/shape.ts:42-62 | with one input node per key, node row i is id i with that node's position and colour |
| Shape.GroupRows | modules/json-graph/src/shape.ts:107-117 | a bundle of k edges on one pair flattens to k rows with offsets 0..k-1 and length k |
| Shape.EdgesToBundlesMember | modules/json-graph/src/shape.ts:98-118 | a bundle row is produced exactly when its pair occurs among the edges, its length is the pair's edge count and its offset is below it |
| Shape.JoinBundlesMember | modules/json-graph/src/shape.ts:124-135 | a joined row is produced exactly when an edge and a bundle row on the same (src, dst) pair give it |
| Shape.BundleColumns | modules/json-graph/src/shape.ts:137-143 | each joined row's edge word unpacks to (src, dst) and its bundle word to (offset, length) |
| Shape.ComputeEdgeBundlesRows | modules/json-graph/src/shape.ts:120-146 | the code as written: rows sorted by id, each an edge paired with every offset of its bundle |
| Shape.ParallelEdgesRepeated | modules/json-graph/src/shape.ts:120-146 | on two parallel edges the code as written emits edge 0 twice, with offsets 0 and 1 |
| Shape.BundlesOfPair | modules/json-graph/src/shape.ts:98-118 | the flattened bundle rows on a pair are offsets 0..k-1, each with length k, for the k edges on that pair, and none for a pair without edges |
| Shape.JoinBundlesRows | modules/json-graph/src/shape.ts:124-135 | the join as written gives each edge exactly one row for each offset 0..k-1 of its bundle of k; the model lists these rows edge by edge in edge order, an order the source does not fix |
| Shape.ComputeEdgeBundlesCount | modules/json-graph/src/shape.ts:120-146 | the table as written has as many rows as the sum over the edges of their bundle sizes |
| Shape.ParallelEdgesRowCount | modules/json-graph/src/shape.ts:120-146 | on the example the table as written has 5 rows where the corrected one has 3 |
| Shape.NoParallelBundles | modules/json-graph/src/shape.ts:120-146 | when no two edges share their ordered pair, the table as written equals the corrected one-row-per-edge table |
| Shape.BundleEdgesRows | modules/json-graph/src/shape.ts:120-146 | the corrected bundling gives one row per edge, in id order, whose bundle word is (its rank among the edges of its pair, that pair's edge count) |
| Shape.RankBounds | modules/json-graph/src/shape.ts:107-117 | an edge's offset is below its bundle's length, and offsets strictly increase along one pair's edges, so they are distinct |
| Shape.RankAttained | modules/json-graph/src/shape.ts:107-117 | every offset below a bundle's length belongs to some edge of that bundle |
| Shape.ParallelEdgesBundled | modules/json-graph/src/shape.ts:120-146 | on the same two parallel edges the corrected bundling gives offsets 0 and 1, each once |
| Shape.BundleOfUnpacks | modules/json-graph/src/shape.ts:140-142 | the edge and bundle words unpack to (src, dst) and (offset, length), and two edge words are equal exactly when their endpoints are |
| Shape.ColorsOfUnique | modules/json-graph/src/shape.ts:78-82 | joining a node id that occurs once yields exactly that node's colour |
| Shape.LookupColorsDense | modules/json-graph/src/shape.ts:78-92 | over dense node ids, the joined and id-sorted colours have one entry per edge: the colour of that edge's endpoint |
| Shape.EdgeColorsAligned | modules/json-graph/src/shape.ts:76-96 | the colour word of edge p is its source node's colour packed low with its target node's colour high |
| Shape.ShapeEdgesRows | modules/json-graph/src/shape.ts:64-68 | over a dense node table the edge table is sorted by id, has one row per edge and offset of its bundle (the sum of the bundle sizes), and a row is present exactly when it is edge i's bundled row at some offset o with the two endpoint colours packed |
| Shape.ShapedRowMember | modules/json-graph/src/shape.ts:64-68 | a shaped edge row is present exactly when it is some edge's row at some offset of its bundle, coloured by its endpoints |
| Shape.ShapeEdgesSimple | modules/json-graph/src/shape.ts:64-68 | without parallel edges the edge table has one row per edge, in order, whose words unpack to the endpoints, offset 0 of a bundle of 1, and the endpoint colours |
| Shape.ShapeGraphRows | modules/json-graph/src/shape.ts:24-40 | with one input node per key, node row i is id i and `numEdges` is the sampled edge count; the edge table is sorted by id, has the sum of the bundle sizes as its row count, holds exactly each sampled edge's row at each offset of its bundle, and every row's endpoints map back to its sampled edge's source and target keys |
| Shape.ShapeGraphSimple | modules/json-graph/src/shape.ts:24-40 | with one input node per key and no parallel sampled edges, edge row p is sampled edge p, its endpoints map back to that edge's keys, and its words unpack to the endpoints, (0, 1) and the endpoint colours |
| Layout.Xs | modules/json-graph/src/layout.ts:28-30 | the x column has one entry per node, node i's x |
| Layout.BoundingBox | modules/json-graph/src/layout.ts:89-93 | the box exists exactly when there are nodes and every x and y is a number; it then encloses every node and each of its four sides is attained by some node |
| Layout.Attrs | modules/json-graph/src/layout.ts:83-115 | the frame carries the callback; the node layer spans `numNodes` rows and the edge layer `numEdges`; the bounding box exists exactly when there are nodes and all positions are numbers, encloses every node and touches one on each side; row i of the radius, x, y, fill colour and index columns is node i's size, x, y, colour and id, and row i of the edge, colour and bundle columns is edge row i's words |
| Layout.NaNCountPositive | modules/json-graph/src/layout.ts:57-60 | the NaN count is positive exactly when some position is NaN |
| Layout.WithPositions | modules/json-graph/src/layout.ts:65-68 | assigning positions sets the x and y columns to the two halves and keeps each node's id, size and colour |
| Layout.LayoutLoop.constructor | modules/json-graph/src/layout.ts:20-30 | the generator starts at the top of its loop over `numNodes` nodes and the graph's `numEdges` edges, with positions the x column followed by the y column, and with no frame or call yet |
| Layout.LayoutLoop.Poll | modules/json-graph/src/layout.ts:34-43 | only at the top of the loop is a frame yielded, for the current tables with the next callback number; otherwise nothing is yielded and nothing changes |
| Layout.LayoutLoop.AfterRender | modules/json-graph/src/layout.ts:34-43 | only the outstanding frame's callback resumes the generator into placement; any other callback changes nothing |
| Layout.LayoutLoop.Place | modules/json-graph/src/layout.ts:45-68 | every ForceAtlas2 call is logged with the current positions and the fixed parameters; a result with a NaN leaves positions undefined and placement running; otherwise the node positions become the result's halves and the loop returns to its top |
| ReadStreets.RemoveOpen | modules/nyc-taxi/src/read-streets.ts:50 | removing "(" leaves no "(" and keeps every other character |
| ReadStreets.SeparatorsReplaced | modules/nyc-taxi/src/read-streets.ts:54 | replacing ", " in "p1, p2, ..., pn|" gives "p1|p2|...|pn|" |
| ReadStreets.RewriteStages | modules/nyc-taxi/src/read-streets.ts:46-54 | for a geometry text "((j))", the three stages before the last turn it into j followed by "|" |
| ReadStreets.RewriteSinglePart | modules/nyc-taxi/src/read-streets.ts:46-54 | the rewrite turns a single-part "MULTILINESTRING ((p1, ..., pn))" into "p1|...|pn|" |
| ReadStreets.CountTerminated | modules/nyc-taxi/src/read-streets.ts:60 | the separator count of a rewritten line is its number of points |
| ReadStreets.LineIds | modules/nyc-taxi/src/read-streets.ts:57-70 | ids exist exactly when there is at least one row (the maximum of an empty sum column is undefined) |
| ReadStreets.LineIdsBlocks | modules/nyc-taxi/src/read-streets.ts:57-70 | there is one id per point plus an extra slot; point j has id i exactly when it lies in line i's block of points; the extra slot holds the line count |
| ReadStreets.RowPointsTerminated | modules/nyc-taxi/src/read-streets.ts:73-87 | splitting a rewritten line, removing the separator and partitioning at the space gives its points in order |
| ReadStreets.GroupByBlocks | modules/nyc-taxi/src/read-streets.ts:90-98 | grouping points by block ids gives one list per line, holding exactly that line's block |
| ReadStreets.GroupByIdMember | modules/nyc-taxi/src/read-streets.ts:90-98 | every point lands in some group and every grouped point is a point |
| ReadStreets.GroupByIdOrder | modules/nyc-taxi/src/read-streets.ts:90-98 | groups are non-empty, one per distinct id, in ascending id order, each holding that id's points |
| ReadStreets.ParseLineStrings | modules/nyc-taxi/src/read-streets.ts:44-101 | an empty geometry column has no lines |
| ReadStreets.ParseSingleParts | modules/nyc-taxi/src/read-streets.ts:44-101 | for single-part geometries the parse yields one line per row, and line i is row i's points in order |
| ReadStreets.FilterStreets | modules/nyc-taxi/src/read-streets.ts:32-34 | a row is kept exactly when its geometry starts with the MULTILINESTRING keyword |
| ReadStreets.GroupByName | modules/nyc-taxi/src/read-streets.ts:40 | there is one street per distinct name |
| ReadStreets.GroupByNameRows | modules/nyc-taxi/src/read-streets.ts:40 | street names are distinct and are exactly the row names; a line belongs to a street exactly when some row has that name and line |
| ReadStreets.ReadStreets | modules/nyc-taxi/src/read-streets.ts:20-42 | a table with no multi-line row yields nothing |
| ReadStreets.ReadStreetsSingleParts | modules/nyc-taxi/src/read-streets.ts:20-42 | for single-part geometries the streets are exactly the kept names, once each, and a street's lines are the parsed lines of its rows |
| ReadPoints.TripXs | modules/nyc-taxi/src/read-points-parquet.ts:40 | the x column holds trip i's start longitude at 2i and end longitude at 2i+1 |
| ReadPoints.TripYs | modules/nyc-taxi/src/read-points-parquet.ts:41 | the y column holds trip i's start latitude at 2i and end latitude at 2i+1 |
| ReadPoints.FilterPointsMember | modules/nyc-taxi/src/read-points-parquet.ts:43-46 | a point is kept exactly when some row has it with x in [-180, 180] and y in [-90, 90] (NaN fails both bounds) |
| ReadPoints.FilterPointsAt | modules/nyc-taxi/src/read-points-parquet.ts:46 | a row that passes the mask is kept at the position given by the number of kept rows before it |
| ReadPoints.KeptBeforeMonotone | modules/nyc-taxi/src/read-points-parquet.ts:46 | the filter preserves row order |
| ReadPoints.BoundingBoxBounds | modules/nyc-taxi/src/read-points-parquet.ts:48-52 | the box exists exactly when some point is kept, encloses every kept point and each side is attained |
| ReadPoints.ReadPointsSpec | modules/nyc-taxi/src/read-points-parquet.ts:28-55 | a point is returned exactly when it is a trip's start or end on the globe; the box exists exactly when points do and encloses them |
| ReadPoints.ReadPointsOrder | modules/nyc-taxi/src/read-points-parquet.ts:40-46 | when both ends of a trip are on the globe, its start and end are returned next to each other, start first |

## Left out

- **Reading inputs.** Reading files, CSV and Parquet is left out. Directory listing, path handling and dataset downloads are left out too. The extractors, the parsed document and the input tables are parameters.
- **JSON parsing.** These are parameters, for they are library code:
  - the JSON parse of a line (`getJSONObject`, `gpu-read.ts:94-96`), as `GpuRead.Extractor`;
  - `JSON.parse` of the options text (`gpu-read.ts:68-72`), as the `parseOptions` field of `GpuRead.Extractor`, with `None` for a SyntaxError. Its grammar is not modelled. The unchecked `as Options` cast is taken to give an `Options` value;
  - `JSON.parse` (`cpu-read.ts:31`).
- **Float arithmetic.** Float32 and Float64 rounding is not modelled: a float is NaN or a real, and a parsed number or numeric string is its exact decimal value rather than the nearest double. The string-to-float cast of `read-streets.ts:84` is a parameter.
- **Renumbering.** cugraph's renumbering (`shape.ts:32-34`) is an external library. It is a parameter constrained by `Shape.IsRenumbering`.
- **ForceAtlas2.** The ForceAtlas2 call (`layout.ts:45-62`) is an external GPU algorithm. Its result is the argument of `Layout.LayoutLoop.Place`. The async generator and promise plumbing become the `Poll`, `AfterRender` and `Place` events.
- **Not modelled:** rendering, `color.ts`, memory scopes (`cudf.scope`), console logging and timing. They compute nothing the core returns.
- **Missing attributes.** On the GPU path, rows whose JSON lacks an attribute altogether are modelled by the extractor returning a null. On the CPU path a missing field is `JsNumber.Absent`, and a missing `attributes` object is a `TypeError`.
- CpuRead.Float32Cell: a string spelling `Infinity`, signed or not, reads as NaN rather than ±Infinity, because `Float` has no infinities. An Int32 cell stores 0 for both, as the source does.
- JsNumber.Json: array and object field values are not modelled; a graphology export holds only scalars in these fields.
- CpuRead.ReadJSON: the document is taken to hold `nodes` and `edges` arrays of objects. A missing array or a null record throws a TypeError in the source, which the model does not represent.
- CpuRead.NodesAgree: the agreement with the GPU path is stated where both readers see a number or a string. What the GPU extractor returns for a numeric string, a JSON null or a fractional number in an Int32 field is library behaviour the model does not fix.
- Shape.JoinBundles: the row order of the inner joins (`shape.ts:47-50`, `79-92` and `124-135`) is fixed by the model, edge by edge in edge order and then by offset. cudf does not specify a join's row order and the sorts by id (`shape.ts:60`, `83`, `91` and `145`) are not promised stable. So among rows that share an id, the k rows of an edge with k parallel edges, the source's order is unspecified; with parallel edges it decides which rows fill the first `numEdges` rows that `Layout.Attrs` draws.
- ReadStreets.LineIds: the cumulative sums are not wrapped to Int32. Line ids stay exact beyond 2^31 points.
- ReadStreets.ParseLineStrings: `None` stands in for two cases:
  - an empty table, where `max()` of no sums is undefined;
  - a point count that does not line up with the ids.

  In the source, the second case would misalign the columns silently.
- ReadStreets.ParseSingleParts: only single-part geometries are proved to parse into their points. A multi-part geometry keeps the `)` of its inner `), (` and is not characterised.
- ReadStreets.ReadStreets: `None` also stands for a line count that differs from the kept row count. This happens when a kept row's geometry rewrites to empty text (the geometry `"MULTILINESTRING "`): the id scan skips that row, and one line goes missing. The source would misalign names and lines silently.
- ReadStreets.GroupByName: the names come out in order of first appearance. The source's group-by gives no order.
- Shape.EdgesToBundlesMember: it states the bundle rows as a set. The source's group order is unspecified.
- Columns.MinMax: a column holding a NaN is modelled as having no bounds, rather than having NaN-skipping bounds.
- Shape.RescaleSizes: a zero size range is a `Failure`. The source computes 0/0.
- Layout.LayoutLoop.constructor: it requires the node table to have one row per renumbered key, which `runLayout` (`layout.ts:22-30`) never checks. The inner join of `shapeNodes` (`shape.ts:47-50`) gives fewer rows for an endpoint key with no node record and more for a key with two. The source then writes n-row x and y columns into a table of another length; that case is not modelled. `Shape.ShapeGraphRows` shows the requirement holds when every key has exactly one node record.
- Shape.ShapeGraphRows: it is proved only when every renumbered key has exactly one input node. A duplicated or missing node key makes the source's join repeat or drop rows; `Shape.ShapeNodesRows` still describes that case by membership.

## Findings

| source | as written | input that shows it | evidently intended | confidence | as-written member | corrected member |
|---|---|---|---|---|---|---|
| modules/json-graph/src/shape.ts:120-146 | edges are joined on (src, dst) with every flattened bundle row of their pair, so a bundle of k parallel edges yields k² rows, each edge once per offset | edges (0: 0→1), (1: 0→1), (2: 1→0): edges 0 and 1 each appear with offsets 0 and 1, giving 5 rows for 3 edges, while `layout.ts:108` draws `numEdges` = 3 | each edge once, with its own offset within its bundle and the bundle's length | not executed | Shape.ParallelEdgesRepeated | Shape.BundleEdgesRows |

`Shape.ComputeEdgeBundles` models the code as written, and `Shape.ShapeEdges`, `Shape.ShapeGraph` and the edge layer of `Layout.LayoutLoop` are built on it. `Shape.BundleEdges` is the corrected definition, proved in `Shape.BundleEdgesRows`, `Shape.RankBounds`, `Shape.RankAttained` and `Shape.ParallelEdgesBundled`. `Shape.NoParallelBundles` shows the two agree when no two edges share their ordered pair.
