# Sankey community visualization: data reshaping, modelled in Dafny

The visualization receives a message from its host: a table of rows (two
category dimensions and a metric per row) and a nested style configuration.
Before anything is drawn, `viz/sankey/src/index.js` reshapes both:

- `transformData` turns the rows into a Sankey graph. The node list is the
  first dimension column followed by the second, deduplicated in
  first-occurrence order (`Array.from(new Set(...))`). There is one link per
  row, holding the positions (`indexOf`) of the row's two labels in that list
  and the row's first metric.
- `parseStyle` flattens the style sections into one element list. It then
  writes each `{id, value}` into a dictionary in turn, so a later id
  overwrites an earlier one.

The project has three modules:

- `Collections` (`collections.dfy`) models the two JavaScript array
  primitives the transform uses. `Dedup` is `Array.from(new Set(s))` and
  `IndexOf` is `Array.prototype.indexOf`. It proves that `Dedup` is the only
  listing that holds exactly the values of its input in first-occurrence
  order.
- `SankeyData` (`transform.dfy`) models rows, nodes, links, the graph, and
  `transformData` as pure functions (`Column`, `UniqueNodes`, `Nodes`,
  `RowLink`, `Links`, `TransformData`).
- `StyleParser` (`style.dfy`) models the style sections. `Flatten` is the
  `reduce`/`concat` fold. `ParseStyle` is a method whose loop writes each
  element into a `map`, and it is proved against the fold `StyleOf`.

The rows and the style sections are parameters. In the source they come
from host calls (`dscc.subscribeToData`, `dscc.rowsByConfigId`), and those
are not modelled. Labels are a generic value type with equality (`T(==,!new)`); metrics and
style values are generic types.

## Model

| member | source | states |
|---|---|---|
| `Collections.IndexOf` | viz/sankey/src/index.js:40-41 | the result is -1 exactly when the value is absent; otherwise it is a position holding the value with no earlier position holding it |
| `Collections.Dedup` | viz/sankey/src/index.js:31 | the result has no duplicates and holds the same values as the input |
| `Collections.DedupFirstOccurrenceOrder` | viz/sankey/src/index.js:31 | the values of the result appear in the order of their first occurrence in the input |
| `Collections.FirstOccurrenceOrderUnique` | viz/sankey/src/index.js:31 | two listings with the same values, both in first-occurrence order of the same input, are equal |
| `Collections.DedupCharacterized` | viz/sankey/src/index.js:31 | any sequence holding exactly the input's values in first-occurrence order is `Dedup` of the input |
| `Collections.DedupOfDistinct` | viz/sankey/src/index.js:31 | a duplicate-free sequence passes through a set unchanged |
| `Collections.DedupIdempotent` | viz/sankey/src/index.js:31 | deduplicating twice is deduplicating once |
| `Collections.DedupAppendPrefix` | viz/sankey/src/index.js:31 | the deduplication of `a + b` starts with the deduplication of `a`, and every later value is absent from `a` |
| `Collections.DedupAppendOrder` | viz/sankey/src/index.js:31 | in the deduplication of `a + b`, a value of `a` comes before every value that occurs only in `b` |
| `Collections.DedupSnoc` | viz/sankey/src/index.js:31 | inserting one more value appends it exactly when it was not yet present |
| `SankeyData.ColumnsHoldMentionedLabels` | viz/sankey/src/index.js:24-29 | a label occurs in the first column followed by the second exactly when some row has it as first or second dimension |
| `SankeyData.UniqueNodes` | viz/sankey/src/index.js:24-31 | the node labels have no duplicates, and a label is among them if and only if some row has it as first or second dimension |
| `SankeyData.TransformData` | viz/sankey/src/index.js:24-44 | node ids are distinct; a label heads a node if and only if some row mentions it; there is exactly one link per row, in row order; link i has source and target in range (never -1), naming row i's first and second labels, and value equal to row i's first metric |
| `SankeyData.NodesAreLabels` | viz/sankey/src/index.js:33-35 | there is one node per unique label, node k carrying label k, so a label heads a node exactly when it is a unique label |
| `SankeyData.LinksResolve` | viz/sankey/src/index.js:38-44 | over a node list holding every mentioned label, there is one link per row, and its positions are in range, resolve to the row's two labels and carry the row's first metric |
| `SankeyData.FirstColumnNodesComeFirst` | viz/sankey/src/index.js:24-31 | every label from the first column precedes every label that occurs only in the second column |
| `SankeyData.NodesInFirstOccurrenceOrder` | viz/sankey/src/index.js:31-35 | node i carries the i-th unique label, and the labels follow first-occurrence order over the first column concatenated with the second |
| `SankeyData.DuplicatePairsNotMerged` | viz/sankey/src/index.js:37-44 | two rows with the same label pair and metric each keep their own, equal link; they are not merged |
| `SankeyData.ExampleDedupPrefix` | viz/sankey/src/index.js:31 | A, B, B deduplicates to A, B |
| `SankeyData.ExampleDedup` | viz/sankey/src/index.js:31 | A, B, B, C deduplicates to A, B, C |
| `SankeyData.ExampleUniqueNodes` | viz/sankey/src/index.js:24-31 | rows (A,B,5) and (B,C,3) give the unique labels [A, B, C] |
| `SankeyData.ExampleLinks` | viz/sankey/src/index.js:33-44 | over [A, B, C] those rows give nodes A, B, C and links (0,1,5), (1,2,3) |
| `SankeyData.TwoRowExample` | viz/sankey/src/index.js:24-44 | rows (A,B,5) and (B,C,3) give nodes [A, B, C] and links (0,1,5), (1,2,3) |
| `StyleParser.StyleOf` | viz/sankey/src/index.js:14-16 | the keys of the dictionary obtained by writing the elements in order are exactly the elements' ids |
| `StyleParser.LastWriterWins` | viz/sankey/src/index.js:14-16 | an id is mapped to the value of its last element in the flattened order |
| `StyleParser.StyleOfAppend` | viz/sankey/src/index.js:14-16 | writing `x` then `y` gives the dictionary of `x` overridden by that of `y` |
| `StyleParser.ReduceAccumulates` | viz/sankey/src/index.js:10-12 | reducing from an accumulator gives the accumulator followed by the flattening of the sections |
| `StyleParser.FlattenAppend` | viz/sankey/src/index.js:10-12 | flattening `a + b` gives the elements of `a`'s sections followed by those of `b`'s |
| `StyleParser.FlattenOne` | viz/sankey/src/index.js:10-12 | flattening one section gives its elements in their order |
| `StyleParser.FlattenIds` | viz/sankey/src/index.js:10-12 | the ids of the flattened list are the ids of all sections' elements |
| `StyleParser.LaterSectionsOverride` | viz/sankey/src/index.js:10-16 | the dictionary of sections `a + b` is that of `a` overridden by that of `b` |
| `StyleParser.ParseStyle` | viz/sankey/src/index.js:8-18 | the loop leaves the fold `StyleOf` of the flattened sections; its keys are exactly the ids of all sections' elements; every id holds the value of its last element |
| `StyleParser.TwoSectionExample` | viz/sankey/src/index.js:8-18 | sections [{x:1}] and [{y:2}] give {x:1, y:2} |

`SankeyData.Column`, `Nodes`, `RowLink` and `Links` are the `map`
expressions of lines 24-29, 33-35 and 38-44, and `StyleParser.Reduce` and
`Flatten` are the `reduce` of lines 10-12. They carry no contract of their
own: what they compute is stated by `TransformData`, `ParseStyle` and the
lemmas above.

## Left out

- `drawSankey` (viz/sankey/src/index.js:50-176) is not modelled: SVG and DOM output through d3, the external `d3-sankey` layout, viewport queries, and floating-point label placement.
- `dscc.subscribeToData` and `dscc.rowsByConfigId` (lines 5 and 21) are host calls; the rows and the style sections are inputs of the model instead.
- The numeric coercions of style values (`Number`, `parseInt`, unary `+`, lines 110, 137, 164) belong to rendering and are not modelled.
- The model uses ordinary equality on labels. JavaScript's `Set` (SameValueZero) and `indexOf` (strict equality) disagree on `NaN`; a `NaN` label would get a link index of -1 in the source, and that is not modelled.
- Malformed rows are excluded by the `WellFormed` precondition: a row with fewer than two dimensions or no metric. In the source they give `undefined` fields.
- The style dictionary is a `map` from ids. JavaScript object semantics are not modelled: key coercion to strings and inherited prototype properties.
- Re-running the transform on the same input gives the same graph because `TransformData` is a function; no separate lemma states it.
