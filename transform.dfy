/**
 The data-reshaping half of the Sankey visualization: a table of rows, each
 with two dimension values (category labels) and a metric, becomes a node
 list (every distinct label once) and one weighted link per row that refers
 to its two nodes by position.
 */
module SankeyData {
  import opened Collections

  /** One row of the host's table: its dimension values and its metric values. */
  datatype Row<T, M> = Row(dims: seq<T>, metrics: seq<M>)

  /** A node of the diagram, identified by its label. */
  datatype Node<T> = Node(id: T)

  /** A link from the node at `source` to the node at `target`, weighted by `value`. */
  datatype Link<M> = Link(source: int, target: int, value: M)

  /** What the layout receives: the nodes and the links between them. */
  datatype Graph<T, M> = Graph(nodes: seq<Node<T>>, links: seq<Link<M>>)

  /** Every row has the two dimensions and the one metric the transform reads. */
  predicate WellFormed<T, M>(rows: seq<Row<T, M>>)
  {
    forall i :: 0 <= i < |rows| ==> |rows[i].dims| >= 2 && |rows[i].metrics| >= 1
  }

  /** Some row has `x` as its first or its second dimension value. */
  predicate Mentions<T(==), M>(rows: seq<Row<T, M>>, x: T)
    requires WellFormed(rows)
  {
    exists i :: 0 <= i < |rows| && (rows[i].dims[0] == x || rows[i].dims[1] == x)
  }

  /** The k-th dimension column: the k-th dimension value of each row, in row order. */
  function Column<T, M>(rows: seq<Row<T, M>>, k: nat): seq<T>
    requires forall i :: 0 <= i < |rows| ==> k < |rows[i].dims|
  {
    seq(|rows|, i requires 0 <= i < |rows| => rows[i].dims[k])
  }

  /** A label occurs in the two columns exactly when some row mentions it. */
  lemma ColumnsHoldMentionedLabels<T, M>(rows: seq<Row<T, M>>, x: T)
    requires WellFormed(rows)
    ensures x in Column(rows, 0) + Column(rows, 1) <==> Mentions(rows, x)
  {
    var c := Column(rows, 0) + Column(rows, 1);
    if x in c {
      var n :| 0 <= n < |c| && c[n] == x;
      if n < |rows| {
        assert rows[n].dims[0] == x;
      } else {
        assert rows[n - |rows|].dims[1] == x;
      }
    }
    if Mentions(rows, x) {
      var i :| 0 <= i < |rows| && (rows[i].dims[0] == x || rows[i].dims[1] == x);
      if rows[i].dims[0] == x {
        assert c[i] == x;
      } else {
        assert c[|rows| + i] == x;
      }
    }
  }

  /**
   The first column followed by the second, passed through a set: the labels
   of both columns, each once; a label is there exactly when some row mentions it.
   */
  function UniqueNodes<T(==,!new), M>(rows: seq<Row<T, M>>): (u: seq<T>)
    requires WellFormed(rows)
    ensures NoDuplicates(u)
    ensures forall x :: x in u <==> Mentions(rows, x)
  {
    var c := Column(rows, 0) + Column(rows, 1);
    forall x ensures x in c <==> Mentions(rows, x) {
      ColumnsHoldMentionedLabels(rows, x);
    }
    Dedup(c)
  }

  /** One node per unique label, in the same order. */
  function Nodes<T>(u: seq<T>): seq<Node<T>>
  {
    seq(|u|, k requires 0 <= k < |u| => Node(u[k]))
  }

  /** The link of one row: the positions of its two labels and its first metric. */
  function RowLink<T(==), M>(u: seq<T>, row: Row<T, M>): Link<M>
    requires |row.dims| >= 2 && |row.metrics| >= 1
  {
    Link(IndexOf(u, row.dims[0]), IndexOf(u, row.dims[1]), row.metrics[0])
  }

  /** One link per row, in row order. */
  function Links<T(==), M>(u: seq<T>, rows: seq<Row<T, M>>): seq<Link<M>>
    requires WellFormed(rows)
  {
    seq(|rows|, i requires 0 <= i < |rows| => RowLink(u, rows[i]))
  }

  /**
   The graph handed to the layout: no label heads two nodes, a label heads a
   node exactly when some row mentions it, and link i joins the nodes of row
   i's two labels and carries row i's first metric.
   */
  function TransformData<T(==,!new), M>(rows: seq<Row<T, M>>): (g: Graph<T, M>)
    requires WellFormed(rows)
    ensures forall k, l :: 0 <= k < l < |g.nodes| ==> g.nodes[k].id != g.nodes[l].id
    ensures forall x :: (exists k :: 0 <= k < |g.nodes| && g.nodes[k].id == x) <==> Mentions(rows, x)
    ensures |g.links| == |rows|
    ensures forall i :: 0 <= i < |rows| ==>
              && 0 <= g.links[i].source < |g.nodes|
              && 0 <= g.links[i].target < |g.nodes|
              && g.nodes[g.links[i].source].id == rows[i].dims[0]
              && g.nodes[g.links[i].target].id == rows[i].dims[1]
              && g.links[i].value == rows[i].metrics[0]
  {
    var u := UniqueNodes(rows);
    NodesAreLabels(u);
    LinksResolve(u, rows);
    Graph(Nodes(u), Links(u, rows))
  }

  /** The nodes carry the labels of `u`, in order. */
  lemma NodesAreLabels<T(!new)>(u: seq<T>)
    ensures |Nodes(u)| == |u|
    ensures forall k :: 0 <= k < |u| ==> Nodes(u)[k].id == u[k]
    ensures forall x :: (exists k :: 0 <= k < |Nodes(u)| && Nodes(u)[k].id == x) <==> x in u
  {
    forall x | x in u ensures exists k :: 0 <= k < |Nodes(u)| && Nodes(u)[k].id == x {
      var k :| 0 <= k < |u| && u[k] == x;
      assert Nodes(u)[k].id == x;
    }
  }

  /** Over a node list holding every mentioned label, each link resolves to its row's labels. */
  lemma LinksResolve<T(!new), M>(u: seq<T>, rows: seq<Row<T, M>>)
    requires WellFormed(rows)
    requires forall x :: x in u <==> Mentions(rows, x)
    ensures |Links(u, rows)| == |rows|
    ensures forall i :: 0 <= i < |rows| ==>
              && 0 <= Links(u, rows)[i].source < |u|
              && 0 <= Links(u, rows)[i].target < |u|
              && u[Links(u, rows)[i].source] == rows[i].dims[0]
              && u[Links(u, rows)[i].target] == rows[i].dims[1]
              && Links(u, rows)[i].value == rows[i].metrics[0]
  {
    forall i | 0 <= i < |rows|
      ensures && 0 <= Links(u, rows)[i].source < |u|
              && 0 <= Links(u, rows)[i].target < |u|
              && u[Links(u, rows)[i].source] == rows[i].dims[0]
              && u[Links(u, rows)[i].target] == rows[i].dims[1]
              && Links(u, rows)[i].value == rows[i].metrics[0]
    {
      assert Mentions(rows, rows[i].dims[0]) && Mentions(rows, rows[i].dims[1]);
      assert Links(u, rows)[i] == RowLink(u, rows[i]);
    }
  }

  /**
   Every label that occurs in the first column gets a smaller position than
   every label that occurs only in the second column: the columns are
   concatenated before deduplication, not interleaved row by row.
   */
  lemma FirstColumnNodesComeFirst<T(!new), M>(rows: seq<Row<T, M>>, k: nat, l: nat)
    requires WellFormed(rows)
    requires k < |UniqueNodes(rows)| && l < |UniqueNodes(rows)|
    requires UniqueNodes(rows)[k] in Column(rows, 0)
    requires UniqueNodes(rows)[l] !in Column(rows, 0)
    ensures k < l
  {
    DedupAppendOrder(Column(rows, 0), Column(rows, 1), k, l);
  }

  /**
   The node list is the first-occurrence listing of the first column followed
   by the second: node ids appear in the order in which each label first
   occurs there, and no other duplicate-free listing has this order.
   */
  lemma NodesInFirstOccurrenceOrder<T(!new), M>(rows: seq<Row<T, M>>)
    requires WellFormed(rows)
    ensures InFirstOccurrenceOrder(Column(rows, 0) + Column(rows, 1), UniqueNodes(rows))
    ensures forall k :: 0 <= k < |UniqueNodes(rows)| ==> TransformData(rows).nodes[k].id == UniqueNodes(rows)[k]
  {
    DedupFirstOccurrenceOrder(Column(rows, 0) + Column(rows, 1));
  }

  /**
   Rows with the same pair of labels and the same metric are not merged: they
   give equal links at their own positions.
   */
  lemma DuplicatePairsNotMerged<T(!new), M>(rows: seq<Row<T, M>>, i: nat, j: nat)
    requires WellFormed(rows) && i < j < |rows|
    requires rows[i].dims[..2] == rows[j].dims[..2] && rows[i].metrics[0] == rows[j].metrics[0]
    ensures |TransformData(rows).links| == |rows|
    ensures TransformData(rows).links[i] == TransformData(rows).links[j]
  {
    assert rows[i].dims[0] == rows[i].dims[..2][0] && rows[i].dims[1] == rows[i].dims[..2][1];
    assert rows[j].dims[0] == rows[j].dims[..2][0] && rows[j].dims[1] == rows[j].dims[..2][1];
  }

  /** The rows of the two-row example: (A, B, 5) and (B, C, 3). */
  function ExampleRows(): seq<Row<char, int>>
  {
    [Row(['A', 'B'], [5]), Row(['B', 'C'], [3])]
  }

  /** The example's two columns, concatenated and deduplicated, are [A, B, C]. */
  lemma ExampleUniqueNodes()
    ensures UniqueNodes(ExampleRows()) == ['A', 'B', 'C']
  {
    var rows := ExampleRows();
    assert Column(rows, 0) == ['A', 'B'] && Column(rows, 1) == ['B', 'C'];
    assert Column(rows, 0) + Column(rows, 1) == ['A', 'B', 'B', 'C'];
    ExampleDedup();
  }

  /** Deduplicating A, B, B drops the second B. */
  lemma ExampleDedupPrefix()
    ensures Dedup(['A', 'B', 'B']) == ['A', 'B']
  {
    DedupOfDistinct(['A', 'B']);
    DedupSnoc(['A', 'B'], 'B');
    assert ['A', 'B'] + ['B'] == ['A', 'B', 'B'];
  }

  /** Deduplicating A, B, B, C drops the second B and keeps C. */
  lemma ExampleDedup()
    ensures Dedup(['A', 'B', 'B', 'C']) == ['A', 'B', 'C']
  {
    ExampleDedupPrefix();
    DedupSnoc(['A', 'B', 'B'], 'C');
    assert ['A', 'B', 'B'] + ['C'] == ['A', 'B', 'B', 'C'];
  }

  /** Over the node list [A, B, C] the example's rows give links (0, 1, 5) and (1, 2, 3). */
  lemma ExampleLinks(u: seq<char>)
    requires u == ['A', 'B', 'C']
    ensures Nodes(u) == [Node('A'), Node('B'), Node('C')]
    ensures Links(u, ExampleRows()) == [Link(0, 1, 5), Link(1, 2, 3)]
  {
    assert IndexOf(u, 'A') == 0 && IndexOf(u, 'B') == 1 && IndexOf(u, 'C') == 2;
    var rows := ExampleRows();
    assert RowLink(u, rows[0]) == Link(0, 1, 5);
    assert RowLink(u, rows[1]) == Link(1, 2, 3);
  }

  /** Rows (A, B, 5) and (B, C, 3) give nodes [A, B, C] and links (0, 1, 5), (1, 2, 3). */
  lemma TwoRowExample()
    ensures TransformData(ExampleRows())
         == Graph([Node('A'), Node('B'), Node('C')], [Link(0, 1, 5), Link(1, 2, 3)])
  {
    ExampleUniqueNodes();
    ExampleLinks(UniqueNodes(ExampleRows()));
  }
}
