/**
  The SQL-to-graph pipeline: the rows of a DuckDB result are merged into a scoped graph in Memgraph, which
  then serves as a cache for the same SQL until its time to live runs out.
 */
module GraphScope {
  import opened Prelude

  type Id = string
  type Props = map<string, Option<string>>

  datatype EdgeRow = EdgeRow(src: Id, srcType: string, tgt: Id, tgtType: string, relType: string, props: Props)
  datatype NodeRow = NodeRow(id: Id, nodeType: string, props: Props)

  /** A query result, by the shape that its column names give it. */
  datatype Result = Edges(edgeRows: seq<EdgeRow>) | Nodes(nodeRows: seq<NodeRow>)

  datatype Node = Node(tag: string, props: Props, cachedAt: Option<int>)
  datatype Edge = Edge(relType: string, props: Props)

  datatype Graph = Graph(nodes: map<Id, Node>, edges: map<(Id, Id), Edge>)

  const EMPTY := Graph(map[], map[])

  // ---- MERGE ----

  /** MERGE on the id, the label being set on creation only. */
  function MergeNode(nodes: map<Id, Node>, id: Id, tag: string): map<Id, Node> {
    if id in nodes then nodes else nodes[id := Node(tag, map[], None)]
  }

  function MergeEdgeRow(g: Graph, r: EdgeRow): Graph {
    var nodes := MergeNode(MergeNode(g.nodes, r.src, r.srcType), r.tgt, r.tgtType);
    var key := (r.src, r.tgt);
    Graph(nodes, if key in g.edges then g.edges else g.edges[key := Edge(r.relType, r.props)])
  }

  function MergeNodeRow(g: Graph, r: NodeRow): Graph {
    var nodes := MergeNode(g.nodes, r.id, r.nodeType);
    g.(nodes := nodes[r.id := nodes[r.id].(props := nodes[r.id].props + r.props)])
  }

  function LoadEdges(g: Graph, rows: seq<EdgeRow>): Graph {
    if rows == [] then g else MergeEdgeRow(LoadEdges(g, rows[..|rows| - 1]), rows[|rows| - 1])
  }

  function LoadNodes(g: Graph, rows: seq<NodeRow>): Graph {
    if rows == [] then g else MergeNodeRow(LoadNodes(g, rows[..|rows| - 1]), rows[|rows| - 1])
  }

  function Load(g: Graph, result: Result): Graph {
    match result
    case Edges(rows) => LoadEdges(g, rows)
    case Nodes(rows) => LoadNodes(g, rows)
  }

  // ---- What MERGE amounts to: deduplication by key ----

  /** Entry i is the first one for k. */
  ghost predicate FirstAt<K(!new), V(!new)>(entries: seq<(K, V)>, k: K, i: int) {
    0 <= i < |entries| && entries[i].0 == k && forall j :: 0 <= j < i ==> entries[j].0 != k
  }

  /** Entries whose key is absent are added in order; a key that is present keeps its value. */
  function KeepFirst<K, V>(m: map<K, V>, entries: seq<(K, V)>): map<K, V> {
    if entries == [] then m
    else
      var earlier, last := KeepFirst(m, entries[..|entries| - 1]), entries[|entries| - 1];
      if last.0 in earlier then earlier else earlier[last.0 := last.1]
  }

  lemma {:induction false} FirstEntryWins<K(!new), V(!new)>(m: map<K, V>, entries: seq<(K, V)>, k: K)
    ensures var after := KeepFirst(m, entries);
            && (k in m ==> k in after && after[k] == m[k])
            && (k !in m && k in after ==> exists i :: FirstAt(entries, k, i) && entries[i].1 == after[k])
            && (forall i :: FirstAt(entries, k, i) && k !in m ==> k in after && after[k] == entries[i].1)
  {
    if entries != [] {
      var n := |entries| - 1;
      var init := entries[..n];
      FirstEntryWins(m, init, k);
      if k !in m && k in KeepFirst(m, init) {
        var i :| FirstAt(init, k, i) && init[i].1 == KeepFirst(m, init)[k];
        assert FirstAt(entries, k, i);
      } else if k !in m && entries[n].0 == k {
        assert FirstAt(entries, k, n) by {
          if j :| 0 <= j < n && entries[j].0 == k {
            HasFirst(init, k, j);
          }
        }
      }
    }
  }

  /** The same for an entry that is known to be first, and for a key that is known to be there. */
  lemma {:induction false} FirstEntryIs<K(!new), V(!new)>(m: map<K, V>, entries: seq<(K, V)>, k: K, i: int)
    requires k !in m && FirstAt(entries, k, i)
    ensures var after := KeepFirst(m, entries); k in after && after[k] == entries[i].1
  {
    FirstEntryWins(m, entries, k);
  }

  lemma {:induction false} FirstEntryOf<K(!new), V(!new)>(m: map<K, V>, entries: seq<(K, V)>, k: K) returns (i: int)
    requires k !in m && k in KeepFirst(m, entries)
    ensures FirstAt(entries, k, i)
  {
    FirstEntryWins(m, entries, k);
    i :| FirstAt(entries, k, i);
  }

  lemma {:induction false} HasFirst<K(!new), V(!new)>(entries: seq<(K, V)>, k: K, j: nat)
    requires j < |entries| && entries[j].0 == k
    ensures exists i :: FirstAt(entries, k, i)
  {
    if i :| 0 <= i < j && entries[i].0 == k {
      HasFirst(entries, k, i);
    } else {
      assert FirstAt(entries, k, j);
    }
  }

  /** The edge that each row describes. */
  function EdgeEntries(rows: seq<EdgeRow>): (r: seq<((Id, Id), Edge)>)
    ensures |r| == |rows|
    ensures forall i :: 0 <= i < |rows| ==> r[i] == ((rows[i].src, rows[i].tgt), Edge(rows[i].relType, rows[i].props))
  {
    if rows == [] then []
    else
      var last := rows[|rows| - 1];
      EdgeEntries(rows[..|rows| - 1]) + [((last.src, last.tgt), Edge(last.relType, last.props))]
  }

  /** The nodes that edge rows mention, source before target. */
  function Mentions(rows: seq<EdgeRow>): (r: seq<(Id, Node)>)
    ensures |r| == 2 * |rows|
    ensures forall i :: 0 <= i < |rows| ==> r[2 * i] == (rows[i].src, Node(rows[i].srcType, map[], None))
    ensures forall i :: 0 <= i < |rows| ==> r[2 * i + 1] == (rows[i].tgt, Node(rows[i].tgtType, map[], None))
  {
    if rows == [] then []
    else
      var last := rows[|rows| - 1];
      Mentions(rows[..|rows| - 1]) +
      [(last.src, Node(last.srcType, map[], None)), (last.tgt, Node(last.tgtType, map[], None))]
  }

  /** The node that each node row creates if it is the first for its id. */
  function NodeEntries(rows: seq<NodeRow>): (r: seq<(Id, Node)>)
    ensures |r| == |rows|
    ensures forall i :: 0 <= i < |rows| ==> r[i] == (rows[i].id, Node(rows[i].nodeType, map[], None))
  {
    if rows == [] then []
    else NodeEntries(rows[..|rows| - 1]) + [(rows[|rows| - 1].id, Node(rows[|rows| - 1].nodeType, map[], None))]
  }

  /**
    Merging edge rows is a keyed dedup: one edge per pair of ids with the type and properties of the pair's
    first row, one node per id labelled where the id is first mentioned.
   */
  lemma {:induction false} EdgeLoadIsDedup(g: Graph, rows: seq<EdgeRow>)
    ensures LoadEdges(g, rows) == Graph(KeepFirst(g.nodes, Mentions(rows)), KeepFirst(g.edges, EdgeEntries(rows)))
  {
    EdgesMerged(g, rows);
    MentionsMerged(g, rows);
  }

  lemma {:induction false} EdgesMerged(g: Graph, rows: seq<EdgeRow>)
    ensures LoadEdges(g, rows).edges == KeepFirst(g.edges, EdgeEntries(rows))
  {
    if rows != [] {
      var n := |rows| - 1;
      EdgesMerged(g, rows[..n]);
      assert EdgeEntries(rows)[..n] == EdgeEntries(rows[..n]);
    }
  }

  lemma {:induction false} MentionsMerged(g: Graph, rows: seq<EdgeRow>)
    ensures LoadEdges(g, rows).nodes == KeepFirst(g.nodes, Mentions(rows))
  {
    if rows != [] {
      var n := |rows| - 1;
      var src, tgt := Mentions(rows)[2 * n], Mentions(rows)[2 * n + 1];
      var before := Mentions(rows[..n]);
      MentionsMerged(g, rows[..n]);
      assert Mentions(rows) == (before + [src]) + [tgt];
      assert ((before + [src]) + [tgt])[..2 * n + 1] == before + [src];
      assert (before + [src])[..2 * n] == before;
    }
  }

  /** The properties that node rows set on one node, later rows over earlier ones. */
  function PropsOf(rows: seq<NodeRow>, id: Id): Props {
    if rows == [] then map[]
    else
      var earlier, last := PropsOf(rows[..|rows| - 1], id), rows[|rows| - 1];
      if last.id == id then earlier + last.props else earlier
  }

  /** Since all rows of a result have the same columns, the last row of a node gives all its properties. */
  lemma {:induction false} LastRowWins(rows: seq<NodeRow>, id: Id, i: nat)
    requires forall a, b :: a in rows && b in rows ==> a.props.Keys == b.props.Keys
    requires i < |rows| && rows[i].id == id && forall j :: i < j < |rows| ==> rows[j].id != id
    ensures PropsOf(rows, id) == rows[i].props
  {
    var init, n := rows[..|rows| - 1], |rows| - 1;
    if i < n {
      LastRowWins(init, id, i);
    } else {
      PropsKeys(init, id, rows[n].props.Keys);
    }
  }

  lemma {:induction false} PropsKeys(rows: seq<NodeRow>, id: Id, keys: set<string>)
    requires forall a :: a in rows ==> a.props.Keys == keys
    ensures PropsOf(rows, id).Keys <= keys
  {
    if rows != [] {
      PropsKeys(rows[..|rows| - 1], id, keys);
    }
  }

  /** A node as a load leaves it: the kept node with the properties set over its own. */
  predicate NodeIs(nodes: map<Id, Node>, kept: map<Id, Node>, id: Id, props: Props) {
    && (id in nodes <==> id in kept)
    && (id in kept ==> nodes[id] == Node(kept[id].tag, kept[id].props + props, kept[id].cachedAt))
  }

  /** Merging node rows: labels first-row-wins, properties as the rows leave them. */
  lemma {:induction false} NodeLoadIsDedup(g: Graph, rows: seq<NodeRow>, id: Id)
    ensures LoadNodes(g, rows).edges == g.edges
    ensures NodeIs(LoadNodes(g, rows).nodes, KeepFirst(g.nodes, NodeEntries(rows)), id, PropsOf(rows, id))
  {
    if rows == [] {
      assert forall p: Props :: p + map[] == p;
    } else {
      var n := |rows| - 1;
      NodeLoadIsDedup(g, rows[..n], id);
      NodeEntriesStep(rows);
      NoRowNoProps(g.nodes, rows[..n], id);
      var loaded, kept := LoadNodes(g, rows[..n]), KeepFirst(g.nodes, NodeEntries(rows[..n]));
      MergeOneNode(loaded, kept, rows[n], id, PropsOf(rows[..n], id));
    }
  }

  lemma {:induction false} NodeEntriesStep(rows: seq<NodeRow>)
    requires rows != []
    ensures var n := |rows| - 1;
            NodeEntries(rows)[..n] == NodeEntries(rows[..n]) && NodeEntries(rows)[n].0 == rows[n].id &&
            NodeEntries(rows)[n].1 == Node(rows[n].nodeType, map[], None)
  {
    var n := |rows| - 1;
    assert NodeEntries(rows)[..n] == NodeEntries(rows[..n]);
  }

  lemma {:induction false} MergeOneNode(g: Graph, kept: map<Id, Node>, r: NodeRow, id: Id, props: Props)
    requires NodeIs(g.nodes, kept, id, props) && (id !in kept ==> props == map[])
    ensures var kept' := if r.id in kept then kept else kept[r.id := Node(r.nodeType, map[], None)];
            NodeIs(MergeNodeRow(g, r).nodes, kept', id, if r.id == id then props + r.props else props)
  {
    if r.id == id {
      if id in kept {
        assert kept[id].props + props + r.props == kept[id].props + (props + r.props);
      } else {
        assert map[] + (props + r.props) == map[] + r.props;
      }
    }
  }

  lemma {:induction false} NoRowNoProps(nodes: map<Id, Node>, rows: seq<NodeRow>, id: Id)
    ensures id !in KeepFirst(nodes, NodeEntries(rows)) ==> PropsOf(rows, id) == map[]
  {
    if rows != [] {
      var n := |rows| - 1;
      NoRowNoProps(nodes, rows[..n], id);
      assert NodeEntries(rows)[..n] == NodeEntries(rows[..n]);
    }
  }

  // ---- Loading the same rows again ----

  lemma {:induction false} KeepFirstPresent<K(!new), V(!new)>(m: map<K, V>, entries: seq<(K, V)>)
    requires forall i :: 0 <= i < |entries| ==> entries[i].0 in m
    ensures KeepFirst(m, entries) == m
  {
    if entries != [] {
      KeepFirstPresent(m, entries[..|entries| - 1]);
    }
  }

  lemma {:induction false} KeepFirstTwice<K(!new), V(!new)>(m: map<K, V>, entries: seq<(K, V)>)
    ensures KeepFirst(KeepFirst(m, entries), entries) == KeepFirst(m, entries)
  {
    forall i | 0 <= i < |entries| ensures entries[i].0 in KeepFirst(m, entries) {
      HasFirst(entries, entries[i].0, i);
      FirstEntryWins(m, entries, entries[i].0);
    }
    KeepFirstPresent(KeepFirst(m, entries), entries);
  }

  /** The load is idempotent, on every graph. */
  lemma {:induction false} LoadTwice(g: Graph, result: Result)
    ensures Load(Load(g, result), result) == Load(g, result)
  {
    match result
    case Edges(rows) =>
      EdgeLoadIsDedup(g, rows);
      EdgeLoadIsDedup(LoadEdges(g, rows), rows);
      KeepFirstTwice(g.edges, EdgeEntries(rows));
      KeepFirstTwice(g.nodes, Mentions(rows));
    case Nodes(rows) =>
      NodeLoadTwice(g, rows);
  }

  lemma {:induction false} NodeLoadTwice(g: Graph, rows: seq<NodeRow>)
    ensures LoadNodes(LoadNodes(g, rows), rows) == LoadNodes(g, rows)
  {
    var once := LoadNodes(g, rows);
    var twice := LoadNodes(once, rows);
    forall id
      ensures id in twice.nodes <==> id in once.nodes
      ensures id in once.nodes && id in twice.nodes ==> twice.nodes[id] == once.nodes[id]
      ensures twice.edges == once.edges
    {
      NodeLoadIsDedup(g, rows, id);
      NodeLoadIsDedup(once, rows, id);
      AllNodesPresent(g, rows);
      KeepFirstPresent(once.nodes, NodeEntries(rows));
      var p := PropsOf(rows, id);
      assert forall q: Props :: q + p + p == q + p;
    }
    assert twice.nodes == once.nodes;
  }

  lemma {:induction false} AllNodesPresent(g: Graph, rows: seq<NodeRow>)
    ensures forall i :: 0 <= i < |rows| ==> NodeEntries(rows)[i].0 in LoadNodes(g, rows).nodes
  {
    forall i | 0 <= i < |rows| ensures NodeEntries(rows)[i].0 in LoadNodes(g, rows).nodes {
      var id := rows[i].id;
      HasFirst(NodeEntries(rows), id, i);
      FirstEntryWins(g.nodes, NodeEntries(rows), id);
      NodeLoadIsDedup(g, rows, id);
    }
  }

  /** Put together, for edge rows merged into an empty scope. */
  lemma {:induction false} EdgeRowsGiveFirsts(rows: seq<EdgeRow>, key: (Id, Id), id: Id)
    ensures var g := LoadEdges(EMPTY, rows);
            && (key in g.edges <==> exists i :: FirstAt(EdgeEntries(rows), key, i))
            && (forall i :: FirstAt(EdgeEntries(rows), key, i) ==> g.edges[key] == Edge(rows[i].relType, rows[i].props))
            && (id in g.nodes <==> exists i :: FirstAt(Mentions(rows), id, i))
            && (forall i :: FirstAt(Mentions(rows), id, i) ==> g.nodes[id] == Mentions(rows)[i].1)
  {
    EdgeLoadIsDedup(EMPTY, rows);
    FirstEntryWins(EMPTY.edges, EdgeEntries(rows), key);
    FirstEntryWins(EMPTY.nodes, Mentions(rows), id);
  }

  /** And for node rows. */
  lemma {:induction false} NodeRowsGiveFirstLabelLastProps(rows: seq<NodeRow>, id: Id, first: nat, last: nat)
    requires forall a, b :: a in rows && b in rows ==> a.props.Keys == b.props.Keys
    requires FirstAt(NodeEntries(rows), id, first)
    requires last < |rows| && rows[last].id == id && forall j :: last < j < |rows| ==> rows[j].id != id
    ensures id in LoadNodes(EMPTY, rows).nodes
    ensures LoadNodes(EMPTY, rows).nodes[id] == Node(rows[first].nodeType, rows[last].props, None)
  {
    assert KeepFirst(EMPTY.nodes, NodeEntries(rows))[id] == Node(rows[first].nodeType, map[], None) by {
      FirstEntryWins(EMPTY.nodes, NodeEntries(rows), id);
    }
    assert PropsOf(rows, id) == rows[last].props by {
      LastRowWins(rows, id, last);
    }
    assert map[] + rows[last].props == rows[last].props;
    NodeLoadIsDedup(EMPTY, rows, id);
  }

  // ---- The scope as a cache ----

  function Stamp(g: Graph, now: int): Graph {
    g.(nodes := map id | id in g.nodes :: g.nodes[id].(cachedAt := Some(now)))
  }

  function RowCount(result: Result): nat {
    match result
    case Edges(rows) => |rows|
    case Nodes(rows) => |rows|
  }

  datatype Record =
    | EdgeRecord(src: Id, srcTag: string, relType: string, tgt: Id, tgtTag: string)
    | NodeRecord(id: Id, node: Node)

  function EdgeRecords(g: Graph): set<Record> {
    set k | k in g.edges && k.0 in g.nodes && k.1 in g.nodes ::
      EdgeRecord(k.0, g.nodes[k.0].tag, g.edges[k].relType, k.1, g.nodes[k.1].tag)
  }

  function NodeRecords(g: Graph): set<Record> {
    set id | id in g.nodes :: NodeRecord(id, g.nodes[id])
  }

  /** What the query of a fresh load matches: edges or nodes, by the shape of the result. */
  function LoadedRecords(g: Graph, result: Result): set<Record> {
    if result.Edges? then EdgeRecords(g) else NodeRecords(g)
  }

  /** What a cache hit matches: edges, or nodes when there are none. */
  function CachedRecords(g: Graph): set<Record> {
    if EdgeRecords(g) != {} then EdgeRecords(g) else NodeRecords(g)
  }

  const LIMIT: nat := 500

  /** A query returns at most LIMIT of the records it matches. */
  predicate IsAnswer(answer: set<Record>, records: set<Record>) {
    answer <= records && |answer| == if |records| < LIMIT then |records| else LIMIT
  }

  datatype Checked = Hit | Miss(after: Graph)

  /** The outcome of the cache check when the node it happens to look at is id. */
  function CheckAt(g: Graph, id: Id, now: int, ttl: int): Checked
    requires id in g.nodes
  {
    var stamp := g.nodes[id].cachedAt;
    if stamp.None? then Miss(g)
    else if now - stamp.value > ttl then Miss(EMPTY)
    else if CachedRecords(g) == {} then Miss(g)
    else Hit
  }

  ghost predicate CheckStep(g: Graph, now: int, ttl: int, out: Checked) {
    if ttl <= 0 || g.nodes == map[] then out == Miss(g)
    else exists id :: id in g.nodes && out == CheckAt(g, id, now, ttl)
  }

  /** What a miss leaves in the scope: nothing new when the result has no rows. */
  function AfterMiss(after: Graph, result: Result, now: int): Graph {
    if RowCount(result) == 0 then after else Stamp(Load(after, result), now)
  }

  class ScopeStore {
    var graph: Graph

    constructor ()
      ensures graph == EMPTY
    {
      graph := EMPTY;
    }

    method CheckCache(now: int, ttl: int) returns (hit: bool)
      modifies this
      ensures exists out :: CheckStep(old(graph), now, ttl, out) &&
                            hit == out.Hit? && graph == if out.Hit? then old(graph) else out.after
    {
      hit := false;
      ghost var out := Miss(graph);
      if ttl > 0 && graph.nodes != map[] {
        var id :| id in graph.nodes;
        out := CheckAt(graph, id, now, ttl);
        var cachedAt := graph.nodes[id].cachedAt;
        if cachedAt.Some? {
          if now - cachedAt.value > ttl {
            graph := EMPTY;
          } else {
            hit := CachedRecords(graph) != {};
          }
        }
      }
      assert CheckStep(old(graph), now, ttl, out);
    }

    method LoadRows(result: Result, now: int)
      modifies this
      ensures graph == AfterMiss(old(graph), result, now)
    {
      match result
      case Edges(rows) =>
        if rows == [] { return; }
        for i := 0 to |rows|
          invariant graph == LoadEdges(old(graph), rows[..i])
        {
          assert rows[..i + 1][..i] == rows[..i];
          graph := MergeEdgeRow(graph, rows[i]);
        }
        assert rows[..|rows|] == rows;
        graph := Stamp(graph, now);
      case Nodes(rows) =>
        if rows == [] { return; }
        for i := 0 to |rows|
          invariant graph == LoadNodes(old(graph), rows[..i])
        {
          assert rows[..i + 1][..i] == rows[..i];
          graph := MergeNodeRow(graph, rows[i]);
        }
        assert rows[..|rows|] == rows;
        graph := Stamp(graph, now);
    }
  }

  // ---- Runs ----

  /** A request for the same SQL: when it checks the cache, what DuckDB would return, and when it stamps. */
  datatype Request = Request(checkAt: int, result: Result, stampAt: int)

  /** What a request leaves and answers, given the outcome of its cache check. */
  ghost predicate ServeAs(g: Graph, r: Request, out: Checked, g': Graph, answer: set<Record>) {
    if out.Hit? then g' == g && IsAnswer(answer, CachedRecords(g))
    else g' == AfterMiss(out.after, r.result, r.stampAt) &&
         IsAnswer(answer, if RowCount(r.result) == 0 then {} else LoadedRecords(g', r.result))
  }

  ghost predicate Serve(g: Graph, r: Request, ttl: int, g': Graph, answer: set<Record>) {
    exists out :: CheckStep(g, r.checkAt, ttl, out) && ServeAs(g, r, out, g', answer)
  }

  /** The scope before each request, and after the last. */
  ghost predicate IsRun(requests: seq<Request>, ttl: int, graphs: seq<Graph>, answers: seq<set<Record>>) {
    && |graphs| == |requests| + 1 && |answers| == |requests| && graphs[0] == EMPTY
    && forall i :: 0 <= i < |requests| ==> Serve(graphs[i], requests[i], ttl, graphs[i + 1], answers[i])
  }

  /** The scope holds exactly what request j loaded, all of it stamped when j finished. */
  predicate HoldsLoadOf(g: Graph, requests: seq<Request>, j: int) {
    0 <= j < |requests| && RowCount(requests[j].result) > 0 &&
    g == Stamp(Load(EMPTY, requests[j].result), requests[j].stampAt)
  }

  ghost predicate OneLoadOrEmpty(g: Graph, requests: seq<Request>, n: nat) {
    g == EMPTY || exists j :: j < n && HoldsLoadOf(g, requests, j)
  }

  lemma {:induction false} EdgesHaveEnds(rows: seq<EdgeRow>)
    ensures var g := LoadEdges(EMPTY, rows);
            && (forall k :: k in g.edges ==> k.0 in g.nodes && k.1 in g.nodes)
            && (rows != [] ==> (rows[|rows| - 1].src, rows[|rows| - 1].tgt) in g.edges)
  {
    if rows != [] {
      EdgesHaveEnds(rows[..|rows| - 1]);
    }
  }

  lemma {:induction false} NodeLoadHasNoEdges(rows: seq<NodeRow>)
    ensures var g := LoadNodes(EMPTY, rows);
            g.edges == map[] && (rows != [] ==> rows[|rows| - 1].id in g.nodes)
  {
    if rows != [] {
      NodeLoadHasNoEdges(rows[..|rows| - 1]);
    }
  }

  /** A hit runs the query that the load itself would have run, and it matches something. */
  lemma {:induction false} HitQueriesAsLoaded(result: Result, now: int)
    requires RowCount(result) > 0
    ensures var g := Stamp(Load(EMPTY, result), now);
            && g.nodes != map[] && CachedRecords(g) == LoadedRecords(g, result) != {}
            && forall id :: id in g.nodes ==> g.nodes[id].cachedAt == Some(now)
  {
    var g := Stamp(Load(EMPTY, result), now);
    match result
    case Edges(rows) =>
      EdgesHaveEnds(rows);
      var k := (rows[|rows| - 1].src, rows[|rows| - 1].tgt);
      assert k.0 in g.nodes && k.1 in g.nodes;
      assert EdgeRecord(k.0, g.nodes[k.0].tag, g.edges[k].relType, k.1, g.nodes[k.1].tag) in EdgeRecords(g);
    case Nodes(rows) =>
      NodeLoadHasNoEdges(rows);
      assert EdgeRecords(g) == {};
      var id := rows[|rows| - 1].id;
      assert id in g.nodes && NodeRecord(id, g.nodes[id]) in NodeRecords(g);
  }

  ghost predicate FreshLoad(g: Graph, requests: seq<Request>, j: int, now: int, ttl: int) {
    HoldsLoadOf(g, requests, j) && now - requests[j].stampAt <= ttl &&
    CachedRecords(g) == LoadedRecords(g, requests[j].result)
  }

  /** With the cache on, the check either finds a graph within its time to live or leaves nothing behind. */
  lemma {:induction false} CheckOutcome(requests: seq<Request>, n: nat, ttl: int, g: Graph, now: int, out: Checked)
    requires ttl > 0 && OneLoadOrEmpty(g, requests, n) && CheckStep(g, now, ttl, out)
    ensures out.Miss? ==> out.after == EMPTY
    ensures out.Hit? ==> exists j :: j < n && FreshLoad(g, requests, j, now, ttl)
  {
    if g != EMPTY {
      var j :| j < n && HoldsLoadOf(g, requests, j);
      HitQueriesAsLoaded(requests[j].result, requests[j].stampAt);
      assert out.Hit? ==> FreshLoad(g, requests, j, now, ttl);
    }
  }

  /** One request, when the cache is on: what it serves and what it leaves. */
  lemma {:induction false} ServeKeepsInvariant(requests: seq<Request>, n: nat, ttl: int, g: Graph, g': Graph,
          answer: set<Record>)
    requires ttl > 0 && n < |requests| && OneLoadOrEmpty(g, requests, n) && Serve(g, requests[n], ttl, g', answer)
    ensures OneLoadOrEmpty(g', requests, n + 1)
    ensures Sound(g, requests, n, ttl, g', answer)
  {
    var r := requests[n];
    var out :| CheckStep(g, r.checkAt, ttl, out) && ServeAs(g, r, out, g', answer);
    CheckOutcome(requests, n, ttl, g, r.checkAt, out);
    if out.Miss? {
      assert RowCount(r.result) > 0 ==> HoldsLoadOf(g', requests, n);
    } else {
      var j :| j < n && FreshLoad(g, requests, j, r.checkAt, ttl);
      assert ServesLoadOf(g, requests, n, j, ttl, answer);
    }
  }

  ghost predicate ServesLoadOf(g: Graph, requests: seq<Request>, n: int, j: int, ttl: int, answer: set<Record>)
    requires 0 <= n < |requests|
  {
    HoldsLoadOf(g, requests, j) && requests[n].checkAt - requests[j].stampAt <= ttl &&
    IsAnswer(answer, LoadedRecords(g, requests[j].result))
  }

  /**
    The answer is either a cached graph no older than the time to live, as an earlier request loaded it, or
    this request's own result loaded into an empty scope.
   */
  ghost predicate Sound(g: Graph, requests: seq<Request>, n: nat, ttl: int, g': Graph, answer: set<Record>)
    requires n < |requests|
  {
    || (g' == g && exists j :: j < n && ServesLoadOf(g, requests, n, j, ttl, answer))
    || (g' == AfterMiss(EMPTY, requests[n].result, requests[n].stampAt) &&
        IsAnswer(answer, if RowCount(requests[n].result) == 0 then {} else LoadedRecords(g', requests[n].result)))
  }

  lemma {:induction false} ScopeInvariant(requests: seq<Request>, ttl: int, graphs: seq<Graph>,
          answers: seq<set<Record>>, n: nat)
    requires ttl > 0 && IsRun(requests, ttl, graphs, answers) && n <= |requests|
    ensures OneLoadOrEmpty(graphs[n], requests, n)
  {
    if n > 0 {
      ScopeInvariant(requests, ttl, graphs, answers, n - 1);
      ServeKeepsInvariant(requests, n - 1, ttl, graphs[n - 1], graphs[n], answers[n - 1]);
    }
  }

  /** Over every run of sequential requests, with the cache switched on. */
  lemma {:induction false} CacheIsOneLoad(requests: seq<Request>, ttl: int, graphs: seq<Graph>,
          answers: seq<set<Record>>)
    requires ttl > 0 && IsRun(requests, ttl, graphs, answers)
    ensures forall n: nat :: n <= |requests| ==> OneLoadOrEmpty(graphs[n], requests, n)
    ensures forall i :: 0 <= i < |requests| ==> Sound(graphs[i], requests, i, ttl, graphs[i + 1], answers[i])
  {
    forall n: nat | n <= |requests| ensures OneLoadOrEmpty(graphs[n], requests, n) {
      ScopeInvariant(requests, ttl, graphs, answers, n);
    }
    forall i | 0 <= i < |requests| ensures Sound(graphs[i], requests, i, ttl, graphs[i + 1], answers[i]) {
      ScopeInvariant(requests, ttl, graphs, answers, i);
      ServeKeepsInvariant(requests, i, ttl, graphs[i], graphs[i + 1], answers[i]);
    }
  }

  // ---- What the records say of the rows ----

  /** Row i is the first for its pair, and a and b are where its two ends are mentioned first. */
  ghost predicate FirstOfPair(rows: seq<EdgeRow>, i: int, a: int, b: int) {
    && 0 <= i < |rows| && FirstAt(EdgeEntries(rows), (rows[i].src, rows[i].tgt), i)
    && FirstAt(Mentions(rows), rows[i].src, a) && FirstAt(Mentions(rows), rows[i].tgt, b)
  }

  /** Position a among the mentions is the source of row a/2 if it is even, and the target if it is odd. */
  function LabelAt(rows: seq<EdgeRow>, a: nat): string
    requires a < 2 * |rows|
  {
    if a % 2 == 0 then rows[a / 2].srcType else rows[a / 2].tgtType
  }

  lemma {:induction false} LabelIsMentioned(rows: seq<EdgeRow>, a: nat)
    requires a < 2 * |rows|
    ensures Mentions(rows)[a].1.tag == LabelAt(rows, a)
  {
    assert a == 2 * (a / 2) || a == 2 * (a / 2) + 1;
  }

  function RecordOf(rows: seq<EdgeRow>, i: nat, a: nat, b: nat): Record
    requires i < |rows| && a < 2 * |rows| && b < 2 * |rows|
  {
    EdgeRecord(rows[i].src, LabelAt(rows, a), rows[i].relType, rows[i].tgt, LabelAt(rows, b))
  }

  /** An edge after the load, and the rows that it comes from. */
  lemma {:induction false} EdgeFromRows(rows: seq<EdgeRow>, k: (Id, Id), i: int, a: int, b: int)
    requires FirstAt(EdgeEntries(rows), k, i) && FirstAt(Mentions(rows), k.0, a) && FirstAt(Mentions(rows), k.1, b)
    ensures var g := LoadEdges(EMPTY, rows);
            && k in g.edges && k.0 in g.nodes && k.1 in g.nodes
            && EdgeRecord(k.0, g.nodes[k.0].tag, g.edges[k].relType, k.1, g.nodes[k.1].tag) == RecordOf(rows, i, a, b)
  {
    EdgeLoadIsDedup(EMPTY, rows);
    FirstEntryIs(EMPTY.edges, EdgeEntries(rows), k, i);
    FirstEntryIs(EMPTY.nodes, Mentions(rows), k.0, a);
    FirstEntryIs(EMPTY.nodes, Mentions(rows), k.1, b);
    LabelIsMentioned(rows, a);
    LabelIsMentioned(rows, b);
  }

  lemma {:induction false} EdgeHasRows(rows: seq<EdgeRow>, k: (Id, Id)) returns (i: int, a: int, b: int)
    requires var g := LoadEdges(EMPTY, rows); k in g.edges && k.0 in g.nodes && k.1 in g.nodes
    ensures FirstAt(EdgeEntries(rows), k, i) && FirstAt(Mentions(rows), k.0, a) && FirstAt(Mentions(rows), k.1, b)
  {
    EdgeLoadIsDedup(EMPTY, rows);
    i := FirstEntryOf(EMPTY.edges, EdgeEntries(rows), k);
    a := FirstEntryOf(EMPTY.nodes, Mentions(rows), k.0);
    b := FirstEntryOf(EMPTY.nodes, Mentions(rows), k.1);
  }

  /** After a load of edge rows the query gives one record for each pair, with labels from where they first stand. */
  lemma {:induction false} EdgeRecordsOfRows(rows: seq<EdgeRow>, now: int, record: Record)
    ensures record in LoadedRecords(Stamp(Load(EMPTY, Edges(rows)), now), Edges(rows)) <==>
            exists i, a, b :: FirstOfPair(rows, i, a, b) && record == RecordOf(rows, i, a, b)
  {
    var g, stamped := LoadEdges(EMPTY, rows), Stamp(LoadEdges(EMPTY, rows), now);
    if record in EdgeRecords(stamped) {
      var k :| k in g.edges && k.0 in g.nodes && k.1 in g.nodes &&
               record == EdgeRecord(k.0, g.nodes[k.0].tag, g.edges[k].relType, k.1, g.nodes[k.1].tag);
      var i, a, b := EdgeHasRows(rows, k);
      EdgeFromRows(rows, k, i, a, b);
      assert FirstOfPair(rows, i, a, b);
    }
    if i, a, b :| FirstOfPair(rows, i, a, b) && record == RecordOf(rows, i, a, b) {
      var k := (rows[i].src, rows[i].tgt);
      EdgeFromRows(rows, k, i, a, b);
      assert k in stamped.edges && k.0 in stamped.nodes && k.1 in stamped.nodes;
    }
  }

  lemma {:induction false} NodeFromRows(rows: seq<NodeRow>, id: Id, i: int)
    requires FirstAt(NodeEntries(rows), id, i)
    ensures var g := LoadNodes(EMPTY, rows);
            id in g.nodes && g.nodes[id] == Node(rows[i].nodeType, PropsOf(rows, id), None)
  {
    NodeLoadIsDedup(EMPTY, rows, id);
    FirstEntryIs(EMPTY.nodes, NodeEntries(rows), id, i);
    assert map[] + PropsOf(rows, id) == PropsOf(rows, id);
  }

  lemma {:induction false} NodeHasRow(rows: seq<NodeRow>, id: Id) returns (i: int)
    requires id in LoadNodes(EMPTY, rows).nodes
    ensures FirstAt(NodeEntries(rows), id, i)
  {
    NodeLoadIsDedup(EMPTY, rows, id);
    i := FirstEntryOf(EMPTY.nodes, NodeEntries(rows), id);
  }

  /** And after one of node rows a record for each id, with its first label, its last properties and the stamp. */
  lemma {:induction false} NodeRecordsOfRows(rows: seq<NodeRow>, now: int, record: Record)
    ensures record in LoadedRecords(Stamp(Load(EMPTY, Nodes(rows)), now), Nodes(rows)) <==>
            exists i :: 0 <= i < |rows| && FirstAt(NodeEntries(rows), rows[i].id, i) &&
              record == NodeRecord(rows[i].id, Node(rows[i].nodeType, PropsOf(rows, rows[i].id), Some(now)))
  {
    var g, stamped := LoadNodes(EMPTY, rows), Stamp(LoadNodes(EMPTY, rows), now);
    if record in NodeRecords(stamped) {
      var id :| id in g.nodes && record == NodeRecord(id, g.nodes[id].(cachedAt := Some(now)));
      var i := NodeHasRow(rows, id);
      NodeFromRows(rows, id, i);
      assert rows[i].id == id;
    }
    if i :| 0 <= i < |rows| && FirstAt(NodeEntries(rows), rows[i].id, i) &&
            record == NodeRecord(rows[i].id, Node(rows[i].nodeType, PropsOf(rows, rows[i].id), Some(now))) {
      NodeFromRows(rows, rows[i].id, i);
      assert rows[i].id in stamped.nodes;
    }
  }

  // ---- When the cache hits ----

  /**
    What a check may find depends on the stamp of the node that it looks at: fresh, run out, or none, as in a scope
    that a load was cut short in.
   */
  lemma {:induction false} CheckMeans(g: Graph, now: int, ttl: int)
    requires ttl > 0
    ensures CheckStep(g, now, ttl, Hit) <==>
            exists id :: id in g.nodes && g.nodes[id].cachedAt.Some? && now - g.nodes[id].cachedAt.value <= ttl
    ensures g != EMPTY ==>
              (CheckStep(g, now, ttl, Miss(EMPTY)) <==>
               exists id :: id in g.nodes && g.nodes[id].cachedAt.Some? && now - g.nodes[id].cachedAt.value > ttl)
    ensures g != EMPTY ==>
              (CheckStep(g, now, ttl, Miss(g)) <==>
               g.nodes == map[] || exists id :: id in g.nodes && g.nodes[id].cachedAt.None?)
  {
    forall id | id in g.nodes ensures CachedRecords(g) != {} {
      assert NodeRecord(id, g.nodes[id]) in NodeRecords(g);
    }
    forall id | id in g.nodes ensures CheckStep(g, now, ttl, CheckAt(g, id, now, ttl)) {
    }
  }

  /** Which load the scope holds before request i. */
  function HeldBefore(requests: seq<Request>, ttl: int, i: nat): (held: Option<nat>)
    requires i <= |requests|
    ensures held.Some? ==> held.value < i
  {
    if i == 0 then None
    else
      var held := HeldBefore(requests, ttl, i - 1);
      if held.Some? && requests[i - 1].checkAt - requests[held.value].stampAt <= ttl then held
      else if requests[i - 1].result in {Edges([]), Nodes([])} then None
      else Some(i - 1)
  }

  /** That load, on its own and stamped. */
  ghost predicate IsHeld(g: Graph, requests: seq<Request>, held: Option<nat>)
    requires held.Some? ==> held.value < |requests|
  {
    match held
    case None => g == EMPTY
    case Some(j) => HoldsLoadOf(g, requests, j)
  }

  /** A scope that holds a load: a hit within its time to live, and evicted after it. */
  lemma {:induction false} HitWhileFresh(requests: seq<Request>, j: nat, ttl: int, g: Graph, now: int, out: Checked)
    requires ttl > 0 && HoldsLoadOf(g, requests, j) && CheckStep(g, now, ttl, out)
    ensures out == if now - requests[j].stampAt <= ttl then Hit else Miss(EMPTY)
  {
    HitQueriesAsLoaded(requests[j].result, requests[j].stampAt);
  }

  /** Request i while load j is fresh: the scope stays as it is and the answer comes from it. */
  lemma {:induction false} FreshIsServed(requests: seq<Request>, i: nat, j: nat, ttl: int, g: Graph, g': Graph,
          answer: set<Record>)
    requires ttl > 0 && i < |requests| && HoldsLoadOf(g, requests, j) && Serve(g, requests[i], ttl, g', answer)
    requires requests[i].checkAt - requests[j].stampAt <= ttl
    ensures g' == g && IsAnswer(answer, LoadedRecords(g, requests[j].result))
  {
    var out :| CheckStep(g, requests[i].checkAt, ttl, out) && ServeAs(g, requests[i], out, g', answer);
    HitWhileFresh(requests, j, ttl, g, requests[i].checkAt, out);
    HitQueriesAsLoaded(requests[j].result, requests[j].stampAt);
  }

  ghost predicate ServesOwn(requests: seq<Request>, i: nat, g': Graph, answer: set<Record>)
    requires i < |requests|
  {
    var r := requests[i];
    if r.result in {Edges([]), Nodes([])} then g' == EMPTY && answer == {}
    else HoldsLoadOf(g', requests, i) && IsAnswer(answer, LoadedRecords(g', r.result))
  }

  /** Otherwise nothing of it is left, and the request answers from its own result. */
  lemma {:induction false} StaleIsReloaded(requests: seq<Request>, i: nat, held: Option<nat>, ttl: int, g: Graph,
          g': Graph, answer: set<Record>)
    requires ttl > 0 && i < |requests| && (held.Some? ==> held.value < |requests|) && IsHeld(g, requests, held)
    requires held.Some? ==> requests[i].checkAt - requests[held.value].stampAt > ttl
    requires Serve(g, requests[i], ttl, g', answer)
    ensures ServesOwn(requests, i, g', answer)
  {
    var out :| CheckStep(g, requests[i].checkAt, ttl, out) && ServeAs(g, requests[i], out, g', answer);
    if held.Some? {
      HitWhileFresh(requests, held.value, ttl, g, requests[i].checkAt, out);
    }
    assert out == Miss(EMPTY);
  }

  /** Within the time to live of the load in the scope it stays and answers, otherwise the request's own does. */
  ghost predicate IsServed(requests: seq<Request>, i: nat, held: Option<nat>, ttl: int, g: Graph, g': Graph,
          answer: set<Record>)
    requires i < |requests| && (held.Some? ==> held.value < |requests|)
  {
    if held.Some? && requests[i].checkAt - requests[held.value].stampAt <= ttl then
      g' == g && IsAnswer(answer, LoadedRecords(g, requests[held.value].result))
    else ServesOwn(requests, i, g', answer)
  }

  lemma {:induction false} StepIsDetermined(requests: seq<Request>, i: nat, ttl: int, g: Graph, g': Graph,
          answer: set<Record>)
    requires ttl > 0 && i < |requests| && Serve(g, requests[i], ttl, g', answer)
    requires IsHeld(g, requests, HeldBefore(requests, ttl, i))
    ensures IsServed(requests, i, HeldBefore(requests, ttl, i), ttl, g, g', answer)
    ensures IsHeld(g', requests, HeldBefore(requests, ttl, i + 1))
  {
    var held := HeldBefore(requests, ttl, i);
    if held.Some? && requests[i].checkAt - requests[held.value].stampAt <= ttl {
      FreshIsServed(requests, i, held.value, ttl, g, g', answer);
    } else {
      StaleIsReloaded(requests, i, held, ttl, g, g', answer);
    }
  }

  /**
    With the cache on, the requests determine every run: before request i the scope holds exactly the load that the
    times say, a request within that load's time to live hits and answers from it, and any other answers from its
    own result.
   */
  lemma {:induction false} RunIsDetermined(requests: seq<Request>, ttl: int, graphs: seq<Graph>,
          answers: seq<set<Record>>, i: nat)
    requires ttl > 0 && IsRun(requests, ttl, graphs, answers) && i < |requests|
    ensures IsHeld(graphs[i], requests, HeldBefore(requests, ttl, i))
    ensures IsHeld(graphs[i + 1], requests, HeldBefore(requests, ttl, i + 1))
    ensures IsServed(requests, i, HeldBefore(requests, ttl, i), ttl, graphs[i], graphs[i + 1], answers[i])
  {
    if i > 0 {
      RunIsDetermined(requests, ttl, graphs, answers, i - 1);
    }
    ServedAt(requests, ttl, graphs, answers, i);
    StepIsDetermined(requests, i, ttl, graphs[i], graphs[i + 1], answers[i]);
  }

  lemma {:induction false} ServedAt(requests: seq<Request>, ttl: int, graphs: seq<Graph>, answers: seq<set<Record>>,
          i: nat)
    requires IsRun(requests, ttl, graphs, answers) && i < |requests|
    ensures Serve(graphs[i], requests[i], ttl, graphs[i + 1], answers[i])
  {
  }

  /** An answer is all of the records, up to 500 of them. */
  lemma {:induction false} AnswerIsCapped(answer: set<Record>, records: set<Record>)
    requires IsAnswer(answer, records)
    ensures |answer| <= 500 && answer <= records && (|records| <= 500 ==> answer == records)
    ensures |records| > 500 ==> |answer| == 500
  {
    if |records| <= 500 && answer != records {
      var x :| x in records && x !in answer;
      assert |records - {x}| == |records| - 1;
      SmallerSet(answer, records - {x});
    }
  }

  lemma {:induction false} SmallerSet<T>(a: set<T>, b: set<T>)
    requires a <= b
    ensures |a| <= |b|
  {
    if a != {} {
      var x :| x in a;
      SmallerSet(a - {x}, b - {x});
    }
  }

  // ---- With the cache switched off ----

  function OffRequests(): seq<Request> {
    [Request(0, Nodes([NodeRow("a", "T", map[])]), 0), Request(1, Nodes([NodeRow("b", "T", map[])]), 1)]
  }

  function LoadedOne(id: Id, now: int): Graph {
    Graph(map[id := Node("T", map[], Some(now))], map[])
  }

  function LoadedBoth(): Graph {
    Graph(map["a" := Node("T", map[], Some(1)), "b" := Node("T", map[], Some(1))], map[])
  }

  /** All the loads before request n, each stamped over everything; a result without rows leaves the scope alone. */
  function Piled(requests: seq<Request>, n: nat): Graph
    requires n <= |requests|
  {
    if n == 0 then EMPTY
    else
      var r := requests[n - 1];
      if r.result == Edges([]) || r.result == Nodes([]) then Piled(requests, n - 1)
      else Stamp(Load(Piled(requests, n - 1), r.result), r.stampAt)
  }

  /** With the cache off no request hits and every load is merged into what is there. */
  lemma {:induction false} OffRunPilesUp(requests: seq<Request>, ttl: int, graphs: seq<Graph>,
          answers: seq<set<Record>>, n: nat)
    requires ttl <= 0 && IsRun(requests, ttl, graphs, answers) && n <= |requests|
    ensures graphs[n] == Piled(requests, n)
    ensures n < |requests| ==>
              if requests[n].result == Edges([]) || requests[n].result == Nodes([]) then answers[n] == {}
              else IsAnswer(answers[n], LoadedRecords(graphs[n + 1], requests[n].result))
  {
    if n > 0 {
      OffRunPilesUp(requests, ttl, graphs, answers, n - 1);
      assert Serve(graphs[n - 1], requests[n - 1], ttl, graphs[n], answers[n - 1]);
    }
    if n < |requests| {
      assert Serve(graphs[n], requests[n], ttl, graphs[n + 1], answers[n]);
    }
  }

  lemma {:induction false} LoadOne(g: Graph, id: Id)
    requires id !in g.nodes
    ensures LoadNodes(g, [NodeRow(id, "T", map[])]) == g.(nodes := g.nodes[id := Node("T", map[], None)])
  {
    var rows := [NodeRow(id, "T", map[])];
    assert rows[..0] == [];
    assert LoadNodes(g, rows) == MergeNodeRow(g, rows[0]);
  }

  /** A time to live of zero does not clear the scope: loads pile up in it. */
  lemma {:induction false} SwitchedOffPilesUp(ttl: int)
    requires ttl <= 0
    ensures exists graphs, answers :: IsRun(OffRequests(), ttl, graphs, answers) && graphs[2] == LoadedBoth()
    ensures !OneLoadOrEmpty(LoadedBoth(), OffRequests(), 2)
  {
    var g1, g2 := LoadedOne("a", 0), LoadedBoth();
    var answers := [NodeRecords(g1), NodeRecords(g2)];
    FirstOffRequest(ttl);
    SecondOffRequest(ttl);
    assert IsRun(OffRequests(), ttl, [EMPTY, g1, g2], answers);
    NeitherAlone();
  }

  lemma {:induction false} FirstOffRequest(ttl: int)
    requires ttl <= 0
    ensures Serve(EMPTY, OffRequests()[0], ttl, LoadedOne("a", 0), NodeRecords(LoadedOne("a", 0)))
  {
    var r, g1 := OffRequests()[0], LoadedOne("a", 0);
    LoadOne(EMPTY, "a");
    assert g1 == AfterMiss(EMPTY, r.result, 0);
    assert NodeRecords(g1) == {NodeRecord("a", g1.nodes["a"])};
    assert CheckStep(EMPTY, 0, ttl, Miss(EMPTY)) && ServeAs(EMPTY, r, Miss(EMPTY), g1, NodeRecords(g1));
  }

  lemma {:induction false} SecondOffRequest(ttl: int)
    requires ttl <= 0
    ensures Serve(LoadedOne("a", 0), OffRequests()[1], ttl, LoadedBoth(), NodeRecords(LoadedBoth()))
  {
    var r, g1, g2 := OffRequests()[1], LoadedOne("a", 0), LoadedBoth();
    LoadOne(g1, "b");
    assert g2 == AfterMiss(g1, r.result, 1);
    assert NodeRecords(g2) == {NodeRecord("a", g2.nodes["a"]), NodeRecord("b", g2.nodes["b"])};
    assert CheckStep(g1, 1, ttl, Miss(g1)) && ServeAs(g1, r, Miss(g1), g2, NodeRecords(g2));
  }

  lemma {:induction false} NeitherAlone()
    ensures !OneLoadOrEmpty(LoadedBoth(), OffRequests(), 2)
  {
    var rs := OffRequests();
    LoadOne(EMPTY, "a");
    LoadOne(EMPTY, "b");
    assert "b" in LoadedBoth().nodes && "b" !in Stamp(Load(EMPTY, rs[0].result), 0).nodes;
    assert "a" in LoadedBoth().nodes && "a" !in Stamp(Load(EMPTY, rs[1].result), 1).nodes;
  }

  ghost predicate AlwaysOneLoad(ttl: int) {
    forall requests, graphs, answers, n: nat ::
      IsRun(requests, ttl, graphs, answers) && n <= |requests| ==> OneLoadOrEmpty(graphs[n], requests, n)
  }

  /** So every run keeps the scope to one load exactly when the time to live is positive. */
  lemma {:induction false} OneLoadIffCacheOn(ttl: int)
    ensures AlwaysOneLoad(ttl) <==> ttl > 0
  {
    if ttl > 0 {
      forall requests, graphs, answers, n: nat | IsRun(requests, ttl, graphs, answers) && n <= |requests|
        ensures OneLoadOrEmpty(graphs[n], requests, n)
      {
        ScopeInvariant(requests, ttl, graphs, answers, n);
      }
    } else {
      SwitchedOffPilesUp(ttl);
      var graphs, answers :| IsRun(OffRequests(), ttl, graphs, answers) && graphs[2] == LoadedBoth();
      assert !OneLoadOrEmpty(graphs[2], OffRequests(), 2);
    }
  }
}
