/** The source-citation graph served by app/backend/app.py: which schema
    relations fit a node selection (`get_compatible_rels`), and how
    `get_data` turns the database's source-to-source reference counts into
    a node list with in/out totals and scores plus index-based relations.
    The database queries and the networkx scores are inputs: `rows` are the
    aggregated reference rows in the order the query returns them,
    `sources` every Source node, and the three score tables come from
    PageRank and HITS. */
module SourceGraph {
  import opened Common
  import OrderedDict
  import GV = GraphView
  import Js

  // get_compatible_rels

  datatype SchemaRel = SchemaRel(name: string, from: string, to: string)

  /** The relation the schema declares. */
  const Schema: seq<SchemaRel> := [SchemaRel("ReferencesSource", "Source", "Source")]

  predicate Compatible(r: SchemaRel, selected: seq<string>) {
    r.from in selected && r.to in selected
  }

  /** The relations, in schema order, whose two end labels are selected. */
  function CompatibleRels(schema: seq<SchemaRel>, selected: seq<string>): (r: seq<SchemaRel>)
    ensures Subseq(r, schema)
    ensures forall x :: multiset(r)[x] == if Compatible(x, selected) then multiset(schema)[x] else 0
    decreases |schema|
  {
    if |schema| == 0 then []
    else
      var rest := CompatibleRels(schema[1..], selected);
      assert schema == [schema[0]] + schema[1..];
      if Compatible(schema[0], selected) then [schema[0]] + rest else rest
  }

  /** Selecting more node labels never loses a relation. */
  lemma {:induction false} CompatibleRelsMonotone(schema: seq<SchemaRel>, a: seq<string>, b: seq<string>)
    requires forall x :: x in a ==> x in b
    ensures Subseq(CompatibleRels(schema, a), CompatibleRels(schema, b))
    decreases |schema|
  {
    if |schema| == 0 {
    } else {
      CompatibleRelsMonotone(schema[1..], a, b);
    }
  }

  /** With the shipped schema, the reference relation is offered exactly
      when Source is selected. */
  lemma ShippedSchema(selected: seq<string>)
    ensures CompatibleRels(Schema, selected) == if "Source" in selected then Schema else []
  {
  }

  // get_data

  /** One aggregated row: source s1 cites source s2 `count` times. */
  datatype Row = Row(s1Id: int, s1Name: string, s2Id: int, s2Name: string, count: int)

  datatype Scores = Scores(pagerank: map<int, real>, hub: map<int, real>, auth: map<int, real>)

  datatype SourceNode = SourceNode(
    id: int, name: string,
    referencedBy: int, referencesTo: int, diff: int,
    pagerank: real, hub: real, auth: real)

  /** A relation after remapping: the label is always ReferencesSource. */
  datatype Reference = Reference(count: int, fromIdx: nat, toIdx: nat)

  /** Which end of a row a degree counts. */
  datatype Dir = Out | In

  function End(r: Row, d: Dir): int {
    match d
    case Out => r.s1Id
    case In => r.s2Id
  }

  /** `out_degree[id]` / `in_degree[id]` after the given rows. */
  function Degree(rows: seq<Row>, id: int, d: Dir): int
    decreases |rows|
  {
    if |rows| == 0 then 0
    else
      var last := rows[|rows| - 1];
      Degree(rows[..|rows| - 1], id, d) + (if End(last, d) == id then last.count else 0)
  }

  /** `dict.get(id, 0)`. */
  function GetOr<V>(m: map<int, V>, id: int, dflt: V): V {
    if id in m then m[id] else dflt
  }

  /** What one row does to `source_names`. */
  function NameRow(d: OrderedDict.Dict<int, string>, r: Row): OrderedDict.Dict<int, string> {
    OrderedDict.Put(OrderedDict.Put(d, r.s1Id, r.s1Name), r.s2Id, r.s2Name)
  }

  /** `source_names` after the first pass. */
  function RowNames(rows: seq<Row>): OrderedDict.Dict<int, string>
    decreases |rows|
  {
    if |rows| == 0 then [] else NameRow(RowNames(rows[..|rows| - 1]), rows[|rows| - 1])
  }

  /** `source_names` after the second pass. */
  function AddSources(d: OrderedDict.Dict<int, string>, sources: seq<(int, string)>): OrderedDict.Dict<int, string>
    decreases |sources|
  {
    if |sources| == 0 then d
    else
      var last := sources[|sources| - 1];
      OrderedDict.Put(AddSources(d, sources[..|sources| - 1]), last.0, last.1)
  }

  function SourceNames(rows: seq<Row>, sources: seq<(int, string)>): OrderedDict.Dict<int, string> {
    AddSources(RowNames(rows), sources)
  }

  /** The node built for one `source_names` entry. */
  function NodeOf(entry: (int, string), rows: seq<Row>, scores: Scores): SourceNode {
    var id := entry.0;
    var inn := Degree(rows, id, In);
    var out := Degree(rows, id, Out);
    SourceNode(id, entry.1, inn, out, out - inn,
               GetOr(scores.pagerank, id, 0.0), GetOr(scores.hub, id, 0.0), GetOr(scores.auth, id, 0.0))
  }

  /** Position of the first occurrence of x. */
  function IndexOf(ks: seq<int>, x: int): (i: nat)
    requires x in ks
    ensures i < |ks| && ks[i] == x
    ensures forall j :: 0 <= j < i ==> ks[j] != x
    decreases |ks|
  {
    if ks[0] == x then 0 else 1 + IndexOf(ks[1..], x)
  }

  /** The reference the method is checked against: one node per
      `source_names` entry in its order, and one relation per row with both
      ids replaced by node positions. */
  function ReferenceNodes(rows: seq<Row>, sources: seq<(int, string)>, scores: Scores): seq<SourceNode> {
    var names := SourceNames(rows, sources);
    seq(|names|, k requires 0 <= k < |names| => NodeOf(names[k], rows, scores))
  }

  /** Both ids of every row are `source_names` keys; `RowIdsHaveNodes`
      shows this always holds. */
  predicate EveryRowIdHasNode(rows: seq<Row>, sources: seq<(int, string)>) {
    forall e :: 0 <= e < |rows| ==>
      rows[e].s1Id in OrderedDict.Keys(SourceNames(rows, sources))
      && rows[e].s2Id in OrderedDict.Keys(SourceNames(rows, sources))
  }

  function ReferenceRelations(rows: seq<Row>, sources: seq<(int, string)>): seq<Reference>
    requires EveryRowIdHasNode(rows, sources)
  {
    var ks := OrderedDict.Keys(SourceNames(rows, sources));
    seq(|rows|, e requires 0 <= e < |rows| => Reference(rows[e].count, IndexOf(ks, rows[e].s1Id), IndexOf(ks, rows[e].s2Id)))
  }

  // Facts about `source_names`.

  /** The ids the rows mention, two per row in row order. */
  function RowIds(rows: seq<Row>): seq<int>
    decreases |rows|
  {
    if |rows| == 0 then []
    else
      var last := rows[|rows| - 1];
      RowIds(rows[..|rows| - 1]) + [last.s1Id, last.s2Id]
  }

  lemma {:induction false} RowIdsContain(rows: seq<Row>)
    ensures forall e :: 0 <= e < |rows| ==> rows[e].s1Id in RowIds(rows) && rows[e].s2Id in RowIds(rows)
    decreases |rows|
  {
    if |rows| > 0 {
      var init := rows[..|rows| - 1];
      RowIdsContain(init);
      assert forall e :: 0 <= e < |init| ==> rows[e] == init[e];
    }
  }

  /** The second pass only adds keys, after those of the first. */
  lemma AddSourcesKeys(d: OrderedDict.Dict<int, string>, sources: seq<(int, string)>)
    ensures OrderedDict.Keys(d) <= OrderedDict.Keys(AddSources(d, sources))
    ensures forall k :: k in OrderedDict.Keys(AddSources(d, sources)) <==>
              k in OrderedDict.Keys(d) || k in OrderedDict.Keys(sources)
  {
    AddSourcesPrefix(d, sources);
    AddSourcesMembers(d, sources);
  }

  lemma {:induction false} AddSourcesPrefix(d: OrderedDict.Dict<int, string>, sources: seq<(int, string)>)
    ensures OrderedDict.Keys(d) <= OrderedDict.Keys(AddSources(d, sources))
    decreases |sources|
  {
    if |sources| > 0 {
      var last := sources[|sources| - 1];
      var prev := AddSources(d, sources[..|sources| - 1]);
      AddSourcesPrefix(d, sources[..|sources| - 1]);
      assert OrderedDict.Keys(prev) <= OrderedDict.Keys(OrderedDict.Put(prev, last.0, last.1));
    }
  }

  lemma {:induction false} AddSourcesMembers(d: OrderedDict.Dict<int, string>, sources: seq<(int, string)>)
    ensures forall k :: k in OrderedDict.Keys(AddSources(d, sources)) <==>
              k in OrderedDict.Keys(d) || k in OrderedDict.Keys(sources)
    decreases |sources|
  {
    if |sources| > 0 {
      var init := sources[..|sources| - 1];
      var last := sources[|sources| - 1];
      AddSourcesMembers(d, init);
      assert sources == init + [last];
      OrderedDict.KeysSnoc(init, last);
    }
  }

  lemma {:induction false} AddSourcesUnique(d: OrderedDict.Dict<int, string>, sources: seq<(int, string)>)
    requires OrderedDict.UniqueKeys(d)
    ensures OrderedDict.UniqueKeys(AddSources(d, sources))
    decreases |sources|
  {
    if |sources| > 0 {
      var last := sources[|sources| - 1];
      AddSourcesUnique(d, sources[..|sources| - 1]);
      OrderedDict.PutKeepsUnique(AddSources(d, sources[..|sources| - 1]), last.0, last.1);
    }
  }

  lemma {:induction false} RowNamesUnique(rows: seq<Row>)
    ensures OrderedDict.UniqueKeys(RowNames(rows))
    decreases |rows|
  {
    if |rows| > 0 {
      var init := rows[..|rows| - 1];
      var last := rows[|rows| - 1];
      RowNamesUnique(init);
      OrderedDict.PutKeepsUnique(RowNames(init), last.s1Id, last.s1Name);
      OrderedDict.PutKeepsUnique(OrderedDict.Put(RowNames(init), last.s1Id, last.s1Name), last.s2Id, last.s2Name);
    }
  }

  lemma {:induction false} PutPutKeys(d: OrderedDict.Dict<int, string>, a: int, va: string, b: int, vb: string)
    ensures forall k :: k in OrderedDict.Keys(OrderedDict.Put(OrderedDict.Put(d, a, va), b, vb))
                        <==> k in OrderedDict.Keys(d) || k == a || k == b
  {
  }

  lemma {:induction false} RowNamesKeys(rows: seq<Row>)
    ensures forall k :: k in OrderedDict.Keys(RowNames(rows)) <==> k in RowIds(rows)
    decreases |rows|
  {
    if |rows| > 0 {
      var init := rows[..|rows| - 1];
      var last := rows[|rows| - 1];
      RowNamesKeys(init);
      PutPutKeys(RowNames(init), last.s1Id, last.s1Name, last.s2Id, last.s2Name);
      assert RowIds(rows) == RowIds(init) + [last.s1Id, last.s2Id];
    }
  }

  /** Every id a row or the source list mentions gets exactly one node
      entry, row ids first in first-appearance order, and nothing else does. */
  lemma SourceNamesShape(rows: seq<Row>, sources: seq<(int, string)>)
    ensures OrderedDict.UniqueKeys(SourceNames(rows, sources))
    ensures forall k :: k in OrderedDict.Keys(SourceNames(rows, sources)) <==>
              k in RowIds(rows) || k in OrderedDict.Keys(sources)
    ensures OrderedDict.Keys(RowNames(rows)) <= OrderedDict.Keys(SourceNames(rows, sources))
  {
    RowNamesKeys(rows);
    RowNamesUnique(rows);
    AddSourcesKeys(RowNames(rows), sources);
    AddSourcesUnique(RowNames(rows), sources);
  }

  lemma RowIdsHaveNodes(rows: seq<Row>, sources: seq<(int, string)>)
    ensures EveryRowIdHasNode(rows, sources)
  {
    SourceNamesShape(rows, sources);
    RowIdsContain(rows);
  }

  lemma IndexOfDistinct(ks: seq<int>, m: nat)
    requires OrderedDict.Distinct(ks) && m < |ks|
    ensures IndexOf(ks, ks[m]) == m
  {
  }

  // The passes of get_data, each as a loop.

  /** `counter[id] += c` on a defaultdict(int). */
  function AddCount(m: map<int, int>, id: int, c: int): (r: map<int, int>)
    ensures forall x :: GetOr(r, x, 0) == GetOr(m, x, 0) + (if x == id then c else 0)
  {
    m[id := GetOr(m, id, 0) + c]
  }

  /** The counter after the given rows. */
  function Counter(rows: seq<Row>, d: Dir): map<int, int>
    decreases |rows|
  {
    if |rows| == 0 then map[]
    else
      var last := rows[|rows| - 1];
      AddCount(Counter(rows[..|rows| - 1], d), End(last, d), last.count)
  }

  /** The counter holds each id's degree (0 when absent). */
  lemma {:induction false} CounterHoldsDegrees(rows: seq<Row>, d: Dir)
    ensures forall id :: GetOr(Counter(rows, d), id, 0) == Degree(rows, id, d)
    decreases |rows|
  {
    if |rows| > 0 {
      CounterHoldsDegrees(rows[..|rows| - 1], d);
    }
  }

  lemma RowPrefixStep(rows: seq<Row>, i: nat)
    requires i < |rows|
    ensures RowNames(rows[..i + 1]) == NameRow(RowNames(rows[..i]), rows[i])
    ensures Counter(rows[..i + 1], Out) == AddCount(Counter(rows[..i], Out), rows[i].s1Id, rows[i].count)
    ensures Counter(rows[..i + 1], In) == AddCount(Counter(rows[..i], In), rows[i].s2Id, rows[i].count)
  {
    assert rows[..i + 1][..i] == rows[..i];
  }

  /** First pass over the query rows. The edge list it also collects holds
      each row's two ids and count in row order, that is, the rows
      themselves. */
  method AccumulateRows(rows: seq<Row>)
    returns (names: OrderedDict.Dict<int, string>, out: map<int, int>, inn: map<int, int>)
    ensures names == RowNames(rows)
    ensures forall id :: GetOr(out, id, 0) == Degree(rows, id, Out)
    ensures forall id :: GetOr(inn, id, 0) == Degree(rows, id, In)
  {
    names, out, inn := [], map[], map[];
    var i := 0;
    while i < |rows|
      invariant 0 <= i <= |rows|
      invariant names == RowNames(rows[..i])
      invariant out == Counter(rows[..i], Out)
      invariant inn == Counter(rows[..i], In)
    {
      var r := rows[i];
      RowPrefixStep(rows, i);
      names := NameRow(names, r);
      out := AddCount(out, r.s1Id, r.count);
      inn := AddCount(inn, r.s2Id, r.count);
      i := i + 1;
    }
    assert rows[..i] == rows;
    CounterHoldsDegrees(rows, Out);
    CounterHoldsDegrees(rows, In);
  }

  /** Second pass: every Source node, overwriting names already seen. */
  method AddAllSources(names0: OrderedDict.Dict<int, string>, sources: seq<(int, string)>)
    returns (names: OrderedDict.Dict<int, string>)
    ensures names == AddSources(names0, sources)
  {
    names := names0;
    var j := 0;
    while j < |sources|
      invariant 0 <= j <= |sources|
      invariant names == AddSources(names0, sources[..j])
    {
      assert sources[..j + 1][..j] == sources[..j];
      names := OrderedDict.Put(names, sources[j].0, sources[j].1);
      j := j + 1;
    }
    assert sources[..j] == sources;
  }

  /** `node_index_map` covers the first k keys, each mapped to its
      position. */
  ghost predicate IndexUpTo(index: map<int, nat>, ks: seq<int>, k: nat)
    requires k <= |ks|
  {
    && (forall id :: id in index <==> id in ks[..k])
    && (forall id :: id in index ==> id in ks && index[id] == IndexOf(ks, id))
  }

  lemma IndexStep(index: map<int, nat>, ks: seq<int>, k: nat)
    requires OrderedDict.Distinct(ks) && k < |ks|
    requires IndexUpTo(index, ks, k)
    ensures IndexUpTo(index[ks[k] := k], ks, k + 1)
  {
    IndexOfDistinct(ks, k);
    assert ks[..k + 1] == ks[..k] + [ks[k]];
  }

  /** The node built from the running counters is the entry's node. */
  lemma NodeFromCounters(entry: (int, string), rows: seq<Row>, scores: Scores, outDeg: int, inDeg: int)
    requires outDeg == Degree(rows, entry.0, Out) && inDeg == Degree(rows, entry.0, In)
    ensures NodeOf(entry, rows, scores)
         == SourceNode(entry.0, entry.1, inDeg, outDeg, outDeg - inDeg, GetOr(scores.pagerank, entry.0, 0.0),
                       GetOr(scores.hub, entry.0, 0.0), GetOr(scores.auth, entry.0, 0.0))
  {
  }

  /** `nodes_output` holds the nodes of the first entries. */
  ghost predicate NodesUpTo(nodes: seq<SourceNode>, names: OrderedDict.Dict<int, string>, rows: seq<Row>, scores: Scores) {
    |nodes| <= |names| && forall m :: 0 <= m < |nodes| ==> nodes[m] == NodeOf(names[m], rows, scores)
  }

  lemma NodesStep(nodes: seq<SourceNode>, names: OrderedDict.Dict<int, string>, rows: seq<Row>, scores: Scores, node: SourceNode)
    requires NodesUpTo(nodes, names, rows, scores) && |nodes| < |names|
    requires node == NodeOf(names[|nodes|], rows, scores)
    ensures NodesUpTo(nodes + [node], names, rows, scores)
  {
  }

  /** Node construction with `node_index_map`. */
  method BuildNodes(names: OrderedDict.Dict<int, string>, rows: seq<Row>, scores: Scores,
                    out: map<int, int>, inn: map<int, int>)
    returns (nodes: seq<SourceNode>, index: map<int, nat>)
    requires OrderedDict.UniqueKeys(names)
    requires forall id :: GetOr(out, id, 0) == Degree(rows, id, Out)
    requires forall id :: GetOr(inn, id, 0) == Degree(rows, id, In)
    ensures |nodes| == |names|
    ensures forall k :: 0 <= k < |names| ==> nodes[k] == NodeOf(names[k], rows, scores)
    ensures forall id :: id in index <==> id in OrderedDict.Keys(names)
    ensures forall id :: id in index ==> index[id] == IndexOf(OrderedDict.Keys(names), id)
  {
    var ks := OrderedDict.Keys(names);
    nodes, index := [], map[];
    var k := 0;
    while k < |names|
      invariant 0 <= k <= |names|
      invariant |nodes| == k
      invariant NodesUpTo(nodes, names, rows, scores)
      invariant IndexUpTo(index, ks, k)
    {
      var (id, name) := names[k];
      IndexStep(index, ks, k);
      index := index[id := |nodes|];
      var inDeg := GetOr(inn, id, 0);
      var outDeg := GetOr(out, id, 0);
      var node := SourceNode(id, name, inDeg, outDeg, outDeg - inDeg,
                             GetOr(scores.pagerank, id, 0.0), GetOr(scores.hub, id, 0.0), GetOr(scores.auth, id, 0.0));
      NodeFromCounters(names[k], rows, scores, outDeg, inDeg);
      NodesStep(nodes, names, rows, scores, node);
      nodes := nodes + [node];
      k := k + 1;
    }
    assert ks[..k] == ks;
  }

  /** Replace each row's ids by node positions. */
  method RemapEdges(pending: seq<Row>, index: map<int, nat>) returns (rels: seq<Reference>)
    requires forall e :: 0 <= e < |pending| ==> pending[e].s1Id in index && pending[e].s2Id in index
    ensures |rels| == |pending|
    ensures forall e :: 0 <= e < |pending| ==>
              rels[e] == Reference(pending[e].count, index[pending[e].s1Id], index[pending[e].s2Id])
  {
    rels := [];
    var e := 0;
    while e < |pending|
      invariant 0 <= e <= |pending|
      invariant |rels| == e
      invariant forall f :: 0 <= f < e ==>
                  rels[f] == Reference(pending[f].count, index[pending[f].s1Id], index[pending[f].s2Id])
    {
      var r := pending[e];
      rels := rels + [Reference(r.count, index[r.s1Id], index[r.s2Id])];
      e := e + 1;
    }
  }

  /** `get_data` from the query results onwards: the remapping never misses
      an id, and the result is the reference node list and relation list. */
  method GetData(rows: seq<Row>, sources: seq<(int, string)>, scores: Scores)
    returns (nodes: seq<SourceNode>, rels: seq<Reference>)
    ensures EveryRowIdHasNode(rows, sources)
    ensures nodes == ReferenceNodes(rows, sources, scores)
    ensures rels == ReferenceRelations(rows, sources)
  {
    var names, out, inn := AccumulateRows(rows);
    names := AddAllSources(names, sources);
    SourceNamesShape(rows, sources);
    RowIdsHaveNodes(rows, sources);
    var index;
    nodes, index := BuildNodes(names, rows, scores, out, inn);
    NodesAreReference(rows, sources, scores, nodes);
    rels := RemapEdges(rows, index);
    RelationsAreReference(rows, sources, index, rels);
  }

  lemma NodesAreReference(rows: seq<Row>, sources: seq<(int, string)>, scores: Scores, nodes: seq<SourceNode>)
    requires |nodes| == |SourceNames(rows, sources)|
    requires forall k :: 0 <= k < |nodes| ==> nodes[k] == NodeOf(SourceNames(rows, sources)[k], rows, scores)
    ensures nodes == ReferenceNodes(rows, sources, scores)
  {
  }

  lemma RelationsAreReference(rows: seq<Row>, sources: seq<(int, string)>, index: map<int, nat>, rels: seq<Reference>)
    requires EveryRowIdHasNode(rows, sources)
    requires forall id :: id in index ==>
               id in OrderedDict.Keys(SourceNames(rows, sources))
               && index[id] == IndexOf(OrderedDict.Keys(SourceNames(rows, sources)), id)
    requires forall e :: 0 <= e < |rows| ==> rows[e].s1Id in index && rows[e].s2Id in index
    requires |rels| == |rows|
    requires forall e :: 0 <= e < |rows| ==>
               rels[e] == Reference(rows[e].count, index[rows[e].s1Id], index[rows[e].s2Id])
    ensures rels == ReferenceRelations(rows, sources)
  {
  }

  // Properties of the result.

  /** Every relation points at the nodes of its row's two sources. */
  lemma RelationsPointAtTheirSources(rows: seq<Row>, sources: seq<(int, string)>, scores: Scores)
    requires EveryRowIdHasNode(rows, sources)
    ensures var nodes := ReferenceNodes(rows, sources, scores);
      var rels := ReferenceRelations(rows, sources);
      |rels| == |rows| && forall e :: 0 <= e < |rows| ==>
        && rels[e].fromIdx < |nodes| && rels[e].toIdx < |nodes|
        && nodes[rels[e].fromIdx].id == rows[e].s1Id
        && nodes[rels[e].toIdx].id == rows[e].s2Id
        && rels[e].count == rows[e].count
  {
  }

  /** Node ids are distinct. */
  lemma NodeIdsDistinct(rows: seq<Row>, sources: seq<(int, string)>, scores: Scores)
    ensures var nodes := ReferenceNodes(rows, sources, scores);
      forall i, j :: 0 <= i < j < |nodes| ==> nodes[i].id != nodes[j].id
  {
    var names := SourceNames(rows, sources);
    var nodes := ReferenceNodes(rows, sources, scores);
    SourceNamesShape(rows, sources);
    forall i, j | 0 <= i < j < |nodes| ensures nodes[i].id != nodes[j].id {
      assert OrderedDict.Keys(names)[i] != OrderedDict.Keys(names)[j];
    }
  }

  /** Every source, cited or not, has a node, and so does every id a row
      mentions; nothing else has one. */
  lemma NodesCoverSources(rows: seq<Row>, sources: seq<(int, string)>, scores: Scores)
    ensures var nodes := ReferenceNodes(rows, sources, scores);
      forall id :: (exists k :: 0 <= k < |nodes| && nodes[k].id == id)
                   <==> id in RowIds(rows) || id in OrderedDict.Keys(sources)
  {
    var names := SourceNames(rows, sources);
    var ks := OrderedDict.Keys(names);
    var nodes := ReferenceNodes(rows, sources, scores);
    SourceNamesShape(rows, sources);
    forall id | id in RowIds(rows) || id in OrderedDict.Keys(sources)
      ensures exists k :: 0 <= k < |nodes| && nodes[k].id == id
    {
      var k := IndexOf(ks, id);
      assert nodes[k].id == id;
    }
    forall id | (exists k :: 0 <= k < |nodes| && nodes[k].id == id)
      ensures id in RowIds(rows) || id in OrderedDict.Keys(sources)
    {
      var k :| 0 <= k < |nodes| && nodes[k].id == id;
      assert ks[k] == id;
    }
  }

  /** A source that no row mentions gets zero counts. */
  lemma UncitedSourceHasZeroCounts(rows: seq<Row>, sources: seq<(int, string)>, scores: Scores)
    ensures var nodes := ReferenceNodes(rows, sources, scores);
      forall k :: 0 <= k < |nodes| && nodes[k].id !in RowIds(rows) ==>
        nodes[k].referencedBy == 0 && nodes[k].referencesTo == 0 && nodes[k].diff == 0
  {
    var nodes := ReferenceNodes(rows, sources, scores);
    forall k | 0 <= k < |nodes| && nodes[k].id !in RowIds(rows)
      ensures nodes[k].referencedBy == 0 && nodes[k].referencesTo == 0
    {
      DegreeUnmentioned(rows, nodes[k].id, In);
      DegreeUnmentioned(rows, nodes[k].id, Out);
    }
  }

  lemma {:induction false} DegreeUnmentioned(rows: seq<Row>, id: int, d: Dir)
    requires id !in RowIds(rows)
    ensures Degree(rows, id, d) == 0
    decreases |rows|
  {
    if |rows| > 0 {
      DegreeUnmentioned(rows[..|rows| - 1], id, d);
    }
  }

  // Degree sums.

  function TotalCount(rows: seq<Row>): int
    decreases |rows|
  {
    if |rows| == 0 then 0 else TotalCount(rows[..|rows| - 1]) + rows[|rows| - 1].count
  }

  function SumDegrees(ids: seq<int>, rows: seq<Row>, d: Dir): int
    decreases |ids|
  {
    if |ids| == 0 then 0 else Degree(rows, ids[0], d) + SumDegrees(ids[1..], rows, d)
  }

  lemma {:induction false} SumDegreesSnoc(ids: seq<int>, rows: seq<Row>, d: Dir)
    requires |rows| > 0 && OrderedDict.Distinct(ids)
    ensures var last := rows[|rows| - 1];
      SumDegrees(ids, rows, d)
        == SumDegrees(ids, rows[..|rows| - 1], d) + (if End(last, d) in ids then last.count else 0)
    decreases |ids|
  {
    if |ids| > 0 {
      assert OrderedDict.Distinct(ids[1..]) by {
        forall i, j | 0 <= i < j < |ids[1..]| ensures ids[1..][i] != ids[1..][j] {
          assert ids[1..][i] == ids[i + 1] && ids[1..][j] == ids[j + 1];
        }
      }
      SumDegreesSnoc(ids[1..], rows, d);
      var x := End(rows[|rows| - 1], d);
      assert x in ids <==> x == ids[0] || x in ids[1..];
      if x == ids[0] {
        assert x !in ids[1..] by {
          forall j | 0 <= j < |ids[1..]| ensures ids[1..][j] != x {
            assert ids[1..][j] == ids[j + 1];
          }
        }
      }
    }
  }

  /** Summing one direction's degree over distinct ids that include every
      row's end gives the total row count. */
  lemma {:induction false} SumDegreesTotal(ids: seq<int>, rows: seq<Row>, d: Dir)
    requires OrderedDict.Distinct(ids)
    requires forall e :: 0 <= e < |rows| ==> End(rows[e], d) in ids
    ensures SumDegrees(ids, rows, d) == TotalCount(rows)
    decreases |rows|
  {
    if |rows| == 0 {
      SumDegreesEmpty(ids, d);
    } else {
      var init := rows[..|rows| - 1];
      assert forall e :: 0 <= e < |init| ==> init[e] == rows[e];
      SumDegreesTotal(ids, init, d);
      SumDegreesSnoc(ids, rows, d);
    }
  }

  lemma {:induction false} SumDegreesEmpty(ids: seq<int>, d: Dir)
    ensures SumDegrees(ids, [], d) == 0
    decreases |ids|
  {
    if |ids| > 0 {
      SumDegreesEmpty(ids[1..], d);
    }
  }

  function SumReferencedBy(nodes: seq<SourceNode>): int
    decreases |nodes|
  {
    if |nodes| == 0 then 0 else nodes[0].referencedBy + SumReferencedBy(nodes[1..])
  }

  function SumReferencesTo(nodes: seq<SourceNode>): int
    decreases |nodes|
  {
    if |nodes| == 0 then 0 else nodes[0].referencesTo + SumReferencesTo(nodes[1..])
  }

  lemma {:induction false} NodeSumsAreDegreeSums(names: OrderedDict.Dict<int, string>, rows: seq<Row>, scores: Scores)
    ensures var nodes := seq(|names|, k requires 0 <= k < |names| => NodeOf(names[k], rows, scores));
      && SumReferencedBy(nodes) == SumDegrees(OrderedDict.Keys(names), rows, In)
      && SumReferencesTo(nodes) == SumDegrees(OrderedDict.Keys(names), rows, Out)
    decreases |names|
  {
    var nodes := seq(|names|, k requires 0 <= k < |names| => NodeOf(names[k], rows, scores));
    if |names| > 0 {
      NodeSumsAreDegreeSums(names[1..], rows, scores);
      assert nodes[1..] == seq(|names[1..]|, k requires 0 <= k < |names[1..]| => NodeOf(names[1..][k], rows, scores));
      assert OrderedDict.Keys(names)[1..] == OrderedDict.Keys(names[1..]);
    }
  }

  /** Every reference is counted once as outgoing and once as incoming:
      summed `referenced_by_count`, summed `references_to_others_count` and
      the total row count agree. */
  lemma DegreeSumsAgree(rows: seq<Row>, sources: seq<(int, string)>, scores: Scores)
    ensures var nodes := ReferenceNodes(rows, sources, scores);
      SumReferencedBy(nodes) == TotalCount(rows) && SumReferencesTo(nodes) == TotalCount(rows)
  {
    var names := SourceNames(rows, sources);
    SourceNamesShape(rows, sources);
    RowIdsContain(rows);
    NodeSumsAreDegreeSums(names, rows, scores);
    SumDegreesTotal(OrderedDict.Keys(names), rows, In);
    SumDegreesTotal(OrderedDict.Keys(names), rows, Out);
  }

  // Handing the result to the React view.

  /** The keys of a node object in the order `jsonify` writes them:
      sorted. */
  const NodeKeys: seq<string> := ["hits_auth", "hits_hub", "id", "label", "name", "pagerank",
    "reference_diff", "referenced_by_count", "references_to_others_count"]

  /** A node object as the view receives it. */
  function NodeObj(n: SourceNode): Js.Obj {
    Js.Fields(NodeKeys,
      [Js.Num(n.auth), Js.Num(n.hub), Js.Num(n.id as real), Js.Str("Source"), Js.Str(n.name),
       Js.Num(n.pagerank), Js.Num(n.diff as real), Js.Num(n.referencedBy as real),
       Js.Num(n.referencesTo as real)])
  }

  lemma NodeObjId(n: SourceNode)
    ensures Js.Id(NodeObj(n)) == Js.Num(n.id as real)
  {
    var o := NodeObj(n);
    assert o[0].0 != "id" && o[1].0 != "id";
    assert o[2..][0] == ("id", Js.Num(n.id as real));
    assert OrderedDict.Get(o, "id") == OrderedDict.Get(o[1..], "id");
    assert o[1..][1..] == o[2..];
    assert OrderedDict.Get(o[1..], "id") == OrderedDict.Get(o[2..], "id");
  }

  const RelationKeys: seq<string> := ["count", "from_idx", "label", "to_idx"]

  /** A relation object as the view receives it: `count`, the two indices
      that replaced the popped ids, and `label`, in the sorted key order
      `jsonify` writes. */
  function RelationOf(r: Reference): GV.Relation {
    GV.Relation(r.fromIdx, r.toIdx,
      Js.Fields(RelationKeys,
        [Js.Num(r.count as real), Js.Num(r.fromIdx as real), Js.Str("ReferencesSource"), Js.Num(r.toIdx as real)]))
  }

  /** Both kinds of response object carry their keys in the sorted order
      `jsonify` writes, which is the order `Object.keys` lists them in the
      view. */
  lemma ResponseKeysSorted(n: SourceNode, r: Reference)
    ensures Js.SortedKeys(NodeObj(n))
    ensures Js.SortedKeys(RelationOf(r).fields)
  {
    NodeKeysSorted();
    RelationKeysSorted();
  }

  lemma NodeKeysSorted()
    ensures Js.SortedStrings(NodeKeys)
  {
    HitsKeysOrdered();
    ReferenceKeysOrdered();
    ReferencesKeysOrdered();
    SortedNine("hits_auth", "hits_hub", "id", "label", "name", "pagerank",
      "reference_diff", "referenced_by_count", "references_to_others_count");
  }

  lemma HitsKeysOrdered()
    ensures Js.StringBelow("hits_auth", "hits_hub")
  {
    var a := "hits_auth";
    var b := "hits_hub";
    assert a[..5] == "hits_" == b[..5];
    Js.BelowAt(a, b, 5);
  }

  lemma ReferenceKeysOrdered()
    ensures Js.StringBelow("reference_diff", "referenced_by_count")
  {
    var c := "reference_diff";
    var d := "referenced_by_count";
    assert c[..9] == "reference" == d[..9];
    Js.BelowAt(c, d, 9);
  }

  lemma ReferencesKeysOrdered()
    ensures Js.StringBelow("referenced_by_count", "references_to_others_count")
  {
    var d := "referenced_by_count";
    var e := "references_to_others_count";
    assert d[..9] == "reference" == e[..9];
    Js.BelowAt(d, e, 9);
  }

  lemma SortedNine(k0: string, k1: string, k2: string, k3: string, k4: string, k5: string, k6: string, k7: string, k8: string)
    requires Js.StringBelow(k0, k1) && Js.StringBelow(k1, k2) && Js.StringBelow(k2, k3) && Js.StringBelow(k3, k4)
    requires Js.StringBelow(k4, k5) && Js.StringBelow(k5, k6) && Js.StringBelow(k6, k7) && Js.StringBelow(k7, k8)
    ensures Js.SortedStrings([k0, k1, k2, k3, k4, k5, k6, k7, k8])
  {
    Js.SortedOfPairs([k0, k1, k2, k3, k4, k5, k6, k7, k8]);
  }

  lemma RelationKeysSorted()
    ensures Js.SortedStrings(RelationKeys)
  {
  }

  function NodeObjs(nodes: seq<SourceNode>): seq<Js.Obj> {
    seq(|nodes|, k requires 0 <= k < |nodes| => NodeObj(nodes[k]))
  }

  function RelationObjs(rels: seq<Reference>): seq<GV.Relation> {
    seq(|rels|, e requires 0 <= e < |rels| => RelationOf(rels[e]))
  }

  /** Relations whose indices are in range resolve, each link joining the
      node objects at those indices. */
  lemma ResolvedLinksJoin(nodes: seq<SourceNode>, rels: seq<Reference>)
    requires forall e :: 0 <= e < |rels| ==> rels[e].fromIdx < |nodes| && rels[e].toIdx < |nodes|
    ensures var res := GV.ResolveRelations(NodeObjs(nodes), RelationObjs(rels));
      && res.Ok?
      && |res.value| == |rels|
      && forall e :: 0 <= e < |rels| ==>
           Js.Id(res.value[e].source) == Js.Num(nodes[rels[e].fromIdx].id as real)
           && Js.Id(res.value[e].target) == Js.Num(nodes[rels[e].toIdx].id as real)
  {
    var objs := NodeObjs(nodes);
    var grels := RelationObjs(rels);
    assert forall e :: 0 <= e < |grels| ==> GV.InRange(objs, grels[e]);
    var res := GV.ResolveRelations(objs, grels);
    forall e | 0 <= e < |rels|
      ensures Js.Id(res.value[e].source) == Js.Num(nodes[rels[e].fromIdx].id as real)
      ensures Js.Id(res.value[e].target) == Js.Num(nodes[rels[e].toIdx].id as real)
    {
      NodeObjId(nodes[rels[e].fromIdx]);
      NodeObjId(nodes[rels[e].toIdx]);
    }
  }

  /** The React view resolves every relation of the response, and each link
      joins the node objects of the row's two sources. */
  lemma ViewResolvesResponse(rows: seq<Row>, sources: seq<(int, string)>, scores: Scores)
    requires EveryRowIdHasNode(rows, sources)
    ensures var nodes := ReferenceNodes(rows, sources, scores);
      var res := GV.ResolveRelations(NodeObjs(nodes), RelationObjs(ReferenceRelations(rows, sources)));
      && res.Ok?
      && |res.value| == |rows|
      && forall e :: 0 <= e < |rows| ==>
           Js.Id(res.value[e].source) == Js.Num(rows[e].s1Id as real)
           && Js.Id(res.value[e].target) == Js.Num(rows[e].s2Id as real)
  {
    RelationsPointAtTheirSources(rows, sources, scores);
    ResolvedLinksJoin(ReferenceNodes(rows, sources, scores), ReferenceRelations(rows, sources));
  }
}
