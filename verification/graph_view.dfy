/** The data side of the React graph view (app/frontend/src/components/Graph.js):
    turning index-based relations into links, the tooltip keys, which nodes
    count as isolated and the ring slots they are pinned to, and the drag
    behaviour, which frees a node on release. */
module GraphView {
  import opened Common
  import opened Js
  import OrderedDict
  import Drag

  /** A relation as the backend sends it: node indices plus its other
      fields (`from_idx` and `to_idx` among them). */
  datatype Relation = Relation(fromIdx: int, toIdx: int, fields: Obj)

  /** `{...rel, source: nodes[from_idx], target: nodes[to_idx]}`. */
  datatype ViewLink = ViewLink(source: Obj, target: Obj, fields: Obj)

  predicate InRange(nodes: seq<Obj>, r: Relation) {
    0 <= r.fromIdx < |nodes| && 0 <= r.toIdx < |nodes|
  }

  /** Resolve every relation against the node list. An index outside the
      list leaves the endpoint `undefined`, and `d3.forceLink` throws
      "node not found" for the first such link when the simulation is set
      up (Graph.js:75); `Err(i)` names that relation. */
  function ResolveRelations(nodes: seq<Obj>, rels: seq<Relation>): (r: Result<seq<ViewLink>, nat>)
    ensures r.Ok? <==> forall i :: 0 <= i < |rels| ==> InRange(nodes, rels[i])
    ensures r.Ok? ==> |r.value| == |rels| && forall i :: 0 <= i < |rels| ==>
              && r.value[i].source == nodes[rels[i].fromIdx]
              && r.value[i].target == nodes[rels[i].toIdx]
              && r.value[i].fields == rels[i].fields
    ensures r.Err? ==>
              && r.error < |rels| && !InRange(nodes, rels[r.error])
              && forall i :: 0 <= i < r.error ==> InRange(nodes, rels[i])
    decreases |rels|
  {
    if |rels| == 0 then Ok([])
    else if !InRange(nodes, rels[0]) then Err(0)
    else
      var rel := rels[0];
      var link := ViewLink(nodes[rel.fromIdx], nodes[rel.toIdx], rel.fields);
      match ResolveRelations(nodes, rels[1..])
      case Ok(rest) => Ok([link] + rest)
      case Err(i) => Err(i + 1)
  }

  /** Keys the simulation adds to a node; the tooltip hides them. */
  const Positional: seq<string> := ["x", "y", "vx", "vy", "fx", "fy", "index"]

  function WithoutPositional(ks: seq<string>): (r: seq<string>)
    ensures Subseq(r, ks)
    ensures forall k :: k in r <==> k in ks && k !in Positional
    decreases |ks|
  {
    if |ks| == 0 then []
    else
      var rest := WithoutPositional(ks[1..]);
      assert forall k :: k in ks <==> k == ks[0] || k in ks[1..];
      if ks[0] in Positional then rest else [ks[0]] + rest
  }

  /** `displayKeys`: the first node's own keys, in order, minus the
      positional ones; none for an empty graph. */
  function DisplayKeys(nodes: seq<Obj>): (r: seq<string>)
    ensures |nodes| == 0 ==> r == []
    ensures |nodes| > 0 ==> Subseq(r, OrderedDict.Keys(nodes[0]))
    ensures |nodes| > 0 ==> forall k :: k in r <==> k in OrderedDict.Keys(nodes[0]) && k !in Positional
  {
    if |nodes| > 0 then WithoutPositional(OrderedDict.Keys(nodes[0])) else []
  }

  /** The hovered node's tooltip: one (key, value) line per display key, in
      order, `undefined` for a key the node lacks. */
  function NodeTooltip(d: Obj, keys: seq<string>): (lines: seq<(string, Value)>)
    ensures |lines| == |keys|
    ensures forall i :: 0 <= i < |keys| ==> lines[i].0 == keys[i]
    ensures forall i :: 0 <= i < |keys| ==> (lines[i].1 == Undefined <== keys[i] !in OrderedDict.Keys(d))
    ensures forall i :: 0 <= i < |keys| && keys[i] in OrderedDict.Keys(d) ==> (keys[i], lines[i].1) in d
  {
    seq(|keys|, i requires 0 <= i < |keys| => (keys[i], Get(d, keys[i])))
  }

  /** Whichever node is hovered, a line shows the value that node holds
      for the line's key. */
  lemma TooltipShowsNodeValue(d: Obj, keys: seq<string>)
    requires OrderedDict.UniqueKeys(d)
    ensures var lines := NodeTooltip(d, keys);
      forall i, v :: 0 <= i < |keys| && (keys[i], v) in d ==> lines[i].1 == v
  {
    var lines := NodeTooltip(d, keys);
    forall i, v | 0 <= i < |keys| && (keys[i], v) in d ensures lines[i].1 == v {
      var j :| 0 <= j < |d| && d[j] == (keys[i], v);
      OrderedDict.GetAt(d, j);
    }
  }

  /** Hovering the first node shows each of its non-positional fields with
      its value, and no positional field. */
  lemma FirstNodeTooltip(nodes: seq<Obj>)
    requires |nodes| > 0 && OrderedDict.UniqueKeys(nodes[0])
    ensures var lines := NodeTooltip(nodes[0], DisplayKeys(nodes));
      && (forall i :: 0 <= i < |lines| ==> lines[i].0 !in Positional && (lines[i].0, lines[i].1) in nodes[0])
      && (forall e :: e in nodes[0] && e.0 !in Positional ==> exists i :: 0 <= i < |lines| && lines[i] == e)
  {
    FirstNodeTooltipSound(nodes);
    var lines := NodeTooltip(nodes[0], DisplayKeys(nodes));
    forall e | e in nodes[0] && e.0 !in Positional ensures exists i :: 0 <= i < |lines| && lines[i] == e {
      var i := FirstNodeTooltipShows(nodes, e);
    }
  }

  lemma FirstNodeTooltipSound(nodes: seq<Obj>)
    requires |nodes| > 0 && OrderedDict.UniqueKeys(nodes[0])
    ensures var lines := NodeTooltip(nodes[0], DisplayKeys(nodes));
      forall i :: 0 <= i < |lines| ==> lines[i].0 !in Positional && (lines[i].0, lines[i].1) in nodes[0]
  {
    var d := nodes[0];
    var keys := DisplayKeys(nodes);
    var lines := NodeTooltip(d, keys);
    forall i | 0 <= i < |lines| ensures (lines[i].0, lines[i].1) in d {
      assert keys[i] in OrderedDict.Keys(d);
    }
  }

  /** The line of the first node's tooltip that shows entry `e`. */
  lemma FirstNodeTooltipShows(nodes: seq<Obj>, e: (string, Value)) returns (i: nat)
    requires |nodes| > 0 && OrderedDict.UniqueKeys(nodes[0])
    requires e in nodes[0] && e.0 !in Positional
    ensures i < |NodeTooltip(nodes[0], DisplayKeys(nodes))| && NodeTooltip(nodes[0], DisplayKeys(nodes))[i] == e
  {
    var d := nodes[0];
    var keys := DisplayKeys(nodes);
    var j :| 0 <= j < |d| && d[j] == e;
    OrderedDict.GetAt(d, j);
    assert OrderedDict.Keys(d)[j] == e.0;
    i :| 0 <= i < |keys| && keys[i] == e.0;
  }

  // Isolated nodes, as written: the endpoint key is `d.source.id || d.source`.

  predicate KeyedAt(l: ViewLink, k: Key) {
    ObjectKey(l.source) == k || ObjectKey(l.target) == k
  }

  /** `linkedNodeIds` as built at Graph.js:125-129. */
  function LinkKeysAsWritten(links: seq<ViewLink>): (ks: set<Key>)
    ensures forall k :: k in ks <==> exists l :: l in links && KeyedAt(l, k)
  {
    (set l | l in links :: ObjectKey(l.source)) + (set l | l in links :: ObjectKey(l.target))
  }

  /** `linkedNodeIds.has(n.id)` */
  predicate LinkedAsWritten(n: Obj, links: seq<ViewLink>) {
    Prim(Id(n)) in LinkKeysAsWritten(links)
  }

  /** `nodes.filter(n => !linkedNodeIds.has(n.id))`. */
  function IsolatedAsWritten(nodes: seq<Obj>, links: seq<ViewLink>): (r: seq<Obj>)
    ensures Subseq(r, nodes)
    ensures forall n :: multiset(r)[n] == if LinkedAsWritten(n, links) then 0 else multiset(nodes)[n]
  {
    Filter(nodes, UnlinkedAsWritten(links))
  }

  function UnlinkedAsWritten(links: seq<ViewLink>): Obj -> bool {
    n => !LinkedAsWritten(n, links)
  }

  /** A node whose id is falsy (0, "" or missing) is listed as isolated
      however many links it has. */
  lemma FalsyIdAlwaysIsolated(nodes: seq<Obj>, links: seq<ViewLink>, n: Obj)
    requires n in nodes && !Truthy(Id(n))
    ensures n in IsolatedAsWritten(nodes, links)
  {
    assert !LinkedAsWritten(n, links) by {
      forall l | l in links ensures !KeyedAt(l, Prim(Id(n))) {
      }
    }
    assert multiset(IsolatedAsWritten(nodes, links))[n] == multiset(nodes)[n];
  }

  // Isolated nodes, corrected: keyed by the endpoint node's id.

  predicate LinksId(l: ViewLink, v: Value) {
    Id(l.source) == v || Id(l.target) == v
  }

  function LinkedIds(links: seq<ViewLink>): (ids: set<Value>)
    ensures forall v :: v in ids <==> exists l :: l in links && LinksId(l, v)
  {
    (set l | l in links :: Id(l.source)) + (set l | l in links :: Id(l.target))
  }

  predicate Linked(n: Obj, links: seq<ViewLink>) {
    Id(n) in LinkedIds(links)
  }

  /** The nodes no link ends at, in list order. */
  function Isolated(nodes: seq<Obj>, links: seq<ViewLink>): (r: seq<Obj>)
    ensures Subseq(r, nodes)
    ensures forall n :: multiset(r)[n] == if Linked(n, links) then 0 else multiset(nodes)[n]
  {
    Filter(nodes, Unlinked(links))
  }

  function Unlinked(links: seq<ViewLink>): Obj -> bool {
    n => !Linked(n, links)
  }

  /** A node is isolated exactly when no link has it at either end. */
  lemma IsolatedIff(nodes: seq<Obj>, links: seq<ViewLink>, n: Obj)
    requires n in nodes
    ensures n in Isolated(nodes, links) <==> forall l :: l in links ==> !LinksId(l, Id(n))
  {
    assert multiset(Isolated(nodes, links))[n] > 0 <==> n in Isolated(nodes, links);
  }

  /** With truthy node ids the key quirk is harmless: both definitions list
      the same nodes. */
  lemma IsolatedAgreeOnTruthyIds(nodes: seq<Obj>, links: seq<ViewLink>)
    requires forall n :: n in nodes ==> Truthy(Id(n))
    ensures IsolatedAsWritten(nodes, links) == Isolated(nodes, links)
  {
    forall n | n in nodes ensures UnlinkedAsWritten(links)(n) == Unlinked(links)(n) {
      TruthyKeyAgrees(n, links);
    }
    FilterAgree(nodes, UnlinkedAsWritten(links), Unlinked(links));
  }

  /** A node with a truthy id is keyed the same way by both definitions. */
  lemma TruthyKeyAgrees(n: Obj, links: seq<ViewLink>)
    requires Truthy(Id(n))
    ensures LinkedAsWritten(n, links) <==> Linked(n, links)
  {
    if Id(n) in LinkedIds(links) {
      var l :| l in links && LinksId(l, Id(n));
      assert KeyedAt(l, Prim(Id(n)));
    }
    if Prim(Id(n)) in LinkKeysAsWritten(links) {
      var l :| l in links && KeyedAt(l, Prim(Id(n)));
      assert LinksId(l, Id(n));
    }
  }

  /** The backend numbers sources from 0: a graph of two sources, the first
      citing the second, lists the first as isolated although it is linked. */
  lemma IdZeroMisclassified()
    ensures var nodes := [[("id", Num(0.0))], [("id", Num(1.0))]];
      var links := ResolveRelations(nodes, [Relation(0, 1, [])]);
      && links.Ok?
      && IsolatedAsWritten(nodes, links.value) == [nodes[0]]
      && Isolated(nodes, links.value) == []
  {
    var n0: Obj := [("id", Num(0.0))];
    var n1: Obj := [("id", Num(1.0))];
    var nodes := [n0, n1];
    var links := ResolveRelations(nodes, [Relation(0, 1, [])]);
    assert links.value == [ViewLink(n0, n1, [])];
    IdZeroAsWritten(nodes, links.value);
    IdZeroCorrected(nodes, links.value);
  }

  lemma IdZeroAsWritten(nodes: seq<Obj>, links: seq<ViewLink>)
    requires nodes == [[("id", Num(0.0))], [("id", Num(1.0))]]
    requires links == [ViewLink(nodes[0], nodes[1], [])]
    ensures IsolatedAsWritten(nodes, links) == [nodes[0]]
  {
    var keep := UnlinkedAsWritten(links);
    assert Id(nodes[0]) == Num(0.0) && Id(nodes[1]) == Num(1.0);
    assert KeyedAt(links[0], Prim(Num(1.0)));
    assert keep(nodes[1]) == false;
    assert !Truthy(Id(nodes[0]));
    FalsyIdAlwaysIsolated(nodes, links, nodes[0]);
    assert forall l :: l in links ==> !KeyedAt(l, Prim(Num(0.0)));
    assert keep(nodes[0]);
    FilterCons(nodes, keep);
    FilterCons(nodes[1..], keep);
  }

  lemma IdZeroCorrected(nodes: seq<Obj>, links: seq<ViewLink>)
    requires nodes == [[("id", Num(0.0))], [("id", Num(1.0))]]
    requires links == [ViewLink(nodes[0], nodes[1], [])]
    ensures Isolated(nodes, links) == []
  {
    var keep := Unlinked(links);
    assert LinksId(links[0], Id(nodes[0])) && LinksId(links[0], Id(nodes[1]));
    assert !keep(nodes[0]) && !keep(nodes[1]);
    FilterCons(nodes, keep);
    FilterCons(nodes[1..], keep);
  }

  /** A ring slot: position `index` of `count` evenly spaced angles. */
  datatype Slot = Slot(index: nat, count: nat)

  function CountTrue(flags: seq<bool>): nat
    decreases |flags|
  {
    if |flags| == 0 then 0 else (if flags[0] then 1 else 0) + CountTrue(flags[1..])
  }

  /** `isolated.forEach((node, i) => ...)` over the node list: entry k gets
      slot i of n when it is the i-th flagged entry. */
  method RingSlots(flags: seq<bool>) returns (pins: seq<Option<Slot>>)
    ensures |pins| == |flags|
    ensures forall k :: 0 <= k < |flags| ==> (pins[k].Some? <==> flags[k])
    ensures forall k :: 0 <= k < |flags| && pins[k].Some? ==>
              pins[k].value.count == CountTrue(flags) && pins[k].value.index < pins[k].value.count
    ensures forall k, k' :: 0 <= k < k' < |flags| && pins[k].Some? && pins[k'].Some? ==>
              pins[k].value.index < pins[k'].value.index
  {
    var n := CountTrue(flags);
    pins := [];
    var next := 0;
    var k := 0;
    assert flags[0..] == flags;
    while k < |flags|
      invariant 0 <= k <= |flags|
      invariant |pins| == k
      invariant next + CountTrue(flags[k..]) == n
      invariant forall j :: 0 <= j < k ==> (pins[j].Some? <==> flags[j])
      invariant forall j :: 0 <= j < k && pins[j].Some? ==> pins[j].value.count == n && pins[j].value.index < next
      invariant forall j, j' :: 0 <= j < j' < k && pins[j].Some? && pins[j'].Some? ==>
                  pins[j].value.index < pins[j'].value.index
    {
      assert flags[k..][0] == flags[k] && flags[k..][1..] == flags[k + 1..];
      if flags[k] {
        pins := pins + [Some(Slot(next, n))];
        next := next + 1;
      } else {
        pins := pins + [None];
      }
      k := k + 1;
    }
  }

  /** The test applied to each node, aligned with `nodes`. */
  function FlagsOf(nodes: seq<Obj>, keep: Obj -> bool): (flags: seq<bool>)
    ensures |flags| == |nodes|
    ensures forall k :: 0 <= k < |nodes| ==> flags[k] == keep(nodes[k])
  {
    seq(|nodes|, k requires 0 <= k < |nodes| => keep(nodes[k]))
  }

  /** As many flags are set as the filter keeps nodes. */
  lemma {:induction false} FlagsCount(nodes: seq<Obj>, keep: Obj -> bool)
    ensures CountTrue(FlagsOf(nodes, keep)) == |Filter(nodes, keep)|
    decreases |nodes|
  {
    if |nodes| > 0 {
      FlagsCount(nodes[1..], keep);
      FilterCons(nodes, keep);
      FlagsTail(nodes, keep);
    }
  }

  lemma FlagsTail(nodes: seq<Obj>, keep: Obj -> bool)
    requires |nodes| > 0
    ensures FlagsOf(nodes, keep)[1..] == FlagsOf(nodes[1..], keep)
  {
    var flags := FlagsOf(nodes, keep);
    var tail := FlagsOf(nodes[1..], keep);
    forall k | 0 <= k < |tail| ensures flags[1..][k] == tail[k] {
      assert nodes[1..][k] == nodes[k + 1];
    }
  }

  /** Which nodes `isolated` (Graph.js:131) holds, as written, aligned with
      `nodes`. */
  function IsolatedFlags(nodes: seq<Obj>, links: seq<ViewLink>): (flags: seq<bool>)
    ensures |flags| == |nodes|
    ensures forall k :: 0 <= k < |nodes| ==> (flags[k] <==> !LinkedAsWritten(nodes[k], links))
  {
    FlagsOf(nodes, UnlinkedAsWritten(links))
  }

  /** The ring is divided by `isolated.length`, the as-written list. */
  lemma IsolatedFlagsCount(nodes: seq<Obj>, links: seq<ViewLink>)
    ensures CountTrue(IsolatedFlags(nodes, links)) == |IsolatedAsWritten(nodes, links)|
  {
    FlagsCount(nodes, UnlinkedAsWritten(links));
  }

  /** The pins set up before the simulation starts, as written, aligned with
      `nodes`: exactly the nodes of the as-written isolated list get one,
      the i-th of them (in list order) slot i of n, so no two share a
      slot. */
  method AssignPins(nodes: seq<Obj>, links: seq<ViewLink>) returns (pins: seq<Option<Slot>>)
    ensures |pins| == |nodes|
    ensures forall k :: 0 <= k < |nodes| ==> (pins[k].Some? <==> !LinkedAsWritten(nodes[k], links))
    ensures forall k :: 0 <= k < |nodes| && pins[k].Some? ==>
              pins[k].value.count == |IsolatedAsWritten(nodes, links)| && pins[k].value.index < pins[k].value.count
    ensures forall k, k' :: 0 <= k < k' < |nodes| && pins[k].Some? && pins[k'].Some? ==>
              pins[k].value.index < pins[k'].value.index
  {
    IsolatedFlagsCount(nodes, links);
    pins := RingSlots(IsolatedFlags(nodes, links));
  }

  /** Which nodes the corrected isolation lists, aligned with `nodes`. */
  function CorrectedFlags(nodes: seq<Obj>, links: seq<ViewLink>): (flags: seq<bool>)
    ensures |flags| == |nodes|
    ensures forall k :: 0 <= k < |nodes| ==> (flags[k] <==> !Linked(nodes[k], links))
  {
    FlagsOf(nodes, Unlinked(links))
  }

  lemma CorrectedFlagsCount(nodes: seq<Obj>, links: seq<ViewLink>)
    ensures CountTrue(CorrectedFlags(nodes, links)) == |Isolated(nodes, links)|
  {
    FlagsCount(nodes, Unlinked(links));
  }

  /** The pins with the corrected isolation: exactly the nodes no link ends
      at get one, the i-th of them slot i of n. */
  method AssignPinsCorrected(nodes: seq<Obj>, links: seq<ViewLink>) returns (pins: seq<Option<Slot>>)
    ensures |pins| == |nodes|
    ensures forall k :: 0 <= k < |nodes| ==> (pins[k].Some? <==> !Linked(nodes[k], links))
    ensures forall k :: 0 <= k < |nodes| && pins[k].Some? ==>
              pins[k].value.count == |Isolated(nodes, links)| && pins[k].value.index < pins[k].value.count
    ensures forall k, k' :: 0 <= k < k' < |nodes| && pins[k].Some? && pins[k'].Some? ==>
              pins[k].value.index < pins[k'].value.index
  {
    CorrectedFlagsCount(nodes, links);
    pins := RingSlots(CorrectedFlags(nodes, links));
  }

  /** With truthy node ids both pin set-ups flag the same nodes, so they pin
      the same nodes to the same slots. */
  lemma PinFlagsAgreeOnTruthyIds(nodes: seq<Obj>, links: seq<ViewLink>)
    requires forall n :: n in nodes ==> Truthy(Id(n))
    ensures IsolatedFlags(nodes, links) == CorrectedFlags(nodes, links)
  {
    forall k | 0 <= k < |nodes| ensures IsolatedFlags(nodes, links)[k] == CorrectedFlags(nodes, links)[k] {
      TruthyKeyAgrees(nodes[k], links);
    }
  }

  /** Sources 0 and 1, the first citing the second: as written, source 0 is
      pinned to the ring (slot 0 of 1) although it is linked; corrected,
      nothing is pinned. */
  lemma IdZeroPinned()
    ensures var nodes := [[("id", Num(0.0))], [("id", Num(1.0))]];
      var links := ResolveRelations(nodes, [Relation(0, 1, [])]);
      && links.Ok?
      && IsolatedFlags(nodes, links.value) == [true, false]
      && CountTrue(IsolatedFlags(nodes, links.value)) == 1
      && CorrectedFlags(nodes, links.value) == [false, false]
  {
    var n0: Obj := [("id", Num(0.0))];
    var n1: Obj := [("id", Num(1.0))];
    var nodes := [n0, n1];
    var links := ResolveRelations(nodes, [Relation(0, 1, [])]);
    assert links.value == [ViewLink(n0, n1, [])];
    IdZeroFlagsAsWritten(nodes, links.value);
    assert LinksId(links.value[0], Id(n0)) && LinksId(links.value[0], Id(n1));
  }

  lemma IdZeroFlagsAsWritten(nodes: seq<Obj>, links: seq<ViewLink>)
    requires nodes == [[("id", Num(0.0))], [("id", Num(1.0))]]
    requires links == [ViewLink(nodes[0], nodes[1], [])]
    ensures IsolatedFlags(nodes, links) == [true, false]
    ensures CountTrue(IsolatedFlags(nodes, links)) == 1
  {
    assert !LinkedAsWritten(nodes[0], links) by {
      assert !Truthy(Id(nodes[0]));
      assert forall x :: x in links ==> !KeyedAt(x, Prim(Id(nodes[0])));
    }
    assert LinkedAsWritten(nodes[1], links) by {
      assert KeyedAt(links[0], Prim(Num(1.0)));
    }
    var f := IsolatedFlags(nodes, links);
    assert f == [true, false];
    assert CountTrue(f[1..]) == 0 by {
      assert f[1..][1..] == [];
    }
  }

  /** Releasing a dragged node frees it, even an isolated node pinned to its
      ring slot at setup. */
  lemma DragFreesPinnedNode(s: Drag.State, evs: seq<Drag.Event>)
    requires Drag.Gesture(evs) && s.node.fx.Some? && s.node.fy.Some?
    ensures Drag.Run(Drag.Unpin, s, evs).node.fx.None?
    ensures Drag.Run(Drag.Unpin, s, evs).node.fy.None?
  {
    Drag.GestureOutcome(Drag.Unpin, s, evs);
  }
}
