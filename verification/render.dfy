/** The data side of `render` in task3/frontend/js/visualization.js: which
    nodes are drawn, node degrees, the fresh simulation copies, node style,
    the link and node tooltips, and the clamping of drawn coordinates. The
    d3 simulation itself, the DOM and the drawing are not modelled. */
module Render {
  import opened Common
  import opened Js
  import OrderedDict
  import CF = ClientFilter

  /** A link as the renderer receives it; `subjects` is optional. */
  datatype RLink = RLink(source: Endpoint, target: Endpoint, weight: int, subjects: Option<seq<string>>)

  datatype RGraph = RGraph(nodes: seq<Obj>, links: seq<RLink>)

  predicate HasEndpointId(l: RLink, v: Value) {
    EndpointId(l.source) == v || EndpointId(l.target) == v
  }

  /** `linkedNodeIds`: the endpoint ids of all links. */
  function LinkedIds(links: seq<RLink>): (ids: set<Value>)
    ensures forall v :: v in ids <==> exists l :: l in links && HasEndpointId(l, v)
  {
    (set l | l in links :: EndpointId(l.source)) + (set l | l in links :: EndpointId(l.target))
  }

  /** Appending a link adds exactly its two endpoint ids. */
  lemma LinkedIdsSnoc(init: seq<RLink>, l: RLink)
    ensures LinkedIds(init + [l]) == LinkedIds(init) + {EndpointId(l.source), EndpointId(l.target)}
  {
    var links := init + [l];
    assert forall x :: x in links <==> x in init || x == l;
    assert (set x | x in links :: EndpointId(x.source))
        == (set x | x in init :: EndpointId(x.source)) + {EndpointId(l.source)};
    assert (set x | x in links :: EndpointId(x.target))
        == (set x | x in init :: EndpointId(x.target)) + {EndpointId(l.target)};
  }

  /** `filteredNodes`: only nodes some link ends at are drawn. */
  function DrawnNodes(nodes: seq<Obj>, links: seq<RLink>): (r: seq<Obj>)
    ensures Subseq(r, nodes)
    ensures forall n :: multiset(r)[n] == if Id(n) in LinkedIds(links) then multiset(nodes)[n] else 0
  {
    Filter(nodes, IsLinked(links))
  }

  function IsLinked(links: seq<RLink>): Obj -> bool {
    n => Id(n) in LinkedIds(links)
  }

  /** When every node is some link's endpoint, all of them are drawn, in
      the given order. */
  lemma AllLinkedAllDrawn(nodes: seq<Obj>, links: seq<RLink>)
    requires forall n :: n in nodes ==> Id(n) in LinkedIds(links)
    ensures DrawnNodes(nodes, links) == nodes
  {
    FilterAll(nodes, IsLinked(links));
  }

  /** Every endpoint occurrence, counted with multiplicity, in link order:
      the multiplicity of an id is its degree. */
  function EndpointBag(links: seq<RLink>): multiset<Value>
    decreases |links|
  {
    if |links| == 0 then multiset{}
    else
      var l := links[|links| - 1];
      EndpointBag(links[..|links| - 1]) + multiset{EndpointId(l.source), EndpointId(l.target)}
  }

  /** Degrees sum to twice the number of links; a self-loop adds 2. */
  lemma HandshakeBag(links: seq<RLink>)
    ensures |EndpointBag(links)| == 2 * |links|
    ensures forall v :: EndpointBag(links)[v] > 0 <==> v in LinkedIds(links)
  {
    HandshakeSize(links);
    HandshakeSupport(links);
  }

  lemma {:induction false} HandshakeSize(links: seq<RLink>)
    ensures |EndpointBag(links)| == 2 * |links|
    decreases |links|
  {
    if |links| > 0 {
      HandshakeSize(links[..|links| - 1]);
    }
  }

  lemma {:induction false} HandshakeSupport(links: seq<RLink>)
    ensures forall v :: EndpointBag(links)[v] > 0 <==> v in LinkedIds(links)
    decreases |links|
  {
    if |links| > 0 {
      var init := links[..|links| - 1];
      var l := links[|links| - 1];
      HandshakeSupport(init);
      assert links == init + [l];
      LinkedIdsSnoc(init, l);
    }
  }

  /** `deg` records exactly the multiplicities of `bag`. */
  ghost predicate Counts(deg: map<Value, nat>, bag: multiset<Value>) {
    forall v :: (v in deg <==> bag[v] > 0) && (v in deg ==> deg[v] == bag[v])
  }

  /** `degree.set(v, (degree.get(v) || 0) + 1)`. */
  function Bump(deg: map<Value, nat>, v: Value): map<Value, nat> {
    deg[v := (if v in deg then deg[v] else 0) + 1]
  }

  lemma BumpCounts(deg: map<Value, nat>, bag: multiset<Value>, v: Value)
    requires Counts(deg, bag)
    ensures Counts(Bump(deg, v), bag + multiset{v})
  {
  }

  lemma EndpointBagSnoc(links: seq<RLink>, i: nat)
    requires i < |links|
    ensures EndpointBag(links[..i + 1])
         == EndpointBag(links[..i]) + multiset{EndpointId(links[i].source)} + multiset{EndpointId(links[i].target)}
  {
    assert links[..i + 1][..i] == links[..i];
  }

  /** `nodeDegree`: for every id, how many link ends it occupies. */
  method DegreeMap(links: seq<RLink>) returns (deg: map<Value, nat>)
    ensures forall v :: v in deg <==> v in LinkedIds(links)
    ensures forall v :: v in deg ==> deg[v] == EndpointBag(links)[v]
  {
    deg := map[];
    var i := 0;
    while i < |links|
      invariant 0 <= i <= |links|
      invariant Counts(deg, EndpointBag(links[..i]))
    {
      var src := EndpointId(links[i].source);
      var tgt := EndpointId(links[i].target);
      BumpCounts(deg, EndpointBag(links[..i]), src);
      deg := Bump(deg, src);
      BumpCounts(deg, EndpointBag(links[..i]) + multiset{src}, tgt);
      deg := Bump(deg, tgt);
      EndpointBagSnoc(links, i);
      i := i + 1;
    }
    assert links[..i] == links;
    HandshakeBag(links);
  }

  /** The simulation copy of a node: a shallow copy whose `x`, `y`, `vx`,
      `vy` are `null` (assigned right to left, as the chained assignment
      does). */
  function PrepareNode(o: Obj): (r: Obj)
    ensures Get(r, "x") == Null && Get(r, "y") == Null
    ensures Get(r, "vx") == Null && Get(r, "vy") == Null
  {
    Set(Set(Set(Set(o, "vy", Null), "vx", Null), "y", Null), "x", Null)
  }

  /** Every other property of the prepared copy is the original's. */
  lemma PrepareNodeKeeps(o: Obj, k: string)
    requires k != "x" && k != "y" && k != "vx" && k != "vy"
    ensures Get(PrepareNode(o), k) == Get(o, k)
  {
  }

  lemma PrepareNodeKeepsOthers(o: Obj)
    ensures forall k :: !Reset(k) ==> Get(PrepareNode(o), k) == Get(o, k)
  {
    forall k | !Reset(k) ensures Get(PrepareNode(o), k) == Get(o, k) {
      PrepareNodeKeeps(o, k);
    }
  }

  /** Preparing a node removes no property. */
  lemma PrepareNodeKeys(o: Obj)
    ensures forall k :: k in OrderedDict.Keys(o) ==> k in OrderedDict.Keys(PrepareNode(o))
  {
    var a := Set(o, "vy", Null);
    var b := Set(a, "vx", Null);
    var c := Set(b, "y", Null);
    SetKeepsKeys(o, "vy", Null);
    SetKeepsKeys(a, "vx", Null);
    SetKeepsKeys(b, "y", Null);
    SetKeepsKeys(c, "x", Null);
  }

  /** The four properties the copy resets. */
  predicate Reset(k: string) {
    k == "x" || k == "y" || k == "vx" || k == "vy"
  }

  /** `c` is a simulation copy of `d`: no position and no velocity, every
      other property (id and label among them) as in `d`, and no property
      of `d` missing. */
  ghost predicate CopyOf(c: Obj, d: Obj) {
    && Get(c, "x") == Null && Get(c, "y") == Null && Get(c, "vx") == Null && Get(c, "vy") == Null
    && Id(c) == Id(d) && Get(c, "label") == Get(d, "label")
    && (forall k :: !Reset(k) ==> Get(c, k) == Get(d, k))
    && (forall k :: k in OrderedDict.Keys(d) ==> k in OrderedDict.Keys(c))
  }

  /** `{...d, x: null, y: null, vx: null, vy: null}` is a copy of `d`. */
  function Copy(o: Obj): (c: Obj)
    ensures CopyOf(c, o)
  {
    PrepareNodeIsCopy(o);
    PrepareNode(o)
  }

  lemma PrepareNodeIsCopy(o: Obj)
    ensures CopyOf(PrepareNode(o), o)
  {
    var c := PrepareNode(o);
    PrepareNodeKeeps(o, "id");
    PrepareNodeKeeps(o, "label");
    assert Id(c) == Id(o) && Get(c, "label") == Get(o, "label");
    PrepareNodeKeepsOthers(o);
    PrepareNodeKeys(o);
  }

  /** The simulation copies of the drawn nodes, in order. */
  function CopyAll(drawn: seq<Obj>): (nodes: seq<Obj>)
    ensures |nodes| == |drawn|
    ensures forall j :: 0 <= j < |nodes| ==> CopyOf(nodes[j], drawn[j])
  {
    seq(|drawn|, j requires 0 <= j < |drawn| => Copy(drawn[j]))
  }

  /** What `render` hands to d3: copies of the drawn nodes, copies of all
      links (none is dropped), and the degree map. */
  method RenderGraph(g: RGraph) returns (nodes: seq<Obj>, links: seq<RLink>, deg: map<Value, nat>)
    ensures |nodes| == |DrawnNodes(g.nodes, g.links)|
    ensures forall i :: 0 <= i < |nodes| ==> CopyOf(nodes[i], DrawnNodes(g.nodes, g.links)[i])
    ensures forall i :: 0 <= i < |nodes| ==> nodes[i] == PrepareNode(DrawnNodes(g.nodes, g.links)[i])
    ensures links == g.links
    ensures forall v :: v in deg <==> v in LinkedIds(g.links)
    ensures forall v :: v in deg ==> deg[v] == EndpointBag(g.links)[v]
  {
    var drawn := DrawnNodes(g.nodes, g.links);
    links := g.links;
    deg := DegreeMap(links);
    nodes := CopyAll(drawn);
  }

  const OrgFill: string := "#1f77b4"
  const OtherFill: string := "#2ca02c"

  predicate IsOrg(o: Obj) {
    Get(o, "label") == Str("ORG")
  }

  datatype Style = Style(fill: string, text: Value)

  /** Circle fill and label text. */
  function NodeStyle(o: Obj): (r: Style)
    ensures r.fill == OrgFill <==> IsOrg(o)
    ensures r.fill == OrgFill || r.fill == OtherFill
    ensures r.text != Str("") ==> r.fill == OrgFill && r.text == Id(o)
    ensures IsOrg(o) ==> r.text == Id(o)
  {
    if IsOrg(o) then Style(OrgFill, Id(o)) else Style(OtherFill, Str(""))
  }

  /** The link tooltip: endpoints, weight, and a bulleted subject section. */
  datatype LinkTip = LinkTip(source: Value, target: Value, weight: int, subjects: Option<seq<string>>)

  const MaxSubjects: nat := 5

  function Bullets(ss: seq<string>): (r: seq<string>)
    ensures |r| == |ss|
    ensures forall i :: 0 <= i < |ss| ==> r[i] == "• " + ss[i]
  {
    seq(|ss|, i requires 0 <= i < |ss| => "• " + ss[i])
  }

  function LinkTooltip(l: RLink): (r: LinkTip)
    ensures r.source == EndpointId(l.source) && r.target == EndpointId(l.target) && r.weight == l.weight
    ensures r.subjects.Some? <==> l.subjects.Some? && |l.subjects.value| > 0
    ensures r.subjects.Some? ==>
              && |r.subjects.value| == (if |l.subjects.value| < MaxSubjects then |l.subjects.value| else MaxSubjects)
              && forall i :: 0 <= i < |r.subjects.value| ==> r.subjects.value[i] == "• " + l.subjects.value[i]
  {
    var section :=
      match l.subjects
      case Some(ss) =>
        if |ss| > 0 then
          var shown := if |ss| < MaxSubjects then ss else ss[..MaxSubjects];
          Some(Bullets(shown))
        else None
      case None => None;
    LinkTip(EndpointId(l.source), EndpointId(l.target), l.weight, section)
  }

  /** `connectedLinks`: links with the hovered node at either end. */
  function IncidentLinks(links: seq<RLink>, me: Value): (r: seq<RLink>)
    ensures Subseq(r, links)
    ensures forall l :: l in r ==> HasEndpointId(l, me)
    ensures forall l :: multiset(r)[l] == if HasEndpointId(l, me) then multiset(links)[l] else 0
  {
    var r := Filter(links, Touching(me));
    assert forall l :: l in r ==> multiset(r)[l] > 0;
    r
  }

  function Touching(me: Value): RLink -> bool {
    l => HasEndpointId(l, me)
  }

  /** The end of a link that is not `me` (the source if neither is). */
  function Other(l: RLink, me: Value): Value {
    if EndpointId(l.source) == me then EndpointId(l.target) else EndpointId(l.source)
  }

  /** `nodes.find(n => n.id === v)`. */
  function FindNode(nodes: seq<Obj>, v: Value): (r: Option<Obj>)
    ensures r.Some? ==> r.value in nodes && Id(r.value) == v
    ensures r.None? ==> forall n :: n in nodes ==> Id(n) != v
    decreases |nodes|
  {
    if |nodes| == 0 then None
    else if Id(nodes[0]) == v then Some(nodes[0])
    else FindNode(nodes[1..], v)
  }

  /** `org?.label === "ORG"` for the first node with id v. */
  predicate IsOrgId(nodes: seq<Obj>, v: Value) {
    match FindNode(nodes, v)
    case Some(o) => IsOrg(o)
    case None => false
  }

  /** Weight of the first incident link whose other end is `o`. */
  function FirstWeightTo(incident: seq<RLink>, me: Value, o: Value): int
    decreases |incident|
  {
    if |incident| == 0 then 0
    else if Other(incident[0], me) == o then incident[0].weight
    else FirstWeightTo(incident[1..], me, o)
  }

  /** The organisation a person's incident link contributes, given the
      organisations already listed: the target when the person is the
      source, otherwise the source when the person is the target. */
  function Candidate(l: RLink, me: Value, nodes: seq<Obj>, seen: set<Value>): (r: Option<Value>)
    ensures r.Some? ==> IsOrgId(nodes, r.value) && r.value !in seen
  {
    var s := EndpointId(l.source);
    var t := EndpointId(l.target);
    if s == me && IsOrgId(nodes, t) && t !in seen then Some(t)
    else if t == me && IsOrgId(nodes, s) && s !in seen then Some(s)
    else None
  }

  /** On a link that touches `me`, the candidate is the other end exactly
      when that end is a not yet listed organisation. */
  lemma CandidateIsOther(l: RLink, me: Value, nodes: seq<Obj>, seen: set<Value>)
    requires HasEndpointId(l, me)
    ensures Candidate(l, me, nodes, seen)
         == if IsOrgId(nodes, Other(l, me)) && Other(l, me) !in seen then Some(Other(l, me)) else None
  {
  }

  /** The organisation-weight lines of a person's tooltip, with the `seen`
      set of organisations already listed. */
  function OrgLines(incident: seq<RLink>, me: Value, nodes: seq<Obj>, seen: set<Value>): seq<(Value, int)>
    decreases |incident|
  {
    if |incident| == 0 then []
    else
      match Candidate(incident[0], me, nodes, seen)
      case Some(o) => [(o, incident[0].weight)] + OrgLines(incident[1..], me, nodes, seen + {o})
      case None => OrgLines(incident[1..], me, nodes, seen)
  }

  /** Lines name distinct organisations, none already seen, each at the
      other end of some incident link. */
  ghost predicate SoundLines(r: seq<(Value, int)>, incident: seq<RLink>, me: Value, nodes: seq<Obj>, seen: set<Value>) {
    DistinctLines(r) && FreshOrgLines(r, nodes, seen) && ReachedLines(r, incident, me)
  }

  ghost predicate DistinctLines(r: seq<(Value, int)>) {
    forall i, j :: 0 <= i < j < |r| ==> r[i].0 != r[j].0
  }

  ghost predicate FreshOrgLines(r: seq<(Value, int)>, nodes: seq<Obj>, seen: set<Value>) {
    forall i :: 0 <= i < |r| ==> r[i].0 !in seen && IsOrgId(nodes, r[i].0)
  }

  ghost predicate ReachedLines(r: seq<(Value, int)>, incident: seq<RLink>, me: Value) {
    forall i :: 0 <= i < |r| ==> r[i].0 in OtherEnds(incident, me)
  }

  /** The far ends of the links, seen from `me`. */
  function OtherEnds(links: seq<RLink>, me: Value): set<Value> {
    set l | l in links :: Other(l, me)
  }

  /** Each line carries the weight of the first incident link to it. */
  ghost predicate WeightedLines(r: seq<(Value, int)>, incident: seq<RLink>, me: Value) {
    forall i :: 0 <= i < |r| ==> r[i].1 == FirstWeightTo(incident, me, r[i].0)
  }

  /** Every organisation neighbour not already seen has a line. */
  ghost predicate CompleteLines(r: seq<(Value, int)>, incident: seq<RLink>, me: Value, nodes: seq<Obj>, seen: set<Value>) {
    forall l :: l in incident && IsOrgId(nodes, Other(l, me)) && Other(l, me) !in seen ==>
      exists i :: 0 <= i < |r| && r[i].0 == Other(l, me)
  }

  lemma OrgLinesSound(incident: seq<RLink>, me: Value, nodes: seq<Obj>, seen: set<Value>)
    requires forall l :: l in incident ==> HasEndpointId(l, me)
    ensures SoundLines(OrgLines(incident, me, nodes, seen), incident, me, nodes, seen)
  {
    OrgLinesFresh(incident, me, nodes, seen);
    OrgLinesDistinct(incident, me, nodes, seen);
    OrgLinesReached(incident, me, nodes, seen);
  }

  lemma {:induction false} OrgLinesFresh(incident: seq<RLink>, me: Value, nodes: seq<Obj>, seen: set<Value>)
    ensures FreshOrgLines(OrgLines(incident, me, nodes, seen), nodes, seen)
    decreases |incident|
  {
    if |incident| > 0 {
      var c := Candidate(incident[0], me, nodes, seen);
      OrgLinesStep(incident, me, nodes, seen);
      if c.Some? {
        OrgLinesFresh(incident[1..], me, nodes, seen + {c.value});
        FreshCons(c.value, incident[0].weight, OrgLines(incident[1..], me, nodes, seen + {c.value}), nodes, seen);
      } else {
        OrgLinesFresh(incident[1..], me, nodes, seen);
      }
    }
  }

  /** One step of `OrgLines`: the first link's candidate, if any, then the
      rest with that organisation seen. */
  lemma OrgLinesStep(incident: seq<RLink>, me: Value, nodes: seq<Obj>, seen: set<Value>)
    requires |incident| > 0
    ensures var c := Candidate(incident[0], me, nodes, seen);
      OrgLines(incident, me, nodes, seen)
        == if c.Some? then [(c.value, incident[0].weight)] + OrgLines(incident[1..], me, nodes, seen + {c.value})
           else OrgLines(incident[1..], me, nodes, seen)
  {
  }

  lemma FreshCons(o: Value, w: int, r: seq<(Value, int)>, nodes: seq<Obj>, seen: set<Value>)
    requires FreshOrgLines(r, nodes, seen + {o})
    requires o !in seen && IsOrgId(nodes, o)
    ensures FreshOrgLines([(o, w)] + r, nodes, seen)
  {
    var r2 := [(o, w)] + r;
    forall i | 0 <= i < |r2| ensures r2[i].0 !in seen && IsOrgId(nodes, r2[i].0) {
      if i > 0 {
        assert r2[i] == r[i - 1];
      }
    }
  }

  lemma {:induction false} OrgLinesDistinct(incident: seq<RLink>, me: Value, nodes: seq<Obj>, seen: set<Value>)
    ensures DistinctLines(OrgLines(incident, me, nodes, seen))
    decreases |incident|
  {
    if |incident| > 0 {
      var c := Candidate(incident[0], me, nodes, seen);
      OrgLinesStep(incident, me, nodes, seen);
      if c.Some? {
        var r' := OrgLines(incident[1..], me, nodes, seen + {c.value});
        OrgLinesDistinct(incident[1..], me, nodes, seen + {c.value});
        OrgLinesFresh(incident[1..], me, nodes, seen + {c.value});
        FreshNotSeen(r', nodes, seen + {c.value}, c.value);
        ConsDistinct(c.value, incident[0].weight, r');
      } else {
        OrgLinesDistinct(incident[1..], me, nodes, seen);
      }
    }
  }

  /** A line for an organisation not among the later lines keeps the
      lines distinct. */
  /** Fresh lines avoid every organisation already seen. */
  lemma FreshNotSeen(r: seq<(Value, int)>, nodes: seq<Obj>, seen: set<Value>, o: Value)
    requires FreshOrgLines(r, nodes, seen) && o in seen
    ensures forall k :: 0 <= k < |r| ==> r[k].0 != o
  {
  }

  lemma ConsDistinct(o: Value, w: int, r: seq<(Value, int)>)
    requires DistinctLines(r)
    requires forall k :: 0 <= k < |r| ==> r[k].0 != o
    ensures DistinctLines([(o, w)] + r)
  {
    var r2 := [(o, w)] + r;
    forall i, j | 0 <= i < j < |r2| ensures r2[i].0 != r2[j].0 {
      assert r2[j].0 == r[j - 1].0;
      if i > 0 {
        assert r2[i].0 == r[i - 1].0;
      }
    }
  }

  lemma {:induction false} OrgLinesReached(incident: seq<RLink>, me: Value, nodes: seq<Obj>, seen: set<Value>)
    requires forall l :: l in incident ==> HasEndpointId(l, me)
    ensures ReachedLines(OrgLines(incident, me, nodes, seen), incident, me)
    decreases |incident|
  {
    if |incident| > 0 {
      var l := incident[0];
      var rest := incident[1..];
      assert incident == [l] + rest;
      CandidateIsOther(l, me, nodes, seen);
      OrgLinesStep(incident, me, nodes, seen);
      if Candidate(l, me, nodes, seen).Some? {
        var o := Other(l, me);
        OrgLinesReached(rest, me, nodes, seen + {o});
        ConsReached(l, rest, me, l.weight, OrgLines(rest, me, nodes, seen + {o}));
      } else {
        OrgLinesReached(rest, me, nodes, seen);
        ReachedMono(OrgLines(rest, me, nodes, seen), rest, incident, me);
      }
    }
  }

  lemma ConsReached(l: RLink, rest: seq<RLink>, me: Value, w: int, r: seq<(Value, int)>)
    requires ReachedLines(r, rest, me)
    ensures ReachedLines([(Other(l, me), w)] + r, [l] + rest, me)
  {
    var r2 := [(Other(l, me), w)] + r;
    assert l in [l] + rest;
    ReachedMono(r, rest, [l] + rest, me);
    forall i | 0 <= i < |r2| ensures r2[i].0 in OtherEnds([l] + rest, me) {
      if i > 0 {
        assert r2[i] == r[i - 1];
      }
    }
  }

  /** Lines reached from some links stay reached from more links. */
  lemma ReachedMono(r: seq<(Value, int)>, a: seq<RLink>, b: seq<RLink>, me: Value)
    requires forall l :: l in a ==> l in b
    requires ReachedLines(r, a, me)
    ensures ReachedLines(r, b, me)
  {
    assert OtherEnds(a, me) <= OtherEnds(b, me);
  }

  lemma {:induction false} OrgLinesWeights(incident: seq<RLink>, me: Value, nodes: seq<Obj>, seen: set<Value>)
    requires forall l :: l in incident ==> HasEndpointId(l, me)
    ensures WeightedLines(OrgLines(incident, me, nodes, seen), incident, me)
    decreases |incident|
  {
    if |incident| > 0 {
      var l := incident[0];
      var rest := incident[1..];
      assert incident == [l] + rest;
      assert forall l' :: l' in rest ==> l' in incident;
      CandidateIsOther(l, me, nodes, seen);
      OrgLinesStep(incident, me, nodes, seen);
      if Candidate(l, me, nodes, seen).Some? {
        var o := Other(l, me);
        OrgLinesWeights(rest, me, nodes, seen + {o});
        OrgLinesFresh(rest, me, nodes, seen + {o});
        WeightsCons(l, rest, me, OrgLines(rest, me, nodes, seen + {o}), nodes, seen);
      } else {
        OrgLinesWeights(rest, me, nodes, seen);
        OrgLinesFresh(rest, me, nodes, seen);
        WeightsSkip(l, rest, me, OrgLines(rest, me, nodes, seen), nodes, seen);
      }
    }
  }

  /** A line for the first link's far end, before lines for other
      organisations, carries that link's weight. */
  lemma WeightsCons(l: RLink, rest: seq<RLink>, me: Value, r: seq<(Value, int)>, nodes: seq<Obj>, seen: set<Value>)
    requires WeightedLines(r, rest, me)
    requires FreshOrgLines(r, nodes, seen + {Other(l, me)})
    ensures WeightedLines([(Other(l, me), l.weight)] + r, [l] + rest, me)
  {
    var r2 := [(Other(l, me), l.weight)] + r;
    assert ([l] + rest)[0] == l && ([l] + rest)[1..] == rest;
    forall i | 0 <= i < |r2| ensures r2[i].1 == FirstWeightTo([l] + rest, me, r2[i].0) {
      if i > 0 {
        assert r2[i] == r[i - 1];
        assert r[i - 1].0 !in seen + {Other(l, me)};
      }
    }
  }

  /** A link whose far end gets no line leaves the other lines' weights. */
  lemma WeightsSkip(l: RLink, rest: seq<RLink>, me: Value, r: seq<(Value, int)>, nodes: seq<Obj>, seen: set<Value>)
    requires WeightedLines(r, rest, me)
    requires FreshOrgLines(r, nodes, seen)
    requires !(IsOrgId(nodes, Other(l, me)) && Other(l, me) !in seen)
    ensures WeightedLines(r, [l] + rest, me)
  {
    assert ([l] + rest)[0] == l && ([l] + rest)[1..] == rest;
    forall i | 0 <= i < |r| ensures r[i].1 == FirstWeightTo([l] + rest, me, r[i].0) {
      assert r[i].0 !in seen && IsOrgId(nodes, r[i].0);
    }
  }

  lemma {:induction false} OrgLinesComplete(incident: seq<RLink>, me: Value, nodes: seq<Obj>, seen: set<Value>)
    requires forall l :: l in incident ==> HasEndpointId(l, me)
    ensures CompleteLines(OrgLines(incident, me, nodes, seen), incident, me, nodes, seen)
    decreases |incident|
  {
    if |incident| > 0 {
      var l0 := incident[0];
      var rest := incident[1..];
      assert incident == [l0] + rest;
      CandidateIsOther(l0, me, nodes, seen);
      OrgLinesStep(incident, me, nodes, seen);
      if Candidate(l0, me, nodes, seen).Some? {
        var o := Other(l0, me);
        OrgLinesComplete(rest, me, nodes, seen + {o});
        ConsComplete(l0, rest, me, nodes, seen, l0.weight, OrgLines(rest, me, nodes, seen + {o}));
      } else {
        OrgLinesComplete(rest, me, nodes, seen);
        SkipComplete(l0, rest, me, nodes, seen, OrgLines(rest, me, nodes, seen));
      }
    }
  }

  lemma ConsComplete(l0: RLink, rest: seq<RLink>, me: Value, nodes: seq<Obj>, seen: set<Value>, w: int, r: seq<(Value, int)>)
    requires CompleteLines(r, rest, me, nodes, seen + {Other(l0, me)})
    ensures CompleteLines([(Other(l0, me), w)] + r, [l0] + rest, me, nodes, seen)
  {
    var r2 := [(Other(l0, me), w)] + r;
    forall l | l in [l0] + rest && IsOrgId(nodes, Other(l, me)) && Other(l, me) !in seen
      ensures exists i :: 0 <= i < |r2| && r2[i].0 == Other(l, me)
    {
      if Other(l, me) == Other(l0, me) {
        assert r2[0].0 == Other(l, me);
      } else {
        assert l in rest;
        var i := LineOf(r, rest, me, nodes, seen + {Other(l0, me)}, l);
        assert r2[i + 1] == r[i];
      }
    }
  }

  /** Where complete lines list a link's far end. */
  lemma LineOf(r: seq<(Value, int)>, links: seq<RLink>, me: Value, nodes: seq<Obj>, seen: set<Value>, l: RLink)
    returns (i: nat)
    requires CompleteLines(r, links, me, nodes, seen)
    requires l in links && IsOrgId(nodes, Other(l, me)) && Other(l, me) !in seen
    ensures i < |r| && r[i].0 == Other(l, me)
  {
    i :| 0 <= i < |r| && r[i].0 == Other(l, me);
  }

  lemma SkipComplete(l0: RLink, rest: seq<RLink>, me: Value, nodes: seq<Obj>, seen: set<Value>, r: seq<(Value, int)>)
    requires CompleteLines(r, rest, me, nodes, seen)
    requires !(IsOrgId(nodes, Other(l0, me)) && Other(l0, me) !in seen)
    ensures CompleteLines(r, [l0] + rest, me, nodes, seen)
  {
    forall l | l in [l0] + rest && IsOrgId(nodes, Other(l, me)) && Other(l, me) !in seen
      ensures exists i :: 0 <= i < |r| && r[i].0 == Other(l, me)
    {
      assert l in rest;
    }
  }

  datatype TipBody =
    | OrgWeights(lines: seq<(Value, int)>)     // shown as "(None)" when empty
    | Connections(lines: seq<(Value, int)>)

  datatype NodeTip = NodeTip(id: Value, kind: Value, body: TipBody)

  predicate HasOrg(nodes: seq<Obj>) {
    exists n :: n in nodes && IsOrg(n)
  }

  /** The node tooltip. `links` are the rendered links and `allNodes` the
      nodes of the graph passed to `render`, drawn or not. */
  function NodeTooltip(d: Obj, links: seq<RLink>, allNodes: seq<Obj>): (r: NodeTip)
    ensures r.id == Id(d) && r.kind == Get(d, "label")
    ensures r.body.OrgWeights? <==> HasOrg(allNodes) && Get(d, "label") == Str("PERSON")
    ensures r.body.Connections? ==>
              var inc := IncidentLinks(links, Id(d));
              |r.body.lines| == |inc|
              && forall i :: 0 <= i < |inc| ==> r.body.lines[i] == (Other(inc[i], Id(d)), inc[i].weight)
  {
    var inc := IncidentLinks(links, Id(d));
    var body :=
      if HasOrg(allNodes) && Get(d, "label") == Str("PERSON") then
        OrgWeights(OrgLines(inc, Id(d), allNodes, {}))
      else
        Connections(seq(|inc|, i requires 0 <= i < |inc| => (Other(inc[i], Id(d)), inc[i].weight)));
    NodeTip(Id(d), Get(d, "label"), body)
  }

  /** A person's organisation lines name each organisation neighbour exactly
      once, with the weight of the first link to it; nothing else is
      listed. */
  lemma PersonTooltipOrgLines(d: Obj, links: seq<RLink>, allNodes: seq<Obj>)
    requires HasOrg(allNodes) && Get(d, "label") == Str("PERSON")
    ensures var r := NodeTooltip(d, links, allNodes).body.lines;
      var inc := IncidentLinks(links, Id(d));
      && (forall i, j :: 0 <= i < j < |r| ==> r[i].0 != r[j].0)
      && (forall i :: 0 <= i < |r| ==> IsOrgId(allNodes, r[i].0) && r[i].1 == FirstWeightTo(inc, Id(d), r[i].0))
      && (forall i :: 0 <= i < |r| ==> exists l :: l in links && HasEndpointId(l, Id(d)) && Other(l, Id(d)) == r[i].0)
      && (forall l :: l in links && HasEndpointId(l, Id(d)) && IsOrgId(allNodes, Other(l, Id(d))) ==>
            exists i :: 0 <= i < |r| && r[i].0 == Other(l, Id(d)))
  {
    var inc := IncidentLinks(links, Id(d));
    SubseqMembers(inc, links);
    OrgLinesSound(inc, Id(d), allNodes, {});
    OrgLinesWeights(inc, Id(d), allNodes, {});
    OrgLinesComplete(inc, Id(d), allNodes, {});
    forall l | l in links && HasEndpointId(l, Id(d)) ensures l in inc {
      assert multiset(inc)[l] == multiset(links)[l];
    }
  }

  /** `Math.max(0, Math.min(bound, v))`. */
  function Clamp(v: real, bound: real): (r: real)
    ensures 0.0 <= r
    ensures bound >= 0.0 ==> r <= bound
    ensures 0.0 <= v <= bound ==> r == v
    ensures v > bound && bound >= 0.0 ==> r == bound
    ensures v < 0.0 ==> r == 0.0
  {
    var m := if bound < v then bound else v;
    if 0.0 < m then m else 0.0
  }

  /** `container.clientWidth || 800` (and `|| 600` for the height). */
  function CanvasExtent(client: nat, fallback: nat): (r: nat)
    requires fallback > 0
    ensures r > 0
    ensures client > 0 ==> r == client
    ensures client == 0 ==> r == fallback
  {
    if client > 0 then client else fallback
  }

  /** Every drawn coordinate lies on the canvas, and clamping again changes
      nothing. */
  lemma ClampedOnCanvas(x: real, y: real, clientW: nat, clientH: nat)
    ensures var w := CanvasExtent(clientW, 800) as real;
      var h := CanvasExtent(clientH, 600) as real;
      && 0.0 <= Clamp(x, w) <= w && 0.0 <= Clamp(y, h) <= h
      && Clamp(Clamp(x, w), w) == Clamp(x, w)
  {
  }

  // Feeding the filtered organisation/person graph to the renderer.

  function NodeObj(n: CF.Node): Obj {
    [("id", Str(n.id)), ("label", Str(n.category))]
  }

  function LinkOf(l: CF.Link): RLink {
    RLink(Raw(Str(l.source)), Raw(Str(l.target)), l.weight, l.subjects)
  }

  function GraphOf(g: CF.Graph): RGraph {
    RGraph(seq(|g.nodes|, i requires 0 <= i < |g.nodes| => NodeObj(g.nodes[i])),
           seq(|g.links|, i requires 0 <= i < |g.links| => LinkOf(g.links[i])))
  }

  /** After `applyFilters` every remaining node is an endpoint of a remaining
      link, so the renderer's own unlinked-node filter draws all of them. */
  lemma FilteredGraphFullyDrawn(g: CF.Graph, f: CF.Filters)
    ensures var r := GraphOf(CF.ApplyFilters(g, f));
      DrawnNodes(r.nodes, r.links) == r.nodes
  {
    var fg := CF.ApplyFilters(g, f);
    CF.ApplyFiltersNodes(g, f);
    forall n | n in fg.nodes ensures n.id in CF.Endpoints(fg.links) {
      assert multiset(fg.nodes)[n] > 0;
    }
    GraphOfLinked(fg);
    AllLinkedAllDrawn(GraphOf(fg).nodes, GraphOf(fg).links);
  }

  /** A converted graph whose every node touches a link keeps that property
      under the renderer's own notion of endpoint. */
  lemma GraphOfLinked(fg: CF.Graph)
    requires forall n :: n in fg.nodes ==> n.id in CF.Endpoints(fg.links)
    ensures forall n :: n in GraphOf(fg).nodes ==> Id(n) in LinkedIds(GraphOf(fg).links)
  {
    var r := GraphOf(fg);
    forall n | n in r.nodes ensures Id(n) in LinkedIds(r.links) {
      var i :| 0 <= i < |r.nodes| && r.nodes[i] == n;
      var node := fg.nodes[i];
      assert Id(n) == Str(node.id);
      var l :| l in fg.links && CF.Touches(l, node.id);
      var j :| 0 <= j < |fg.links| && fg.links[j] == l;
      assert HasEndpointId(r.links[j], Str(node.id));
      assert r.links[j] in r.links;
    }
  }
}
