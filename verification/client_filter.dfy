/** The browser-side filters of the organisation/person view
    (task3/frontend/js/app.js): a new subgraph is derived from the stored
    full graph by an organisation-neighbourhood step, a minimum-weight step
    and a person step, in that order, followed by pruning every node that
    is no longer an endpoint of a kept link. */
module ClientFilter {
  import opened Common

  /** `label` is the node category, "ORG" or "PERSON". */
  datatype Node = Node(id: string, category: string)

  /** `subjects` is only present on the e-mail graph's links. */
  datatype Link = Link(source: string, target: string, weight: int, subjects: Option<seq<string>>)

  datatype Graph = Graph(nodes: seq<Node>, links: seq<Link>)

  /** The three pieces of filter state the page keeps. */
  datatype Filters = Filters(org: Option<string>, person: Option<string>, minWeight: int)

  /** JavaScript truthiness of a `string | null` selection. */
  predicate Active(sel: Option<string>) {
    sel.Some? && sel.value != ""
  }

  /** `select.value || null`: the empty option means "no selection". */
  function Selection(value: string): (r: Option<string>)
    ensures Active(r) <==> value != ""
    ensures r.Some? ==> r.value == value
  {
    if value == "" then None else Some(value)
  }

  /** `parseInt(input.value) || 1`, given what `parseInt` returned
      (None standing for NaN). */
  function MinWeightOf(parsed: Option<int>): (w: int)
    ensures w != 0
    ensures parsed.Some? && parsed.value != 0 ==> w == parsed.value
    ensures parsed.None? || parsed.value == 0 ==> w == 1
  {
    match parsed
    case Some(n) => if n == 0 then 1 else n
    case None => 1
  }

  predicate Touches(l: Link, id: string) {
    l.source == id || l.target == id
  }

  /** The link tests the filters are built from. */
  datatype LinkTest = BothIn(ids: set<string>) | AtLeast(floor: int) | TouchesId(id: string)

  predicate Passes(l: Link, t: LinkTest) {
    match t
    case BothIn(ids) => l.source in ids && l.target in ids
    case AtLeast(floor) => l.weight >= floor
    case TouchesId(id) => Touches(l, id)
  }

  /** `links.filter(...)` for one test. */
  function KeepLinks(links: seq<Link>, t: LinkTest): (r: seq<Link>)
    ensures Subseq(r, links)
    ensures forall l :: multiset(r)[l] == if Passes(l, t) then multiset(links)[l] else 0
    decreases |links|
  {
    if |links| == 0 then []
    else
      var rest := KeepLinks(links[1..], t);
      assert links == [links[0]] + links[1..];
      if Passes(links[0], t) then [links[0]] + rest else rest
  }

  /** A test every link passes keeps the whole list. */
  lemma {:induction false} KeepLinksAllPass(links: seq<Link>, t: LinkTest)
    requires forall l :: l in links ==> Passes(l, t)
    ensures KeepLinks(links, t) == links
    decreases |links|
  {
    if |links| > 0 {
      assert links[0] in links;
      assert forall l :: l in links[1..] ==> l in links;
      KeepLinksAllPass(links[1..], t);
      KeepLinksCons(links, t);
      assert links == [links[0]] + links[1..];
    }
  }

  lemma KeepLinksCons(links: seq<Link>, t: LinkTest)
    requires |links| > 0
    ensures KeepLinks(links, t)
         == if Passes(links[0], t) then [links[0]] + KeepLinks(links[1..], t) else KeepLinks(links[1..], t)
  {
  }

  /** `nodes.filter(n => ids.has(n.id))`. */
  function KeepNodes(nodes: seq<Node>, ids: set<string>): (r: seq<Node>)
    ensures Subseq(r, nodes)
    ensures forall n :: multiset(r)[n] == if n.id in ids then multiset(nodes)[n] else 0
    decreases |nodes|
  {
    if |nodes| == 0 then []
    else
      var rest := KeepNodes(nodes[1..], ids);
      assert nodes == [nodes[0]] + nodes[1..];
      if nodes[0].id in ids then [nodes[0]] + rest else rest
  }

  lemma KeepNodesCons(nodes: seq<Node>, ids: set<string>)
    requires |nodes| > 0
    ensures KeepNodes(nodes, ids)
         == if nodes[0].id in ids then [nodes[0]] + KeepNodes(nodes[1..], ids) else KeepNodes(nodes[1..], ids)
  {
  }

  /** `new Set(links.flatMap(l => [l.source, l.target]))`. */
  function Endpoints(links: seq<Link>): (ids: set<string>)
    ensures forall id :: id in ids <==> exists l :: l in links && Touches(l, id)
    decreases |links|
  {
    if |links| == 0 then {}
    else
      assert forall l :: l in links <==> l == links[0] || l in links[1..];
      assert Touches(links[0], links[0].source) && Touches(links[0], links[0].target);
      {links[0].source, links[0].target} + Endpoints(links[1..])
  }

  /** The `connected` set of the organisation step: both endpoints of every
      link that touches the organisation. */
  function Neighbourhood(links: seq<Link>, org: string): (ids: set<string>)
    ensures forall id :: id in ids <==> exists l :: l in links && Touches(l, org) && Touches(l, id)
    decreases |links|
  {
    if |links| == 0 then {}
    else
      assert forall l :: l in links <==> l == links[0] || l in links[1..];
      (if Touches(links[0], org) then {links[0].source, links[0].target} else {})
      + Neighbourhood(links[1..], org)
  }

  /** The organisation step; skipped when no organisation is selected. */
  function OrgStep(g: Graph, org: Option<string>): (r: Graph)
    ensures Subseq(r.nodes, g.nodes) && Subseq(r.links, g.links)
    ensures forall l :: multiset(r.links)[l]
              == if Active(org) ==> Passes(l, BothIn(Neighbourhood(g.links, org.value)))
                 then multiset(g.links)[l] else 0
    ensures forall n :: multiset(r.nodes)[n]
              == if Active(org) ==> n.id in Neighbourhood(g.links, org.value)
                 then multiset(g.nodes)[n] else 0
  {
    if Active(org) then
      var connected := Neighbourhood(g.links, org.value);
      Graph(KeepNodes(g.nodes, connected), KeepLinks(g.links, BothIn(connected)))
    else
      SubseqRefl(g.nodes);
      SubseqRefl(g.links);
      g
  }

  /** The minimum-weight step; only a floor above 1 filters. */
  function WeightStep(links: seq<Link>, minWeight: int): (r: seq<Link>)
    ensures Subseq(r, links)
    ensures forall l :: multiset(r)[l]
              == if minWeight > 1 ==> l.weight >= minWeight then multiset(links)[l] else 0
  {
    if minWeight > 1 then KeepLinks(links, AtLeast(minWeight))
    else SubseqRefl(links); links
  }

  /** The person step; skipped when no person is selected. */
  function PersonStep(links: seq<Link>, person: Option<string>): (r: seq<Link>)
    ensures Subseq(r, links)
    ensures forall l :: multiset(r)[l]
              == if Active(person) ==> Touches(l, person.value) then multiset(links)[l] else 0
  {
    if Active(person) then KeepLinks(links, TouchesId(person.value))
    else SubseqRefl(links); links
  }

  /** Whether a link of the full graph survives all active link tests. */
  predicate LinkKept(g: Graph, f: Filters, l: Link) {
    && (Active(f.org) ==> Passes(l, BothIn(Neighbourhood(g.links, f.org.value))))
    && (f.minWeight > 1 ==> l.weight >= f.minWeight)
    && (Active(f.person) ==> Touches(l, f.person.value))
  }

  /** The links `applyFilters` keeps; they depend on the links alone. */
  function ShownLinks(links: seq<Link>, f: Filters): seq<Link> {
    var g1 := OrgStep(Graph([], links), f.org);
    PersonStep(WeightStep(g1.links, f.minWeight), f.person)
  }

  /** `applyFilters`: the graph handed to the renderer. */
  function ApplyFilters(g: Graph, f: Filters): Graph {
    var links := ShownLinks(g.links, f);
    Graph(KeepNodes(OrgStep(g, f.org).nodes, Endpoints(links)), links)
  }

  /** Filtering only deletes: nodes and links keep their relative order. */
  lemma ApplyFiltersOrderPreserving(g: Graph, f: Filters)
    ensures Subseq(ApplyFilters(g, f).nodes, g.nodes)
    ensures Subseq(ApplyFilters(g, f).links, g.links)
  {
    var g1 := OrgStep(g, f.org);
    var links2 := WeightStep(g1.links, f.minWeight);
    var links3 := PersonStep(links2, f.person);
    SubseqTrans(links2, g1.links, g.links);
    SubseqTrans(links3, links2, g.links);
    SubseqTrans(ApplyFilters(g, f).nodes, g1.nodes, g.nodes);
  }

  /** A link is shown exactly when it passes every active test, each copy
      of it as often as it occurs in the full graph. */
  lemma ApplyFiltersLinks(g: Graph, f: Filters)
    ensures forall l :: multiset(ApplyFilters(g, f).links)[l]
              == if LinkKept(g, f, l) then multiset(g.links)[l] else 0
  {
    var g1 := OrgStep(g, f.org);
    var links2 := WeightStep(g1.links, f.minWeight);
    var links3 := PersonStep(links2, f.person);
    forall l ensures multiset(links3)[l] == if LinkKept(g, f, l) then multiset(g.links)[l] else 0 {
      assert multiset(links3)[l] == if Active(f.person) ==> Touches(l, f.person.value) then multiset(links2)[l] else 0;
      assert multiset(links2)[l] == if f.minWeight > 1 ==> l.weight >= f.minWeight then multiset(g1.links)[l] else 0;
    }
  }

  /** Links surviving the organisation step only have endpoints in the
      organisation's neighbourhood, so neither do links filtered further. */
  lemma EndpointsWithinNeighbourhood(g: Graph, org: string, links: seq<Link>)
    requires forall l :: l in links ==> multiset(OrgStep(g, Some(org)).links)[l] > 0
    ensures org != "" ==> Endpoints(links) <= Neighbourhood(g.links, org)
  {
    if org != "" {
      forall id | id in Endpoints(links) ensures id in Neighbourhood(g.links, org) {
        var l :| l in links && Touches(l, id);
        assert multiset(OrgStep(g, Some(org)).links)[l] > 0;
      }
    }
  }

  /** A node is shown exactly when it is an endpoint of a shown link: the
      organisation step's own node filter never removes more. */
  lemma ApplyFiltersNodes(g: Graph, f: Filters)
    ensures forall n :: multiset(ApplyFilters(g, f).nodes)[n]
              == if n.id in Endpoints(ApplyFilters(g, f).links) then multiset(g.nodes)[n] else 0
  {
    var g1 := OrgStep(g, f.org);
    var links2 := WeightStep(g1.links, f.minWeight);
    var links3 := PersonStep(links2, f.person);
    var ends := Endpoints(links3);
    var r := ApplyFilters(g, f);
    assert r.links == links3 && r.nodes == KeepNodes(g1.nodes, ends);
    SubseqTrans(links3, links2, g1.links);
    SubseqMembers(links3, g1.links);
    if Active(f.org) {
      assert forall l :: l in links3 ==> multiset(g1.links)[l] > 0;
      EndpointsWithinNeighbourhood(g, f.org.value, links3);
    }
    forall n ensures multiset(r.nodes)[n] == if n.id in ends then multiset(g.nodes)[n] else 0 {
      assert multiset(r.nodes)[n] == if n.id in ends then multiset(g1.nodes)[n] else 0;
    }
  }

  /** `applyEmailFilters`: person step first, then the weight floor, then
      the same pruning, on the person-to-person graph. */
  function ApplyEmailFilters(g: Graph, person: Option<string>, minWeight: int): (r: Graph)
    ensures Subseq(r.nodes, g.nodes) && Subseq(r.links, g.links)
    ensures forall l :: multiset(r.links)[l]
              == if (Active(person) ==> Touches(l, person.value)) && (minWeight > 1 ==> l.weight >= minWeight)
                 then multiset(g.links)[l] else 0
    ensures forall n :: multiset(r.nodes)[n]
              == if n.id in Endpoints(r.links) then multiset(g.nodes)[n] else 0
  {
    var links1 := PersonStep(g.links, person);
    var links2 := WeightStep(links1, minWeight);
    SubseqTrans(links2, links1, g.links);
    Graph(KeepNodes(g.nodes, Endpoints(links2)), links2)
  }

  /** The page's state: the stored full graph and the current filters. */
  datatype Page = Page(full: Graph, filters: Filters)

  /** Pressing "apply" on the organisation filter: records the selection and
      renders the filtered graph, leaving the stored graph as it was. */
  function ApplyOrgClicked(p: Page, selectValue: string): (r: (Page, Graph))
    ensures r.0.full == p.full
    ensures r.0.filters.person == p.filters.person && r.0.filters.minWeight == p.filters.minWeight
    ensures r.0.filters.org == Selection(selectValue)
    ensures Active(r.0.filters.org) <==> selectValue != ""
    ensures r.1 == ApplyFilters(p.full, r.0.filters)
    ensures Subseq(r.1.nodes, p.full.nodes) && Subseq(r.1.links, p.full.links)
    ensures forall l :: multiset(r.1.links)[l]
              == if LinkKept(p.full, r.0.filters, l) then multiset(p.full.links)[l] else 0
    ensures forall n :: multiset(r.1.nodes)[n]
              == if n.id in Endpoints(r.1.links) then multiset(p.full.nodes)[n] else 0
  {
    var p' := p.(filters := p.filters.(org := Selection(selectValue)));
    ApplyFiltersOrderPreserving(p'.full, p'.filters);
    ApplyFiltersLinks(p'.full, p'.filters);
    ApplyFiltersNodes(p'.full, p'.filters);
    (p', ApplyFilters(p'.full, p'.filters))
  }

  /** Pressing "apply" on the person filter: records the person and the
      weight floor, then renders; the stored graph is left as it was. */
  function ApplyPersonClicked(p: Page, selectValue: string, parsedWeight: Option<int>): (r: (Page, Graph))
    ensures r.0.full == p.full
    ensures r.0.filters.org == p.filters.org
    ensures r.0.filters.person == Selection(selectValue)
    ensures r.0.filters.minWeight == MinWeightOf(parsedWeight)
    ensures r.0.filters.minWeight >= 1 || r.0.filters.minWeight < 0
    ensures r.1 == ApplyFilters(p.full, r.0.filters)
    ensures Subseq(r.1.nodes, p.full.nodes) && Subseq(r.1.links, p.full.links)
    ensures forall l :: multiset(r.1.links)[l]
              == if LinkKept(p.full, r.0.filters, l) then multiset(p.full.links)[l] else 0
    ensures forall n :: multiset(r.1.nodes)[n]
              == if n.id in Endpoints(r.1.links) then multiset(p.full.nodes)[n] else 0
  {
    var p' := p.(filters := p.filters.(person := Selection(selectValue), minWeight := MinWeightOf(parsedWeight)));
    ApplyFiltersOrderPreserving(p'.full, p'.filters);
    ApplyFiltersLinks(p'.full, p'.filters);
    ApplyFiltersNodes(p'.full, p'.filters);
    (p', ApplyFilters(p'.full, p'.filters))
  }

  /** The person step and the weight step of `applyEmailFilters` can be
      swapped without changing the result. */
  lemma {:induction false} KeepLinksCommute(links: seq<Link>, a: LinkTest, b: LinkTest)
    ensures KeepLinks(KeepLinks(links, a), b) == KeepLinks(KeepLinks(links, b), a)
    decreases |links|
  {
    if |links| > 0 {
      KeepLinksCommute(links[1..], a, b);
    }
  }

  lemma EmailFiltersCommute(links: seq<Link>, person: Option<string>, minWeight: int)
    ensures WeightStep(PersonStep(links, person), minWeight)
         == PersonStep(WeightStep(links, minWeight), person)
  {
    if Active(person) && minWeight > 1 {
      KeepLinksCommute(links, TouchesId(person.value), AtLeast(minWeight));
    }
  }

  /** Selecting an organisation that no link touches empties the view. */
  lemma UnlinkedOrgGivesEmptyGraph(g: Graph, f: Filters)
    requires Active(f.org)
    requires forall l :: l in g.links ==> !Touches(l, f.org.value)
    ensures ApplyFilters(g, f) == Graph([], [])
  {
    var r := ApplyFilters(g, f);
    ApplyFiltersLinks(g, f);
    ApplyFiltersNodes(g, f);
    assert Neighbourhood(g.links, f.org.value) == {};
    assert multiset(r.links) == multiset{};
    assert Endpoints(r.links) == {};
    assert multiset(r.nodes) == multiset{};
  }

  /** With no filter active every link is shown, but isolated nodes are
      still pruned. */
  lemma NoFilterKeepsLinksDropsIsolated(g: Graph, f: Filters)
    requires !Active(f.org) && !Active(f.person) && f.minWeight <= 1
    ensures ApplyFilters(g, f).links == g.links
    ensures forall n :: n in ApplyFilters(g, f).nodes <==> n in g.nodes && n.id in Endpoints(g.links)
  {
    ApplyFiltersNodes(g, f);
    var r := ApplyFilters(g, f);
    forall n ensures n in r.nodes <==> n in g.nodes && n.id in Endpoints(g.links) {
      assert n in r.nodes <==> multiset(r.nodes)[n] > 0;
      assert n in g.nodes <==> multiset(g.nodes)[n] > 0;
    }
  }

  /** The worked example: a weight floor of 2 on A(ORG)-B (2), A-C (1)
      keeps A, B and the heavier link only. */
  lemma WeightFloorExample()
    ensures
      var a := Node("A", "ORG");
      var b := Node("B", "PERSON");
      var c := Node("C", "PERSON");
      var ab := Link("A", "B", 2, None);
      var ac := Link("A", "C", 1, None);
      ApplyFilters(Graph([a, b, c], [ab, ac]), Filters(None, None, 2)) == Graph([a, b], [ab])
  {
    var a := Node("A", "ORG");
    var b := Node("B", "PERSON");
    var c := Node("C", "PERSON");
    var ab := Link("A", "B", 2, None);
    var ac := Link("A", "C", 1, None);
    var g := Graph([a, b, c], [ab, ac]);
    WeightFloorLinks();
    WeightFloorNodes();
    assert OrgStep(g, None) == g;
  }

  lemma WeightFloorLinks()
    ensures ShownLinks([Link("A", "B", 2, None), Link("A", "C", 1, None)], Filters(None, None, 2))
         == [Link("A", "B", 2, None)]
  {
    var ab := Link("A", "B", 2, None);
    var ac := Link("A", "C", 1, None);
    assert OrgStep(Graph([], [ab, ac]), None).links == [ab, ac];
    WeightFloorKeep();
    assert WeightStep([ab, ac], 2) == [ab];
    assert PersonStep([ab], None) == [ab];
  }

  lemma WeightFloorKeep()
    ensures KeepLinks([Link("A", "B", 2, None), Link("A", "C", 1, None)], AtLeast(2)) == [Link("A", "B", 2, None)]
  {
    var ab := Link("A", "B", 2, None);
    var ac := Link("A", "C", 1, None);
    assert [ab, ac][1..] == [ac];
    assert KeepLinks([ac], AtLeast(2)) == [];
  }

  lemma WeightFloorNodes()
    ensures KeepNodes([Node("A", "ORG"), Node("B", "PERSON"), Node("C", "PERSON")],
                      Endpoints([Link("A", "B", 2, None)]))
         == [Node("A", "ORG"), Node("B", "PERSON")]
  {
    var a := Node("A", "ORG");
    var b := Node("B", "PERSON");
    var c := Node("C", "PERSON");
    var ids := Endpoints([Link("A", "B", 2, None)]);
    assert ids == {"A", "B"} by {
      assert [Link("A", "B", 2, None)][1..] == [];
    }
    assert "C" !in ids by {
      assert "C"[0] != "A"[0] && "C"[0] != "B"[0];
    }
    assert [a, b, c][1..] == [b, c] && [b, c][1..] == [c] && [c][1..] == [];
    KeepNodesCons([c], ids);
    KeepNodesCons([b, c], ids);
    KeepNodesCons([a, b, c], ids);
  }

  /** Re-filtering an already filtered graph with the same filters can
      remove more: the weight step can cut a neighbour's only link to the
      organisation, so the second organisation step no longer reaches it.
      (`ApplyFilters(g, f).links` is `ShownLinks(g.links, f)`.) */
  lemma RefilteringNotIdempotent()
    ensures
      var links := [Link("O", "a", 1, None), Link("O", "b", 5, None), Link("a", "b", 5, None)];
      var f := Filters(Some("O"), None, 2);
      ShownLinks(ShownLinks(links, f), f) != ShownLinks(links, f)
  {
    RefilterFirstPass();
    RefilterSecondPass();
  }

  lemma RefilterFirstPass()
    ensures ShownLinks([Link("O", "a", 1, None), Link("O", "b", 5, None), Link("a", "b", 5, None)],
                       Filters(Some("O"), None, 2))
         == [Link("O", "b", 5, None), Link("a", "b", 5, None)]
  {
    var oa := Link("O", "a", 1, None);
    var ob := Link("O", "b", 5, None);
    var ab := Link("a", "b", 5, None);
    ShownLinksOrgWeight([oa, ob, ab], "O", 2);
    RefilterFirstOrg();
    RefilterFirstWeight();
  }

  /** With an organisation and a floor above 1 selected and no person, the
      shown links are the organisation step's links above the floor. */
  lemma ShownLinksOrgWeight(links: seq<Link>, org: string, floor: int)
    requires org != "" && floor > 1
    ensures ShownLinks(links, Filters(Some(org), None, floor))
         == KeepLinks(KeepLinks(links, BothIn(Neighbourhood(links, org))), AtLeast(floor))
  {
  }

  lemma RefilterFirstNeighbourhood()
    ensures Neighbourhood([Link("O", "a", 1, None), Link("O", "b", 5, None), Link("a", "b", 5, None)], "O")
         == {"O", "a", "b"}
  {
    var oa := Link("O", "a", 1, None);
    var ob := Link("O", "b", 5, None);
    var ab := Link("a", "b", 5, None);
    assert [oa, ob, ab][1..] == [ob, ab] && [ob, ab][1..] == [ab];
    assert Neighbourhood([ab], "O") == {};
    assert Neighbourhood([ob, ab], "O") == {"O", "b"};
  }

  lemma RefilterFirstOrg()
    ensures var links := [Link("O", "a", 1, None), Link("O", "b", 5, None), Link("a", "b", 5, None)];
      KeepLinks(links, BothIn(Neighbourhood(links, "O"))) == links
  {
    var oa := Link("O", "a", 1, None);
    var ob := Link("O", "b", 5, None);
    var ab := Link("a", "b", 5, None);
    var links := [oa, ob, ab];
    RefilterFirstNeighbourhood();
    RefilterFirstKeep(links, Neighbourhood(links, "O"));
  }

  lemma RefilterFirstKeep(links: seq<Link>, ids: set<string>)
    requires links == [Link("O", "a", 1, None), Link("O", "b", 5, None), Link("a", "b", 5, None)]
    requires ids == {"O", "a", "b"}
    ensures KeepLinks(links, BothIn(ids)) == links
  {
    forall l | l in links ensures Passes(l, BothIn(ids)) {
      assert l == links[0] || l == links[1] || l == links[2];
    }
    KeepLinksAllPass(links, BothIn(ids));
  }

  lemma RefilterFirstWeight()
    ensures KeepLinks([Link("O", "a", 1, None), Link("O", "b", 5, None), Link("a", "b", 5, None)], AtLeast(2))
         == [Link("O", "b", 5, None), Link("a", "b", 5, None)]
  {
    var oa := Link("O", "a", 1, None);
    var ob := Link("O", "b", 5, None);
    var ab := Link("a", "b", 5, None);
    assert [oa, ob, ab][1..] == [ob, ab] && [ob, ab][1..] == [ab];
    assert KeepLinks([ab], AtLeast(2)) == [ab];
  }

  lemma RefilterSecondPass()
    ensures ShownLinks([Link("O", "b", 5, None), Link("a", "b", 5, None)], Filters(Some("O"), None, 2))
         == [Link("O", "b", 5, None)]
  {
    var ob := Link("O", "b", 5, None);
    var ab := Link("a", "b", 5, None);
    var f := Filters(Some("O"), None, 2);
    assert [ob, ab][1..] == [ab];
    assert Neighbourhood([ab], "O") == {};
    var n2 := Neighbourhood([ob, ab], "O");
    assert n2 == {"O", "b"};
    assert KeepLinks([ab], BothIn(n2)) == [];
    assert KeepLinks([ob, ab], BothIn(n2)) == [ob];
    assert KeepLinks([ob], AtLeast(2)) == [ob];
    assert OrgStep(Graph([], [ob, ab]), f.org).links == [ob];
    assert WeightStep([ob], 2) == [ob];
    assert PersonStep([ob], None) == [ob];
  }
}
