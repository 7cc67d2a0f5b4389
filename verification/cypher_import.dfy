/** The Cypher-file reader of task3/app.py (`parse_cypher_file`) and the
    organisation filter of its graph endpoint. The file is read line by line;
    node definitions fill a name-to-label table, a `MATCH` line with two
    node names arms a pending (source, target) pair, and the next
    relationship `CREATE` line turns it into one weighted edge. The three
    regular expressions the reader uses are written out as the matchers they
    denote. */
module CypherImport {
  import opened Common
  import opened Text
  import OrderedDict
  import CF = ClientFilter

  // The character classes the patterns use.

  datatype CharClass = Upper | Space | NotQuote | Digit

  predicate InClass(c: char, cls: CharClass) {
    match cls
    case Upper => 'A' <= c <= 'Z'        // [A-Z]
    case Space => IsSpace(c)             // \s
    case NotQuote => c != '"'            // [^"]
    case Digit => IsDigit(c)             // \d
  }

  /** Length of the longest prefix of `s` in the class: what a greedy `+`
      or `*` consumes. Every class is followed in its pattern by a character
      outside it, so backtracking never picks a shorter run. */
  function ClassRun(s: string, cls: CharClass): (n: nat)
    ensures n <= |s|
    ensures n < |s| ==> !InClass(s[n], cls)
    decreases |s|
  {
    if |s| > 0 && InClass(s[0], cls) then 1 + ClassRun(s[1..], cls) else 0
  }

  /** Everything the run covers is inside the class. */
  lemma {:induction false} ClassRunInside(s: string, cls: CharClass)
    ensures AllIn(s[..ClassRun(s, cls)], cls)
    decreases |s|
  {
    var n := ClassRun(s, cls);
    if n > 0 {
      ClassRunInside(s[1..], cls);
      assert s[..n] == [s[0]] + s[1..][..n - 1];
    }
  }

  lemma {:induction false} ClassRunOfRun(a: string, b: string, cls: CharClass)
    requires AllIn(a, cls)
    requires |b| == 0 || !InClass(b[0], cls)
    ensures ClassRun(a + b, cls) == |a|
    decreases |a|
  {
    if |a| > 0 {
      assert (a + b)[1..] == a[1..] + b;
      ClassRunOfRun(a[1..], b, cls);
    } else {
      assert a + b == b;
    }
  }

  predicate AllIn(s: string, cls: CharClass) {
    forall i :: 0 <= i < |s| ==> InClass(s[i], cls)
  }

  /** The tail `\s*"([^"]+)"` + `close` shared by the node and name
      patterns, anchored at the start of `v`: the quoted name and the
      length of the match. `close` opens with the closing quote. */
  function QuotedAt(v: string, close: string): (r: Option<(string, nat)>)
    ensures r.Some? ==> |r.value.0| > 0 && AllIn(r.value.0, NotQuote)
    ensures r.Some? ==> 0 < r.value.1 <= |v|
  {
    var sp := ClassRun(v, Space);
    var w := v[sp..];
    if !("\"" <= w) then None
    else
      var x := w[1..];
      var q := ClassRun(x, NotQuote);
      if q == 0 || !(close <= x[q..]) then None
      else ClassRunInside(x, NotQuote); Some((x[..q], sp + 1 + q + |close|))
  }

  lemma DropPrefix(p: string, x: string)
    ensures p <= p + x
    ensures (p + x)[|p|..] == x
    ensures (p + x)[..|p|] == p
  {
  }

  /** A text whose first character recurs nowhere else in it cannot start
      inside a prefix that does not contain it and run on into a copy that
      follows: the leftmost occurrence is the one after `p`. */
  lemma NoEarlyStart(p: string, w: string, r: string)
    requires |p| > 0 && !Contains(p, w)
    requires w <= r
    requires forall k :: 0 < k < |w| ==> w[k] != w[0]
    ensures !(w <= p + r)
  {
    if |p| >= |w| {
      assert !(w <= p);
      assert (p + r)[..|w|] == p[..|w|];
    } else {
      assert (p + r)[|p|] == r[0] == w[0];
      assert w[|p|] != (p + r)[|p|];
    }
  }

  /** Spacing, a quoted name and the closing text are read back. */
  lemma QuotedAtOf(spaces: string, name: string, close: string, rest: string)
    requires AllIn(spaces, Space)
    requires |name| > 0 && AllIn(name, NotQuote)
    requires |close| > 0 && close[0] == '"'
    ensures QuotedAt(spaces + ("\"" + (name + (close + rest))), close)
         == Some((name, |spaces| + 1 + |name| + |close|))
  {
    var x := name + (close + rest);
    var w := "\"" + x;
    var v := spaces + w;
    assert ClassRun(v, Space) == |spaces| by { ClassRunOfRun(spaces, w, Space); }
    assert v[|spaces|..] == w by { DropPrefix(spaces, w); }
    assert "\"" <= w && w[1..] == x by { DropPrefix("\"", x); }
    assert ClassRun(x, NotQuote) == |name| by { ClassRunOfRun(name, close + rest, NotQuote); }
    assert x[..|name|] == name && x[|name|..] == close + rest by { DropPrefix(name, close + rest); }
    assert close <= x[|name|..] by { DropPrefix(close, rest); }
  }

  // \(:([A-Z]+) \{name:\s*"([^"]+)"\}\)   anchored at the start of s

  function NodeAt(s: string): (r: Option<(string, string)>)
    ensures r.Some? ==> |r.value.0| > 0 && AllIn(r.value.0, Upper)
    ensures r.Some? ==> |r.value.1| > 0 && AllIn(r.value.1, NotQuote)
  {
    if !("(:" <= s) then None
    else
      var t := s[2..];
      var n := ClassRun(t, Upper);
      if n == 0 || !(" {name:" <= t[n..]) then None
      else
        match QuotedAt(t[n..][7..], "\"})")
        case Some((name, _)) => ClassRunInside(t, Upper); Some((t[..n], name))
        case None => None
  }

  /** `(:LABEL {name:"X"})` with the given spacing after the colon. */
  function NodeDefinition(lab: string, spaces: string, name: string): string {
    "(:" + lab + " {name:" + spaces + "\"" + name + "\"})"
  }

  lemma NodeDefinitionNested(lab: string, spaces: string, name: string, rest: string)
    ensures NodeDefinition(lab, spaces, name) + rest
         == "(:" + (lab + (" {name:" + (spaces + ("\"" + (name + ("\"})" + rest))))))
  {
  }

  /** The node definition the pattern is written for is recognised, with
      its label and name, whatever follows it. */
  lemma NodeAtDefinition(lab: string, spaces: string, name: string, rest: string)
    requires |lab| > 0 && AllIn(lab, Upper)
    requires AllIn(spaces, Space)
    requires |name| > 0 && AllIn(name, NotQuote)
    ensures NodeAt(NodeDefinition(lab, spaces, name) + rest) == Some((lab, name))
  {
    var v := spaces + ("\"" + (name + ("\"})" + rest)));
    var u := " {name:" + v;
    var t := lab + u;
    var s := "(:" + t;
    NodeDefinitionNested(lab, spaces, name, rest);
    assert "(:" <= s && s[2..] == t by { DropPrefix("(:", t); }
    assert ClassRun(t, Upper) == |lab| by { ClassRunOfRun(lab, u, Upper); }
    assert t[..|lab|] == lab && t[|lab|..] == u by { DropPrefix(lab, u); }
    assert " {name:" <= u && u[7..] == v by { DropPrefix(" {name:", v); }
    QuotedAtOf(spaces, name, "\"})", rest);
  }

  /** `re.search`: the leftmost position where the pattern matches. */
  function SearchNode(s: string): Option<(string, string)>
    decreases |s|
  {
    if NodeAt(s).Some? then NodeAt(s)
    else if |s| == 0 then None
    else SearchNode(s[1..])
  }

  /** `re.search` finds a node definition after any text that does not
      contain `(:`, with its label and name. */
  lemma {:induction false} SearchNodeAfter(p: string, lab: string, spaces: string, name: string, rest: string)
    requires !Contains(p, "(:")
    requires |lab| > 0 && AllIn(lab, Upper)
    requires AllIn(spaces, Space)
    requires |name| > 0 && AllIn(name, NotQuote)
    ensures SearchNode(p + (NodeDefinition(lab, spaces, name) + rest)) == Some((lab, name))
    decreases |p|
  {
    var r := NodeDefinition(lab, spaces, name) + rest;
    var s := p + r;
    if |p| == 0 {
      assert s == r;
      NodeAtDefinition(lab, spaces, name, rest);
    } else {
      assert "(:" <= r;
      NoEarlyStart(p, "(:", r);
      assert NodeAt(s).None?;
      assert s[1..] == p[1..] + r;
      SearchNodeAfter(p[1..], lab, spaces, name, rest);
    }
  }

  /** A node line `CREATE (:LABEL {name: "X"})...` records X with LABEL. */
  lemma NodeLineDefines(st: Reader, lab: string, spaces: string, name: string, rest: string)
    requires |lab| > 0 && AllIn(lab, Upper)
    requires AllIn(spaces, Space)
    requires |name| > 0 && AllIn(name, NotQuote)
    ensures var line := "CREATE " + (NodeDefinition(lab, spaces, name) + rest);
      OrderedDict.Get(Step(st, line).nodes, name) == Some(lab)
  {
    var line := "CREATE " + (NodeDefinition(lab, spaces, name) + rest);
    CreateHasNoNodeStart();
    SearchNodeAfter("CREATE ", lab, spaces, name, rest);
    CreateDefinitionIsNodeLine(lab, spaces, name, rest);
    NodeLineEffect(st, line);
  }

  lemma CreateHasNoNodeStart()
    ensures !Contains("CREATE ", "(:")
  {
    MissingFirstChar("CREATE ", "(:");
  }

  lemma CreateDefinitionIsNodeLine(lab: string, spaces: string, name: string, rest: string)
    ensures NodeLine("CREATE " + (NodeDefinition(lab, spaces, name) + rest))
  {
    var tail := spaces + "\"" + name + "\"})" + rest;
    var line := "CREATE " + (NodeDefinition(lab, spaces, name) + rest);
    assert line == "CREATE (" + (":" + lab + " {") + ("name:" + tail);
    DropPrefix("CREATE (", (":" + lab + " {") + ("name:" + tail));
    var k := |"CREATE (:" + lab + " {"|;
    assert line[k..] == "name:" + tail;
    ContainsAt(line, "name:", k);
  }

  // \{name:\s*"([^"]+)"\}   anchored; yields the name and the match length

  function NameAt(s: string): Option<(string, nat)> {
    if !("{name:" <= s) then None
    else
      match QuotedAt(s[6..], "\"}")
      case Some((name, len)) => Some((name, 6 + len))
      case None => None
  }

  /** A found name is non-empty and quote-free, and the match is a
      non-empty prefix of the input. */
  lemma NameAtShape(s: string)
    ensures NameAt(s).Some? ==> |NameAt(s).value.0| > 0 && AllIn(NameAt(s).value.0, NotQuote)
    ensures NameAt(s).Some? ==> 0 < NameAt(s).value.1 <= |s|
  {
  }

  /** `{name:"X"}` with the given spacing after the colon. */
  function NameLiteral(spaces: string, name: string): string {
    "{name:" + spaces + "\"" + name + "\"}"
  }

  /** A name literal is recognised with its name, and the match covers it
      exactly. */
  lemma NameAtLiteral(spaces: string, name: string, rest: string)
    requires AllIn(spaces, Space)
    requires |name| > 0 && AllIn(name, NotQuote)
    ensures NameAt(NameLiteral(spaces, name) + rest) == Some((name, |NameLiteral(spaces, name)|))
  {
    var v := spaces + ("\"" + (name + ("\"}" + rest)));
    var s := "{name:" + v;
    NameLiteralNested(spaces, name, rest);
    assert "{name:" <= s && s[6..] == v by { DropPrefix("{name:", v); }
    QuotedAtOf(spaces, name, "\"}", rest);
    var r := NameAt(s);
    assert r.Some? && r.value.0 == name;
    assert r.value.1 == 6 + |spaces| + 1 + |name| + 2;
    SomePair(r, name, |NameLiteral(spaces, name)|);
    NameAtSame(s, NameLiteral(spaces, name) + rest);
  }

  lemma NameAtSame(s: string, s': string)
    requires s == s'
    ensures NameAt(s) == NameAt(s')
  {
  }

  lemma SomePair(r: Option<(string, nat)>, a: string, n: nat)
    requires r.Some? && r.value.0 == a && r.value.1 == n
    ensures r == Some((a, n))
  {
  }

  lemma NameLiteralNested(spaces: string, name: string, rest: string)
    ensures NameLiteral(spaces, name) + rest == "{name:" + (spaces + ("\"" + (name + ("\"}" + rest))))
    ensures |NameLiteral(spaces, name)| == 6 + |spaces| + 1 + |name| + 2
  {
  }

  /** `re.findall`: the names of all non-overlapping matches, left to
      right. */
  function FindAllNames(s: string): (names: seq<string>)
    ensures forall i :: 0 <= i < |names| ==> |names[i]| > 0 && AllIn(names[i], NotQuote)
    decreases |s|
  {
    if |s| == 0 then []
    else
      match NameAt(s)
      case Some((name, len)) => NameAtShape(s); [name] + FindAllNames(s[len..])
      case None => FindAllNames(s[1..])
  }

  /** A name literal is returned, followed by the names after it. */
  lemma FindAllNamesLiteral(spaces: string, name: string, rest: string)
    requires AllIn(spaces, Space)
    requires |name| > 0 && AllIn(name, NotQuote)
    ensures FindAllNames(NameLiteral(spaces, name) + rest) == [name] + FindAllNames(rest)
  {
    var lit := NameLiteral(spaces, name);
    NameAtLiteral(spaces, name, rest);
    DropPrefix(lit, rest);
  }

  /** Text that does not contain `{name:` yields no name... */
  lemma {:induction false} FindAllNamesNone(s: string)
    requires !Contains(s, "{name:")
    ensures FindAllNames(s) == []
    decreases |s|
  {
    if |s| > 0 {
      assert NameAt(s).None?;
      FindAllNamesNone(s[1..]);
    }
  }

  /** ...and is skipped before a name literal. */
  lemma {:induction false} FindAllNamesSkip(p: string, r: string)
    requires !Contains(p, "{name:") && "{name:" <= r
    ensures FindAllNames(p + r) == FindAllNames(r)
    decreases |p|
  {
    if |p| > 0 {
      var s := p + r;
      NoEarlyStart(p, "{name:", r);
      assert NameAt(s).None?;
      assert s[1..] == p[1..] + r;
      FindAllNamesSkip(p[1..], r);
    } else {
      assert p + r == r;
    }
  }

  /** A `MATCH` line with two name literals, and no other `{name:`, yields
      the two names in order. */
  lemma MatchLineNames(p: string, sp1: string, a: string, mid: string, sp2: string, b: string, tail: string)
    requires !Contains(p, "{name:") && !Contains(mid, "{name:") && !Contains(tail, "{name:")
    requires AllIn(sp1, Space) && AllIn(sp2, Space)
    requires |a| > 0 && AllIn(a, NotQuote) && |b| > 0 && AllIn(b, NotQuote)
    ensures FindAllNames(p + (NameLiteral(sp1, a) + (mid + (NameLiteral(sp2, b) + tail)))) == [a, b]
  {
    var second := NameLiteral(sp2, b) + tail;
    var first := NameLiteral(sp1, a) + (mid + second);
    FindAllNamesNone(tail);
    FindAllNamesLiteral(sp2, b, tail);
    FindAllNamesSkip(mid, second);
    FindAllNamesLiteral(sp1, a, mid + second);
    FindAllNamesSkip(p, first);
  }

  /** Such a line arms the pending pair with the two names, source first. */
  lemma MatchLineArms(st: Reader, p: string, sp1: string, a: string, mid: string, sp2: string, b: string, tail: string)
    requires "MATCH" <= p
    requires !Contains(p, "{name:") && !Contains(mid, "{name:") && !Contains(tail, "{name:")
    requires AllIn(sp1, Space) && AllIn(sp2, Space)
    requires |a| > 0 && AllIn(a, NotQuote) && |b| > 0 && AllIn(b, NotQuote)
    ensures Step(st, p + (NameLiteral(sp1, a) + (mid + (NameLiteral(sp2, b) + tail)))).pending == Some((a, b))
  {
    var first := NameLiteral(sp1, a) + (mid + (NameLiteral(sp2, b) + tail));
    var line := p + first;
    MatchLineNames(p, sp1, a, mid, sp2, b, tail);
    assert "MATCH" <= line by { DropPrefix(p, first); }
    assert !NodeLine(line) by { assert line[0] == 'M'; }
    assert Contains(line, "{name:") by {
      DropPrefix(p, first);
      ContainsAt(line, "{name:", |p|);
    }
    MatchLineEffect(st, line);
  }

  // weight:\s*(\d+)   the first match; its digits read as an integer

  function WeightAt(s: string): Option<nat> {
    if !("weight:" <= s) then None
    else
      var v := s[7..];
      var w := v[ClassRun(v, Space)..];
      var d := ClassRun(w, Digit);
      ClassRunInside(w, Digit);
      if d == 0 then None else Some(DigitsValue(w[..d]))
  }

  function SearchWeight(s: string): Option<nat>
    decreases |s|
  {
    if WeightAt(s).Some? then WeightAt(s)
    else if |s| == 0 then None
    else SearchWeight(s[1..])
  }

  /** `int(m.group(1)) if m else 1`. */
  function EdgeWeight(line: string): (w: nat)
    ensures SearchWeight(line).None? ==> w == 1
    ensures SearchWeight(line).Some? ==> w == SearchWeight(line).value
  {
    match SearchWeight(line)
    case Some(v) => v
    case None => 1
  }

  /** `weight:`, spacing and a digit run read back as the run's value. */
  lemma WeightAtLiteral(spaces: string, ds: string, rest: string)
    requires AllIn(spaces, Space)
    requires |ds| > 0 && AllIn(ds, Digit)
    requires |rest| == 0 || !IsDigit(rest[0])
    ensures WeightAt("weight:" + (spaces + (ds + rest))) == Some(DigitsValue(ds))
  {
    var w := ds + rest;
    var v := spaces + w;
    var s := "weight:" + v;
    assert "weight:" <= s && s[7..] == v by { DropPrefix("weight:", v); }
    assert !IsSpace(w[0]) by { assert IsDigit(w[0]); }
    assert ClassRun(v, Space) == |spaces| by { ClassRunOfRun(spaces, w, Space); }
    assert v[|spaces|..] == w by { DropPrefix(spaces, w); }
    assert ClassRun(w, Digit) == |ds| by { ClassRunOfRun(ds, rest, Digit); }
    assert w[..|ds|] == ds by { DropPrefix(ds, rest); }
  }

  /** `re.search` takes the first `weight:` of the line. */
  lemma {:induction false} SearchWeightAfter(p: string, spaces: string, ds: string, rest: string)
    requires !Contains(p, "weight:")
    requires AllIn(spaces, Space)
    requires |ds| > 0 && AllIn(ds, Digit)
    requires |rest| == 0 || !IsDigit(rest[0])
    ensures SearchWeight(p + ("weight:" + (spaces + (ds + rest)))) == Some(DigitsValue(ds))
    decreases |p|
  {
    var r := "weight:" + (spaces + (ds + rest));
    var s := p + r;
    if |p| == 0 {
      assert s == r;
      WeightAtLiteral(spaces, ds, rest);
    } else {
      assert "weight:" <= r;
      NoEarlyStart(p, "weight:", r);
      assert WeightAt(s).None?;
      assert s[1..] == p[1..] + r;
      SearchWeightAfter(p[1..], spaces, ds, rest);
    }
  }

  /** A line without `weight:` has no match. */
  lemma {:induction false} SearchWeightNone(s: string)
    requires !Contains(s, "weight:")
    ensures SearchWeight(s).None?
    decreases |s|
  {
    if |s| > 0 {
      assert WeightAt(s).None?;
      SearchWeightNone(s[1..]);
    }
  }

  /** A relationship line carrying `weight: N` weighs N... */
  lemma EdgeWeightOf(p: string, spaces: string, ds: string, rest: string)
    requires !Contains(p, "weight:")
    requires AllIn(spaces, Space)
    requires |ds| > 0 && AllIn(ds, Digit)
    requires |rest| == 0 || !IsDigit(rest[0])
    ensures EdgeWeight(p + ("weight:" + (spaces + (ds + rest)))) == DigitsValue(ds)
  {
    SearchWeightAfter(p, spaces, ds, rest);
  }

  /** ...and one without `weight:` weighs 1. */
  lemma EdgeWeightDefault(line: string)
    requires !Contains(line, "weight:")
    ensures EdgeWeight(line) == 1
  {
    SearchWeightNone(line);
  }

  // The line state machine.

  datatype Edge = Edge(source: string, target: string, weight: nat)

  /** The reader's state: the name-to-label table, the edges so far, and
      the pending (current_source, current_target) pair. */
  datatype Reader = Reader(nodes: OrderedDict.Dict<string, string>, edges: seq<Edge>, pending: Option<(string, string)>)

  const Start: Reader := Reader([], [], None)

  /** `current_source and current_target`. */
  predicate Armed(p: Option<(string, string)>) {
    p.Some? && p.value.0 != "" && p.value.1 != ""
  }

  predicate NodeLine(line: string) {
    "CREATE (" <= line && Contains(line, "name:")
  }

  predicate MatchLine(line: string) {
    "MATCH" <= line && Contains(line, "{name:")
  }

  /** A relationship line: taken only when a pair is pending. */
  predicate RelLine(line: string) {
    "CREATE" <= line
  }

  /** One iteration of the loop body on a line already stripped. */
  function Step(st: Reader, line: string): (r: Reader)
    ensures st.edges <= r.edges && |r.edges| <= |st.edges| + 1
  {
    if NodeLine(line) then
      match SearchNode(line)
      case Some((lab, name)) =>
        st.(nodes := OrderedDict.Put(st.nodes, name, lab))
      case None => st
    else if MatchLine(line) then
      var names := FindAllNames(line);
      if |names| == 2 then st.(pending := Some((names[0], names[1])))
      else st.(pending := None)
    else if RelLine(line) && Armed(st.pending) then
      Reader(st.nodes, st.edges + [Edge(st.pending.value.0, st.pending.value.1, EdgeWeight(line))], None)
    else st
  }

  /** `for line in f: line = line.strip(); ...` for one raw line. */
  function ReadLine(st: Reader, raw: string): (r: Reader)
    ensures st.edges <= r.edges && |r.edges| <= |st.edges| + 1
  {
    Step(st, Strip(raw))
  }

  /** The node table never holds a name twice. */
  lemma ReadLineKeepsUnique(st: Reader, raw: string)
    requires OrderedDict.UniqueKeys(st.nodes)
    ensures OrderedDict.UniqueKeys(ReadLine(st, raw).nodes)
  {
    var line := Strip(raw);
    if NodeLine(line) && SearchNode(line).Some? {
      var (lab, name) := SearchNode(line).value;
      OrderedDict.PutKeepsUnique(st.nodes, name, lab);
    }
  }

  /** A node definition records its name with its label (a repeated name
      overwrites the label in place) and never emits an edge or touches the
      pending pair, whatever is pending. */
  lemma NodeLineEffect(st: Reader, line: string)
    requires NodeLine(line)
    ensures var r := Step(st, line);
      && r.edges == st.edges && r.pending == st.pending
      && (SearchNode(line).None? ==> r.nodes == st.nodes)
      && (SearchNode(line).Some? ==>
            var (lab, name) := SearchNode(line).value;
            && OrderedDict.Get(r.nodes, name) == Some(lab)
            && (forall k :: k != name ==> OrderedDict.Get(r.nodes, k) == OrderedDict.Get(st.nodes, k))
            && (name in OrderedDict.Keys(st.nodes) ==> OrderedDict.Keys(r.nodes) == OrderedDict.Keys(st.nodes))
            && (name !in OrderedDict.Keys(st.nodes) ==> OrderedDict.Keys(r.nodes) == OrderedDict.Keys(st.nodes) + [name]))
  {
  }

  /** A `MATCH` line naming exactly two nodes arms the pair (source first);
      any other `MATCH` line with a name clears it. */
  lemma MatchLineEffect(st: Reader, line: string)
    requires !NodeLine(line) && MatchLine(line)
    ensures var r := Step(st, line);
      && r.nodes == st.nodes && r.edges == st.edges
      && (r.pending.Some? <==> |FindAllNames(line)| == 2)
      && (r.pending.Some? ==> r.pending.value == (FindAllNames(line)[0], FindAllNames(line)[1]))
  {
  }

  /** A `CREATE` line with a pair pending emits exactly one edge from it, in
      the pair's direction, and clears the pair. */
  lemma RelLineEffect(st: Reader, line: string)
    requires !NodeLine(line) && !MatchLine(line) && RelLine(line) && Armed(st.pending)
    ensures var r := Step(st, line);
      && r.nodes == st.nodes && r.pending.None?
      && r.edges == st.edges + [Edge(st.pending.value.0, st.pending.value.1, EdgeWeight(line))]
  {
  }

  /** Every other line changes nothing. */
  lemma OtherLineEffect(st: Reader, line: string)
    requires !NodeLine(line) && !MatchLine(line) && !(RelLine(line) && Armed(st.pending))
    ensures Step(st, line) == st
  {
  }

  /** A pending pair only ever holds names the pattern captured, so it is
      armed exactly when present. */
  predicate PendingNamed(st: Reader) {
    st.pending.Some? ==> Armed(st.pending)
  }

  lemma ReadLineKeepsPendingNamed(st: Reader, raw: string)
    requires PendingNamed(st)
    ensures PendingNamed(ReadLine(st, raw))
  {
  }

  /** Each line is stripped before any test: surrounding whitespace never
      changes what a line does. */
  lemma StripFirst(st: Reader, raw: string)
    ensures ReadLine(st, raw) == ReadLine(st, Strip(raw))
  {
    StripStripped(Strip(raw));
  }

  /** The edge a line emits does not depend on the node table: edges are
      never checked against the defined nodes. */
  lemma EdgesIgnoreNodeTable(st: Reader, raw: string, table: OrderedDict.Dict<string, string>)
    ensures ReadLine(st.(nodes := table), raw).edges == ReadLine(st, raw).edges
    ensures ReadLine(st.(nodes := table), raw).pending == ReadLine(st, raw).pending
  {
    var line := Strip(raw);
    var st' := st.(nodes := table);
    if NodeLine(line) {
      assert Step(st, line).edges == st.edges && Step(st, line).pending == st.pending;
      assert Step(st', line).edges == st.edges && Step(st', line).pending == st.pending;
    } else if MatchLine(line) {
      assert Step(st', line) == Step(st, line).(nodes := table);
    } else if RelLine(line) && Armed(st.pending) {
      assert Step(st', line) == Step(st, line).(nodes := table);
    } else {
      assert Step(st', line) == st' && Step(st, line) == st;
    }
  }

  function ReadLines(st: Reader, lines: seq<string>): Reader
    decreases |lines|
  {
    if |lines| == 0 then st else ReadLines(ReadLine(st, lines[0]), lines[1..])
  }

  lemma {:induction false} ReadLinesSplit(st: Reader, a: seq<string>, b: seq<string>)
    ensures ReadLines(st, a + b) == ReadLines(ReadLines(st, a), b)
    decreases |a|
  {
    if |a| == 0 {
      assert a + b == b;
    } else {
      assert (a + b)[1..] == a[1..] + b;
      ReadLinesSplit(ReadLine(st, a[0]), a[1..], b);
    }
  }

  /** Edges are only ever appended: the edges read from a prefix of the
      file are a prefix of the edges read from the whole file. */
  lemma {:induction false} EdgesAppendOnly(st: Reader, lines: seq<string>)
    ensures st.edges <= ReadLines(st, lines).edges
    decreases |lines|
  {
    if |lines| > 0 {
      var st' := ReadLine(st, lines[0]);
      EdgesAppendOnly(st', lines[1..]);
    }
  }

  /** Lines that arm a pending pair. */
  function ArmingLines(lines: seq<string>): nat
    decreases |lines|
  {
    if |lines| == 0 then 0
    else
      var line := Strip(lines[0]);
      (if !NodeLine(line) && MatchLine(line) && |FindAllNames(line)| == 2 then 1 else 0)
      + ArmingLines(lines[1..])
  }

  function PendingCount(st: Reader): nat {
    if Armed(st.pending) then 1 else 0
  }

  /** Each `MATCH` line yields at most one edge: edges added never exceed
      the pairs armed. */
  lemma {:induction false} AtMostOneEdgePerMatch(st: Reader, lines: seq<string>)
    requires PendingNamed(st)
    ensures var r := ReadLines(st, lines);
      |r.edges| + PendingCount(r) <= |st.edges| + PendingCount(st) + ArmingLines(lines)
    decreases |lines|
  {
    if |lines| > 0 {
      var st' := ReadLine(st, lines[0]);
      ReadLineKeepsPendingNamed(st, lines[0]);
      var line := Strip(lines[0]);
      if NodeLine(line) {
        NodeLineEffect(st, line);
      } else if MatchLine(line) {
        MatchLineEffect(st, line);
      } else if RelLine(line) && Armed(st.pending) {
        RelLineEffect(st, line);
      } else {
        OtherLineEffect(st, line);
      }
      AtMostOneEdgePerMatch(st', lines[1..]);
    }
  }

  lemma {:induction false} ReadLinesKeepsUnique(st: Reader, lines: seq<string>)
    requires OrderedDict.UniqueKeys(st.nodes)
    ensures OrderedDict.UniqueKeys(ReadLines(st, lines).nodes)
    decreases |lines|
  {
    if |lines| > 0 {
      ReadLineKeepsUnique(st, lines[0]);
      ReadLinesKeepsUnique(ReadLine(st, lines[0]), lines[1..]);
    }
  }

  /** Every edge joins two non-empty names. */
  predicate EdgesNamed(st: Reader) {
    forall e :: e in st.edges ==> e.source != "" && e.target != ""
  }

  /** An edge is only emitted for an armed pair, so edges always join the
      non-empty names a `MATCH` line captured. */
  lemma {:induction false} ReadLinesKeepsEdgesNamed(st: Reader, lines: seq<string>)
    requires PendingNamed(st) && EdgesNamed(st)
    ensures EdgesNamed(ReadLines(st, lines))
    decreases |lines|
  {
    if |lines| > 0 {
      var st' := ReadLine(st, lines[0]);
      ReadLineKeepsPendingNamed(st, lines[0]);
      assert EdgesNamed(st') by {
        var line := Strip(lines[0]);
        if !NodeLine(line) && !MatchLine(line) && RelLine(line) && Armed(st.pending) {
          assert st'.edges == st.edges + [Edge(st.pending.value.0, st.pending.value.1, EdgeWeight(line))];
        } else {
          assert st'.edges == st.edges;
        }
      }
      ReadLinesKeepsEdgesNamed(st', lines[1..]);
    }
  }

  /** The returned `{"nodes": ..., "links": ...}`. */
  function Export(st: Reader): (g: CF.Graph)
    ensures |g.nodes| == |st.nodes| && |g.links| == |st.edges|
    ensures forall i :: 0 <= i < |st.nodes| ==> g.nodes[i].id == st.nodes[i].0 && g.nodes[i].category == st.nodes[i].1
    ensures forall i :: 0 <= i < |st.edges| ==>
              g.links[i] == CF.Link(st.edges[i].source, st.edges[i].target, st.edges[i].weight, None)
  {
    CF.Graph(seq(|st.nodes|, i requires 0 <= i < |st.nodes| => CF.Node(st.nodes[i].0, st.nodes[i].1)),
             seq(|st.edges|, i requires 0 <= i < |st.edges| =>
               CF.Link(st.edges[i].source, st.edges[i].target, st.edges[i].weight, None)))
  }

  function ParseCypher(text: string): CF.Graph {
    Export(ReadLines(Start, SplitLines(text)))
  }

  /** The parsed graph names every node once, joins non-empty names by every
      link, and has no more links than `MATCH` lines that named a pair. */
  lemma ParseCypherShape(text: string)
    ensures var g := ParseCypher(text);
      && (forall i, j :: 0 <= i < j < |g.nodes| ==> g.nodes[i].id != g.nodes[j].id)
      && (forall l :: l in g.links ==> l.source != "" && l.target != "" && l.subjects.None?)
      && |g.links| <= ArmingLines(SplitLines(text))
  {
    var st := ReadLines(Start, SplitLines(text));
    ReadLinesKeepsUnique(Start, SplitLines(text));
    AtMostOneEdgePerMatch(Start, SplitLines(text));
    ReadLinesKeepsEdgesNamed(Start, SplitLines(text));
    var g := Export(st);
    forall l | l in g.links ensures l.source != "" && l.target != "" {
      var i :| 0 <= i < |g.links| && g.links[i] == l;
      assert st.edges[i] in st.edges;
    }
    forall i, j | 0 <= i < j < |g.nodes| ensures g.nodes[i].id != g.nodes[j].id {
      assert OrderedDict.Keys(st.nodes)[i] != OrderedDict.Keys(st.nodes)[j];
    }
  }

  // The organisation filter of the graph endpoint.

  /** `if organization:` keep the links with the organisation at an end, and
      the nodes that are the organisation or an end of such a link. */
  function OrgFilter(g: CF.Graph, org: Option<string>): (r: CF.Graph)
    ensures Subseq(r.nodes, g.nodes) && Subseq(r.links, g.links)
    ensures !CF.Active(org) ==> r == g
    ensures CF.Active(org) ==> forall l :: multiset(r.links)[l] == if CF.Touches(l, org.value) then multiset(g.links)[l] else 0
    ensures CF.Active(org) ==>
              forall n :: multiset(r.nodes)[n]
                == if n.id == org.value || n.id in CF.Neighbourhood(g.links, org.value) then multiset(g.nodes)[n] else 0
  {
    if CF.Active(org) then
      var links := CF.KeepLinks(g.links, CF.TouchesId(org.value));
      var ids := {org.value} + CF.Endpoints(links);
      assert forall id :: id in ids <==> id == org.value || id in CF.Neighbourhood(g.links, org.value) by {
        forall id | id in CF.Neighbourhood(g.links, org.value) ensures id in CF.Endpoints(links) {
          var l :| l in g.links && CF.Touches(l, org.value) && CF.Touches(l, id);
          assert multiset(links)[l] > 0;
        }
        forall id | id in CF.Endpoints(links) ensures id in CF.Neighbourhood(g.links, org.value) {
          var l :| l in links && CF.Touches(l, id);
          assert multiset(links)[l] > 0;
        }
      }
      CF.Graph(CF.KeepNodes(g.nodes, ids), links)
    else
      SubseqRefl(g.nodes);
      SubseqRefl(g.links);
      g
  }

  /** Every link the server keeps for an organisation is also kept by the
      browser's organisation step on the full graph. */
  lemma ServerLinksWithinClientOrgStep(g: CF.Graph, org: string)
    requires org != ""
    ensures forall l :: multiset(OrgFilter(g, Some(org)).links)[l] <= multiset(CF.OrgStep(g, Some(org)).links)[l]
  {
    var s := OrgFilter(g, Some(org));
    forall l ensures multiset(s.links)[l] <= multiset(CF.OrgStep(g, Some(org)).links)[l] {
      if multiset(s.links)[l] > 0 {
        assert multiset(g.links)[l] > 0 && CF.Touches(l, org);
        TouchingLinkInNeighbourhood(g.links, org, l);
      }
    }
  }

  /** A link at the organisation has both ends in its neighbourhood. */
  lemma TouchingLinkInNeighbourhood(links: seq<CF.Link>, org: string, l: CF.Link)
    requires l in links && CF.Touches(l, org)
    ensures CF.Passes(l, CF.BothIn(CF.Neighbourhood(links, org)))
  {
    assert CF.Touches(l, l.source) && CF.Touches(l, l.target);
  }


  /** Selecting the same organisation in the browser after the server has
      filtered for it keeps every link the server sent. */
  lemma ClientOrgStepAfterServer(g: CF.Graph, org: string)
    requires org != ""
    ensures var s := OrgFilter(g, Some(org));
      CF.OrgStep(s, Some(org)).links == s.links
  {
    var s := OrgFilter(g, Some(org));
    var hood := CF.Neighbourhood(s.links, org);
    forall l | l in s.links ensures CF.Passes(l, CF.BothIn(hood)) {
      assert multiset(s.links)[l] > 0;
      TouchingLinkInNeighbourhood(s.links, org, l);
    }
    CF.KeepLinksAllPass(s.links, CF.BothIn(hood));
  }
}
