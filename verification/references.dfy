/** Which article-to-article REFERENCES edges app/utils/dbop.py creates
    (`init_references_rel`). Articles come in id order with their publish
    dates; the similarity matrix is an input (its computation is not part
    of this model). Every ordered pair of distinct articles is visited row
    by row; an edge i -> j is created when the similarity is strictly above
    the threshold and article i was published strictly later than j. A
    missing date met in that comparison raises, and the edges created so
    far stay in the database. */
module References {
  import opened Common

  /** `preliminary.SIM_THRESHOLD`. */
  const Threshold: real := 0.5

  /** The query result (`ORDER BY a.id`) and the matrix; a date is None
      when the database holds none. */
  datatype Articles = Articles(ids: seq<int>, dates: seq<Option<Date>>, sim: seq<seq<real>>)

  /** The loop reads row i of the matrix for article i: one row, one date
      and one id per article, and a square matrix. */
  predicate Consistent(a: Articles) {
    |a.ids| == |a.sim| && |a.dates| == |a.sim|
    && forall i :: 0 <= i < |a.sim| ==> |a.sim[i]| == |a.sim|
  }

  /** A created edge; the source writes the similarity rounded to four
      places. */
  datatype Reference = Reference(from: int, to: int, similarity: real)

  /** What the loop body does for one ordered pair. */
  datatype Outcome = Skip | Emit | Fail

  function PairOutcome(a: Articles, i: nat, j: nat): Outcome
    requires Consistent(a) && i < |a.sim| && j < |a.sim|
  {
    if i == j then Skip
    else if !(a.sim[i][j] > Threshold) then Skip
    else if a.dates[i].None? || a.dates[j].None? then Fail
    else if Before(a.dates[j].value, a.dates[i].value) then Emit
    else Skip
  }

  /** An edge i -> j is wanted: distinct articles, similar enough, i
      strictly newer. */
  predicate Qualifies(a: Articles, i: nat, j: nat)
    requires Consistent(a) && i < |a.sim| && j < |a.sim|
  {
    i != j && a.sim[i][j] > Threshold
    && a.dates[i].Some? && a.dates[j].Some? && Before(a.dates[j].value, a.dates[i].value)
  }

  /** The comparison of dates raises: similar enough, a date missing. */
  predicate Raises(a: Articles, i: nat, j: nat)
    requires Consistent(a) && i < |a.sim| && j < |a.sim|
  {
    i != j && a.sim[i][j] > Threshold && (a.dates[i].None? || a.dates[j].None?)
  }

  /** The chosen index pairs in visiting order, and where it raised. */
  datatype Trace = Trace(pairs: seq<(nat, nat)>, stop: Option<(nat, nat)>)

  function Visit(t: Trace, a: Articles, i: nat, j: nat): Trace
    requires Consistent(a) && i < |a.sim| && j < |a.sim|
  {
    match PairOutcome(a, i, j)
    case Skip => t
    case Emit => t.(pairs := t.pairs + [(i, j)])
    case Fail => t.(stop := Some((i, j)))
  }

  predicate InBounds(a: Articles, ps: seq<(nat, nat)>) {
    forall k :: 0 <= k < |ps| ==> ps[k].0 < |a.sim| && ps[k].1 < |a.sim|
  }

  /** The first `j` pairs of row `i`. */
  function RowTrace(a: Articles, i: nat, j: nat): (t: Trace)
    requires Consistent(a) && i < |a.sim| && j <= |a.sim|
    ensures InBounds(a, t.pairs)
    ensures forall k :: 0 <= k < |t.pairs| ==> t.pairs[k].0 == i && t.pairs[k].1 < j
    ensures t.stop.Some? ==> t.stop.value.0 == i && t.stop.value.1 < j
    decreases j
  {
    if j == 0 then Trace([], None)
    else
      var t := RowTrace(a, i, j - 1);
      if t.stop.Some? then t else Visit(t, a, i, j - 1)
  }

  /** The first `i` rows. */
  function RowsTrace(a: Articles, i: nat): (t: Trace)
    requires Consistent(a) && i <= |a.sim|
    ensures InBounds(a, t.pairs)
    ensures forall k :: 0 <= k < |t.pairs| ==> t.pairs[k].0 < i
    ensures t.stop.Some? ==> t.stop.value.0 < i && t.stop.value.1 < |a.sim|
    decreases i
  {
    if i == 0 then Trace([], None)
    else
      var t := RowsTrace(a, i - 1);
      if t.stop.Some? then t
      else
        var r := RowTrace(a, i - 1, |a.sim|);
        Trace(t.pairs + r.pairs, r.stop)
  }

  function Selection(a: Articles): Trace
    requires Consistent(a)
  {
    RowsTrace(a, |a.sim|)
  }

  function EdgeOf(a: Articles, p: (nat, nat)): Reference
    requires Consistent(a) && p.0 < |a.sim| && p.1 < |a.sim|
  {
    Reference(a.ids[p.0], a.ids[p.1], a.sim[p.0][p.1])
  }

  function EdgesOf(a: Articles, ps: seq<(nat, nat)>): (es: seq<Reference>)
    requires Consistent(a) && InBounds(a, ps)
    ensures |es| == |ps|
    ensures forall k :: 0 <= k < |ps| ==> es[k] == EdgeOf(a, ps[k])
  {
    seq(|ps|, k requires 0 <= k < |ps| => EdgeOf(a, ps[k]))
  }

  // Once the loop raises, nothing more happens.

  lemma {:induction false} RowTraceStops(a: Articles, i: nat, j: nat, j': nat)
    requires Consistent(a) && i < |a.sim| && j <= j' <= |a.sim|
    requires RowTrace(a, i, j).stop.Some?
    ensures RowTrace(a, i, j') == RowTrace(a, i, j)
    decreases j'
  {
    if j' > j {
      RowTraceStops(a, i, j, j' - 1);
    }
  }

  lemma {:induction false} RowsTraceStops(a: Articles, i: nat, i': nat)
    requires Consistent(a) && i <= i' <= |a.sim|
    requires RowsTrace(a, i).stop.Some?
    ensures RowsTrace(a, i') == RowsTrace(a, i)
    decreases i'
  {
    if i' > i {
      RowsTraceStops(a, i, i' - 1);
    }
  }

  /** `edges` are the edges of the index pairs `ps`, in the same order. */
  predicate EdgesFor(a: Articles, edges: seq<Reference>, ps: seq<(nat, nat)>)
    requires Consistent(a) && InBounds(a, ps)
  {
    |edges| == |ps| && forall k :: 0 <= k < |ps| ==> edges[k] == EdgeOf(a, ps[k])
  }

  /** Appending one chosen pair appends its edge. */
  lemma EdgesSnoc(a: Articles, edges: seq<Reference>, done: seq<(nat, nat)>, row: seq<(nat, nat)>, p: (nat, nat))
    requires Consistent(a) && p.0 < |a.sim| && p.1 < |a.sim|
    requires InBounds(a, done + row) && EdgesFor(a, edges, done + row)
    ensures InBounds(a, done + (row + [p]))
    ensures EdgesFor(a, edges + [EdgeOf(a, p)], done + (row + [p]))
  {
    assert done + (row + [p]) == (done + row) + [p];
  }

  /** One column of a row that has not raised, by the pair's outcome. */
  lemma RowPairsStep(a: Articles, i: nat, j: nat)
    requires Consistent(a) && i < |a.sim| && j < |a.sim|
    requires RowTrace(a, i, j).stop.None?
    ensures RowTrace(a, i, j + 1).pairs
            == if PairOutcome(a, i, j) == Emit then RowTrace(a, i, j).pairs + [(i, j)] else RowTrace(a, i, j).pairs
    ensures RowTrace(a, i, j + 1).stop == if PairOutcome(a, i, j) == Fail then Some((i, j)) else None
  {
  }


  lemma RowsStep(a: Articles, i: nat)
    requires Consistent(a) && i < |a.sim|
    requires RowsTrace(a, i).stop.None?
    ensures RowsTrace(a, i + 1)
              == Trace(RowsTrace(a, i).pairs + RowTrace(a, i, |a.sim|).pairs, RowTrace(a, i, |a.sim|).stop)
  {
  }

  /** `init_references_rel`'s double loop: the edges it creates, in
      creation order, and the pair at which it raised, if it did. */
  method SelectReferences(a: Articles) returns (edges: seq<Reference>, stop: Option<(nat, nat)>)
    requires Consistent(a)
    ensures EdgesFor(a, edges, Selection(a).pairs)
    ensures stop == Selection(a).stop
  {
    var n := |a.sim|;
    edges := [];
    var i := 0;
    while i < n
      invariant 0 <= i <= n
      invariant RowsTrace(a, i).stop.None?
      invariant EdgesFor(a, edges, RowsTrace(a, i).pairs)
    {
      RowsStep(a, i);
      edges, stop := VisitRow(a, i, RowsTrace(a, i).pairs, edges);
      if stop.Some? {
        RowsTraceStops(a, i + 1, n);
        return;
      }
      i := i + 1;
    }
    stop := None;
  }

  /** The inner loop over row `i`, appending to the edges of the rows
      before it. */
  method VisitRow(a: Articles, i: nat, ghost done: seq<(nat, nat)>, edges0: seq<Reference>)
    returns (edges: seq<Reference>, stop: Option<(nat, nat)>)
    requires Consistent(a) && i < |a.sim|
    requires InBounds(a, done) && EdgesFor(a, edges0, done)
    ensures InBounds(a, done + RowTrace(a, i, |a.sim|).pairs)
    ensures EdgesFor(a, edges, done + RowTrace(a, i, |a.sim|).pairs)
    ensures stop == RowTrace(a, i, |a.sim|).stop
  {
    var n := |a.sim|;
    edges := edges0;
    var j := 0;
    while j < n
      invariant 0 <= j <= n
      invariant RowTrace(a, i, j).stop.None?
      invariant InBounds(a, done + RowTrace(a, i, j).pairs)
      invariant EdgesFor(a, edges, done + RowTrace(a, i, j).pairs)
    {
      var failed;
      edges, failed := VisitPair(a, i, j, done, edges);
      if failed {
        RowTraceStops(a, i, j + 1, n);
        return edges, Some((i, j));
      }
      j := j + 1;
    }
    stop := None;
  }

  /** The loop body for the pair `(i, j)`: append its edge if it is
      wanted, or report that the date comparison raised. */
  method VisitPair(a: Articles, i: nat, j: nat, ghost done: seq<(nat, nat)>, edges0: seq<Reference>)
    returns (edges: seq<Reference>, failed: bool)
    requires Consistent(a) && i < |a.sim| && j < |a.sim|
    requires RowTrace(a, i, j).stop.None?
    requires InBounds(a, done + RowTrace(a, i, j).pairs) && EdgesFor(a, edges0, done + RowTrace(a, i, j).pairs)
    ensures failed <==> Raises(a, i, j)
    ensures RowTrace(a, i, j + 1).stop == if failed then Some((i, j)) else None
    ensures InBounds(a, done + RowTrace(a, i, j + 1).pairs)
    ensures EdgesFor(a, edges, done + RowTrace(a, i, j + 1).pairs)
  {
    RowPairsStep(a, i, j);
    OutcomeMeaning(a, i, j);
    edges, failed := edges0, false;
    if i != j {
      var sim := a.sim[i][j];
      if sim > Threshold {
        if a.dates[i].None? || a.dates[j].None? {
          return edges, true;
        }
        if Before(a.dates[j].value, a.dates[i].value) {
          EdgesSnoc(a, edges, done, RowTrace(a, i, j).pairs, (i, j));
          edges := edges + [Reference(a.ids[i], a.ids[j], sim)];
        }
      }
    }
  }

  // Properties of the selection.

  /** Lexicographic order on index pairs: the visiting order. */
  predicate LexLess(p: (nat, nat), q: (nat, nat)) {
    p.0 < q.0 || (p.0 == q.0 && p.1 < q.1)
  }

  ghost predicate SoundPairs(a: Articles, ps: seq<(nat, nat)>)
    requires Consistent(a) && InBounds(a, ps)
  {
    forall k :: 0 <= k < |ps| ==> Qualifies(a, ps[k].0, ps[k].1)
  }

  ghost predicate Increasing(ps: seq<(nat, nat)>) {
    forall k, l :: 0 <= k < l < |ps| ==> LexLess(ps[k], ps[l])
  }

  /** What the loop body's branches mean. */
  lemma OutcomeMeaning(a: Articles, i: nat, j: nat)
    requires Consistent(a) && i < |a.sim| && j < |a.sim|
    ensures PairOutcome(a, i, j) == Emit <==> Qualifies(a, i, j)
    ensures PairOutcome(a, i, j) == Fail <==> Raises(a, i, j)
  {
  }

  lemma {:induction false} RowSound(a: Articles, i: nat, j: nat)
    requires Consistent(a) && i < |a.sim| && j <= |a.sim|
    ensures SoundPairs(a, RowTrace(a, i, j).pairs)
    decreases j
  {
    if j > 0 {
      RowSound(a, i, j - 1);
      OutcomeMeaning(a, i, j - 1);
    }
  }

  lemma {:induction false} RowIncreasing(a: Articles, i: nat, j: nat)
    requires Consistent(a) && i < |a.sim| && j <= |a.sim|
    ensures Increasing(RowTrace(a, i, j).pairs)
    decreases j
  {
    if j > 0 {
      RowIncreasing(a, i, j - 1);
      RowIncreasingStep(a, i, j - 1);
    }
  }

  /** One more column keeps a row's chosen pairs increasing. */
  lemma RowIncreasingStep(a: Articles, i: nat, j: nat)
    requires Consistent(a) && i < |a.sim| && j < |a.sim|
    requires Increasing(RowTrace(a, i, j).pairs)
    ensures Increasing(RowTrace(a, i, j + 1).pairs)
  {
    var t := RowTrace(a, i, j);
    if t.stop.None? {
      RowPairsStep(a, i, j);
      if PairOutcome(a, i, j) == Emit {
        IncreasingSnoc(t.pairs, (i, j));
      }
    }
  }

  /** A pair after every earlier one in its row extends an increasing run. */
  lemma IncreasingSnoc(ps: seq<(nat, nat)>, x: (nat, nat))
    requires Increasing(ps)
    requires forall k :: 0 <= k < |ps| ==> ps[k].0 == x.0 && ps[k].1 < x.1
    ensures Increasing(ps + [x])
  {
    var qs := ps + [x];
    forall k, l | 0 <= k < l < |qs| ensures LexLess(qs[k], qs[l]) {
      if l == |ps| {
        assert qs[k] == ps[k];
      } else {
        assert qs[k] == ps[k] && qs[l] == ps[l];
      }
    }
  }

  /** An increasing run of earlier rows followed by one of a later row is
      increasing. */
  lemma IncreasingConcat(ps: seq<(nat, nat)>, qs: seq<(nat, nat)>, row: nat)
    requires Increasing(ps) && Increasing(qs)
    requires forall k :: 0 <= k < |ps| ==> ps[k].0 < row
    requires forall k :: 0 <= k < |qs| ==> qs[k].0 == row
    ensures Increasing(ps + qs)
  {
    var rs := ps + qs;
    forall k, l | 0 <= k < l < |rs| ensures LexLess(rs[k], rs[l]) {
      if l < |ps| {
        assert rs[k] == ps[k] && rs[l] == ps[l];
      } else if k >= |ps| {
        assert rs[k] == qs[k - |ps|] && rs[l] == qs[l - |ps|];
      } else {
        assert rs[k] == ps[k] && rs[l] == qs[l - |ps|];
      }
    }
  }

  lemma {:induction false} RowStopRaises(a: Articles, i: nat, j: nat)
    requires Consistent(a) && i < |a.sim| && j <= |a.sim|
    ensures RowTrace(a, i, j).stop.Some? ==> Raises(a, i, RowTrace(a, i, j).stop.value.1)
    decreases j
  {
    if j > 0 {
      RowStopRaises(a, i, j - 1);
      OutcomeMeaning(a, i, j - 1);
    }
  }

  /** Every created edge is wanted: distinct articles, similarity strictly
      above 0.5, the source strictly newer than the target. Edges come in
      visiting order, so no ordered pair gets two edges. */
  lemma SelectionSound(a: Articles, i: nat)
    requires Consistent(a) && i <= |a.sim|
    ensures InBounds(a, RowsTrace(a, i).pairs)
    ensures SoundPairs(a, RowsTrace(a, i).pairs)
    ensures Increasing(RowsTrace(a, i).pairs)
  {
    RowsSound(a, i);
    RowsIncreasing(a, i);
  }

  lemma {:induction false} RowsSound(a: Articles, i: nat)
    requires Consistent(a) && i <= |a.sim|
    ensures SoundPairs(a, RowsTrace(a, i).pairs)
    decreases i
  {
    if i > 0 {
      RowsSound(a, i - 1);
      RowSound(a, i - 1, |a.sim|);
    }
  }

  lemma {:induction false} RowsIncreasing(a: Articles, i: nat)
    requires Consistent(a) && i <= |a.sim|
    ensures Increasing(RowsTrace(a, i).pairs)
    decreases i
  {
    if i > 0 {
      var t := RowsTrace(a, i - 1);
      if t.stop.None? {
        var r := RowTrace(a, i - 1, |a.sim|);
        assert Increasing(t.pairs + r.pairs) by {
          RowsIncreasing(a, i - 1);
          RowIncreasing(a, i - 1, |a.sim|);
          IncreasingConcat(t.pairs, r.pairs, i - 1);
        }
        RowsStep(a, i - 1);
      } else {
        RowsIncreasing(a, i - 1);
      }
    }
  }

  /** No pair in the first `i` rows raises. */
  ghost predicate NoRaiseInRows(a: Articles, i: nat)
    requires Consistent(a) && i <= |a.sim|
  {
    forall p, q :: 0 <= p < i && 0 <= q < |a.sim| ==> !Raises(a, p, q)
  }

  /** No pair of row `i` before column `c` raises. */
  ghost predicate RowQuietBefore(a: Articles, i: nat, c: nat)
    requires Consistent(a) && i < |a.sim| && c <= |a.sim|
  {
    forall q :: 0 <= q < c ==> !Raises(a, i, q)
  }

  /** No pair visited before `s` raises. */
  ghost predicate NoRaiseBefore(a: Articles, s: (nat, nat))
    requires Consistent(a)
  {
    forall p, q :: 0 <= p < |a.sim| && 0 <= q < |a.sim| && LexLess((p, q), s) ==> !Raises(a, p, q)
  }

  /** After the first `i` rows: if the loop raised, it was at a pair whose
      date comparison meets a missing date, and no pair visited before it
      raised; if not, no pair of those rows raises. */
  ghost predicate StopsAtFirstRaise(a: Articles, i: nat)
    requires Consistent(a) && i <= |a.sim|
  {
    && (RowsTrace(a, i).stop.Some? ==>
          var s := RowsTrace(a, i).stop.value;
          s.0 < |a.sim| && s.1 < |a.sim| && Raises(a, s.0, s.1) && NoRaiseBefore(a, s))
    && (RowsTrace(a, i).stop.None? ==> NoRaiseInRows(a, i))
  }

  /** Where the loop raised: a pair whose date comparison meets a missing
      date, and every pair visited before it raised nothing. */
  lemma {:induction false} StopIsFirstRaise(a: Articles, i: nat)
    requires Consistent(a) && i <= |a.sim|
    ensures StopsAtFirstRaise(a, i)
    decreases i
  {
    if i > 0 {
      StopIsFirstRaise(a, i - 1);
      FirstRaiseStep(a, i - 1);
    }
  }

  /** One more row keeps the property: a loop that had raised stays put;
      otherwise row `i` raises at its first raising pair, or all rows up to
      it stay quiet. */
  lemma FirstRaiseStep(a: Articles, i: nat)
    requires Consistent(a) && i < |a.sim|
    requires StopsAtFirstRaise(a, i)
    ensures StopsAtFirstRaise(a, i + 1)
  {
    if RowsTrace(a, i).stop.Some? {
      assert RowsTrace(a, i + 1) == RowsTrace(a, i);
    } else {
      RowsStep(a, i);
      RowStopRaises(a, i, |a.sim|);
      RowNoRaiseBefore(a, i, |a.sim|);
      var r := RowTrace(a, i, |a.sim|);
      if r.stop.Some? {
        RaiseInRow(a, i, r.stop.value.1);
      } else {
        NoRaiseInRow(a, i);
      }
    }
  }

  /** The rows before `i` raised nothing and row `i` nothing before column
      `c`: nothing before `(i, c)` raised. */
  lemma RaiseInRow(a: Articles, i: nat, c: nat)
    requires Consistent(a) && i < |a.sim| && c <= |a.sim|
    requires NoRaiseInRows(a, i)
    requires RowQuietBefore(a, i, c)
    ensures NoRaiseBefore(a, (i, c))
  {
  }

  lemma NoRaiseInRow(a: Articles, i: nat)
    requires Consistent(a) && i < |a.sim|
    requires NoRaiseInRows(a, i)
    requires RowQuietBefore(a, i, |a.sim|)
    ensures NoRaiseInRows(a, i + 1)
  {
  }

  lemma {:induction false} RowNoRaiseBefore(a: Articles, i: nat, j: nat)
    requires Consistent(a) && i < |a.sim| && j <= |a.sim|
    ensures RowTrace(a, i, j).stop.None? ==> RowQuietBefore(a, i, j)
    ensures RowTrace(a, i, j).stop.Some? ==> RowQuietBefore(a, i, RowTrace(a, i, j).stop.value.1)
    decreases j
  {
    if j > 0 {
      RowNoRaiseBefore(a, i, j - 1);
      OutcomeMeaning(a, i, j - 1);
    }
  }

  /** Every wanted pair visited before the loop stopped has its edge. */
  lemma SelectionComplete(a: Articles, i: nat)
    requires Consistent(a) && i <= |a.sim|
    ensures forall p, q :: 0 <= p < i && 0 <= q < |a.sim| && Qualifies(a, p, q)
              && (RowsTrace(a, i).stop.None? || LexLess((p, q), RowsTrace(a, i).stop.value))
              ==> (p, q) in RowsTrace(a, i).pairs
  {
    forall p, q | 0 <= p < i && 0 <= q < |a.sim| && Qualifies(a, p, q)
                  && (RowsTrace(a, i).stop.None? || LexLess((p, q), RowsTrace(a, i).stop.value))
      ensures (p, q) in RowsTrace(a, i).pairs
    {
      RowsHave(a, i, p, q);
    }
  }

  /** One wanted pair, visited before the loop stopped, is chosen. */
  lemma RowsHave(a: Articles, i: nat, p: nat, q: nat)
    requires Consistent(a) && i <= |a.sim| && p < i && q < |a.sim| && Qualifies(a, p, q)
    requires RowsTrace(a, i).stop.None? || LexLess((p, q), RowsTrace(a, i).stop.value)
    ensures (p, q) in RowsTrace(a, i).pairs
  {
    var x := (p, q);
    assert x in RowsTrace(a, p + 1).pairs by {
      RowHasItsPair(a, i, p, q);
    }
    RowsKeeps(a, p + 1, i, x);
  }

  /** The row of a pair visited before the loop stopped chooses it. */
  lemma RowHasItsPair(a: Articles, i: nat, p: nat, q: nat)
    requires Consistent(a) && i <= |a.sim| && p < i && q < |a.sim| && Qualifies(a, p, q)
    requires RowsTrace(a, i).stop.None? || LexLess((p, q), RowsTrace(a, i).stop.value)
    ensures (p, q) in RowsTrace(a, p + 1).pairs
  {
    RowsNotYetStopped(a, i, p, q);
    RowsHaveAt(a, p, q);
  }

  /** A pair visited before the loop stopped was visited before the rows up
      to it stopped. */
  lemma RowsNotYetStopped(a: Articles, i: nat, p: nat, q: nat)
    requires Consistent(a) && p < i <= |a.sim|
    requires RowsTrace(a, i).stop.None? || LexLess((p, q), RowsTrace(a, i).stop.value)
    ensures RowsTrace(a, p).stop.None?
    ensures RowsTrace(a, p + 1).stop.None? || LexLess((p, q), RowsTrace(a, p + 1).stop.value)
  {
    if RowsTrace(a, p).stop.Some? {
      RowsTraceStops(a, p, i);
    }
    if RowsTrace(a, p + 1).stop.Some? {
      RowsTraceStops(a, p + 1, i);
    }
  }

  /** The row of a wanted pair chooses it, unless it raised first. */
  lemma RowsHaveAt(a: Articles, p: nat, q: nat)
    requires Consistent(a) && p < |a.sim| && q < |a.sim| && Qualifies(a, p, q)
    requires RowsTrace(a, p).stop.None?
    requires RowsTrace(a, p + 1).stop.None? || LexLess((p, q), RowsTrace(a, p + 1).stop.value)
    ensures (p, q) in RowsTrace(a, p + 1).pairs
  {
    RowsStep(a, p);
    var r := RowTrace(a, p, |a.sim|);
    RowHas(a, p, |a.sim|, q);
    assert (p, q) in RowsTrace(a, p).pairs + r.pairs;
  }

  /** Later rows only add chosen pairs. */
  lemma {:induction false} RowsKeeps(a: Articles, i: nat, i': nat, x: (nat, nat))
    requires Consistent(a) && i <= i' <= |a.sim|
    requires x in RowsTrace(a, i).pairs
    ensures x in RowsTrace(a, i').pairs
    decreases i'
  {
    if i' > i {
      RowsKeeps(a, i, i' - 1, x);
      var t := RowsTrace(a, i' - 1);
      if t.stop.None? {
        assert x in t.pairs + RowTrace(a, i' - 1, |a.sim|).pairs;
      }
    }
  }

  lemma RowHas(a: Articles, i: nat, j: nat, q: nat)
    requires Consistent(a) && i < |a.sim| && j <= |a.sim| && q < j && Qualifies(a, i, q)
    requires RowTrace(a, i, j).stop.None? || q < RowTrace(a, i, j).stop.value.1
    ensures (i, q) in RowTrace(a, i, j).pairs
  {
    var t := RowTrace(a, i, q);
    if t.stop.Some? {
      RowTraceStops(a, i, q, j);
      assert false;
    }
    OutcomeMeaning(a, i, q);
    assert (i, q) in RowTrace(a, i, q + 1).pairs;
    RowKeeps(a, i, q + 1, j, (i, q));
  }

  /** Later columns only add chosen pairs. */
  lemma {:induction false} RowKeeps(a: Articles, i: nat, j: nat, j': nat, x: (nat, nat))
    requires Consistent(a) && i < |a.sim| && j <= j' <= |a.sim|
    requires x in RowTrace(a, i, j).pairs
    ensures x in RowTrace(a, i, j').pairs
    decreases j'
  {
    if j' > j {
      RowKeeps(a, i, j, j' - 1, x);
    }
  }

  /** When no date is missing where it matters, the edges are exactly the
      wanted pairs. */
  lemma SelectionExact(a: Articles)
    requires Consistent(a)
    requires Selection(a).stop.None?
    ensures InBounds(a, Selection(a).pairs)
    ensures forall p, q :: 0 <= p < |a.sim| && 0 <= q < |a.sim| ==>
              ((p, q) in Selection(a).pairs <==> Qualifies(a, p, q))
  {
    SelectionSound(a, |a.sim|);
    SelectionComplete(a, |a.sim|);
    forall p, q | 0 <= p < |a.sim| && 0 <= q < |a.sim| && (p, q) in Selection(a).pairs
      ensures Qualifies(a, p, q)
    {
      var k :| 0 <= k < |Selection(a).pairs| && Selection(a).pairs[k] == (p, q);
    }
  }

  /** A run of edges goes strictly back in time, so it never returns to its
      start: the relation is acyclic, and in particular never holds both
      ways. */
  lemma {:induction false} PathsGoBackInTime(a: Articles, path: seq<nat>)
    requires Consistent(a)
    requires |path| >= 2
    requires forall k :: 0 <= k < |path| ==> path[k] < |a.sim|
    requires forall k :: 0 <= k < |path| - 1 ==> Qualifies(a, path[k], path[k + 1])
    ensures a.dates[path[0]].Some? && a.dates[path[|path| - 1]].Some?
    ensures Before(a.dates[path[|path| - 1]].value, a.dates[path[0]].value)
    ensures path[|path| - 1] != path[0]
    decreases |path|
  {
    var last := |path| - 1;
    assert Qualifies(a, path[0], path[1]);
    assert Qualifies(a, path[last - 1], path[last]);
    var d0, dn := a.dates[path[0]].value, a.dates[path[last]].value;
    if |path| > 2 {
      var tail := path[1..];
      assert tail[|tail| - 1] == path[last];
      PathsGoBackInTime(a, tail);
      BeforeIsStrictOrder(dn, a.dates[path[1]].value, d0);
    }
    assert Before(dn, d0);
    BeforeIsStrictOrder(dn, d0, d0);
  }

  /** An edge never holds both ways. */
  lemma NeverBothWays(a: Articles, i: nat, j: nat)
    requires Consistent(a) && i < |a.sim| && j < |a.sim|
    ensures Qualifies(a, i, j) ==> !Qualifies(a, j, i)
  {
    if Qualifies(a, i, j) {
      BeforeIsStrictOrder(a.dates[j].value, a.dates[i].value, a.dates[j].value);
    }
  }

  /** No article references itself, and with distinct ids (the primary
      key) no edge joins an id to itself. */
  lemma NoSelfReference(a: Articles)
    requires Consistent(a)
    requires forall i, j :: 0 <= i < j < |a.ids| ==> a.ids[i] != a.ids[j]
    ensures InBounds(a, Selection(a).pairs)
    ensures forall e :: e in EdgesOf(a, Selection(a).pairs) ==> e.from != e.to
  {
    SelectionSound(a, |a.sim|);
    var es := EdgesOf(a, Selection(a).pairs);
    forall e | e in es ensures e.from != e.to {
      var k :| 0 <= k < |es| && es[k] == e;
      var p := Selection(a).pairs[k];
      assert Qualifies(a, p.0, p.1);
      if p.0 < p.1 {
        assert a.ids[p.0] != a.ids[p.1];
      } else {
        assert a.ids[p.1] != a.ids[p.0];
      }
    }
  }
}
