/** The drag handlers of both renderers as one small state machine.
    Start pins the node where it is and reheats the simulation, each move
    puts the pin under the pointer, and release either keeps the node pinned
    where it now is (task3/frontend/js/visualization.js) or frees it
    (app/frontend/src/components/Graph.js). Node positions `x`, `y` belong to
    the simulation and are read, never written, by the handlers; a `Tick`
    stands for one step of d3's integration, which moves a free axis to
    wherever the forces put it and holds a pinned axis at its pin. */
module Drag {
  import opened Common

  datatype NodeState = NodeState(x: real, y: real, fx: Option<real>, fy: Option<real>)

  /** `active` is d3's count of other drag gestures in progress. */
  datatype Event =
    | Start(active: nat)
    | Move(px: real, py: real)
    | End(active: nat)
    | Tick(nx: real, ny: real)  // the position d3's forces give a free node

  /** What each renderer does with the pin on release. */
  datatype Release = KeepPinned | Unpin

  /** The dragged node and the simulation's `alphaTarget`. */
  datatype State = State(node: NodeState, alphaTarget: real)

  const ReheatTarget: real := 0.3

  /** One coordinate after a tick: the pin if there is one. */
  function Integrate(free: real, pin: Option<real>): real {
    match pin
    case Some(p) => p
    case None => free
  }

  function Step(policy: Release, s: State, ev: Event): (r: State)
    ensures !ev.Tick? ==> r.node.x == s.node.x && r.node.y == s.node.y
    ensures ev.Tick? ==> r.node.fx == s.node.fx && r.node.fy == s.node.fy && r.alphaTarget == s.alphaTarget
    ensures ev.Tick? && s.node.fx.Some? ==> r.node.x == s.node.fx.value
    ensures ev.Tick? && s.node.fy.Some? ==> r.node.y == s.node.fy.value
    ensures ev.Tick? && s.node.fx.None? ==> r.node.x == ev.nx
    ensures ev.Tick? && s.node.fy.None? ==> r.node.y == ev.ny
    ensures ev.Start? ==> r.node.fx == Some(s.node.x) && r.node.fy == Some(s.node.y)
    ensures ev.Move? ==> r.node.fx == Some(ev.px) && r.node.fy == Some(ev.py)
    ensures ev.End? && policy == KeepPinned ==> r.node.fx == Some(s.node.x) && r.node.fy == Some(s.node.y)
    ensures ev.End? && policy == Unpin ==> r.node.fx.None? && r.node.fy.None?
    ensures ev.Start? ==> r.alphaTarget == if ev.active == 0 then ReheatTarget else s.alphaTarget
    ensures ev.End? ==> r.alphaTarget == if ev.active == 0 then 0.0 else s.alphaTarget
    ensures ev.Move? ==> r.alphaTarget == s.alphaTarget
  {
    var n := s.node;
    match ev
    case Start(active) =>
      var target := if active == 0 then ReheatTarget else s.alphaTarget;
      State(n.(fx := Some(n.x), fy := Some(n.y)), target)
    case Move(px, py) =>
      s.(node := n.(fx := Some(px), fy := Some(py)))
    case End(active) =>
      var target := if active == 0 then 0.0 else s.alphaTarget;
      (match policy
       case KeepPinned => State(n.(fx := Some(n.x), fy := Some(n.y)), target)
       case Unpin => State(n.(fx := None, fy := None), target))
    case Tick(nx, ny) =>
      s.(node := n.(x := Integrate(nx, n.fx), y := Integrate(ny, n.fy)))
  }

  function Run(policy: Release, s: State, evs: seq<Event>): State
    decreases |evs|
  {
    if |evs| == 0 then s else Run(policy, Step(policy, s, evs[0]), evs[1..])
  }

  /** Events that can come between press and release. */
  predicate Midway(evs: seq<Event>) {
    forall i :: 0 <= i < |evs| ==> evs[i].Move? || evs[i].Tick?
  }

  /** One complete gesture: press, moves and ticks, release. */
  predicate Gesture(evs: seq<Event>) {
    |evs| >= 2 && evs[0].Start? && evs[|evs| - 1].End? && Midway(evs[1..|evs| - 1])
  }

  /** Between press and release the node stays pinned on both axes, ticks
      hold it at its pin, and the reheat target is untouched. */
  lemma {:induction false} MidwayKeepsPin(policy: Release, s: State, evs: seq<Event>)
    requires Midway(evs)
    requires s.node.fx.Some? && s.node.fy.Some?
    ensures var r := Run(policy, s, evs);
      && r.node.fx.Some? && r.node.fy.Some?
      && r.alphaTarget == s.alphaTarget
      && (|evs| > 0 && evs[|evs| - 1].Tick? ==> r.node.x == r.node.fx.value && r.node.y == r.node.fy.value)
    decreases |evs|
  {
    if |evs| > 0 {
      var s' := Step(policy, s, evs[0]);
      assert Midway(evs[1..]);
      MidwayKeepsPin(policy, s', evs[1..]);
      if |evs| > 1 {
        assert evs[1..][|evs[1..]| - 1] == evs[|evs| - 1];
      }
    }
  }

  lemma {:induction false} RunSplit(policy: Release, s: State, a: seq<Event>, b: seq<Event>)
    ensures Run(policy, s, a + b) == Run(policy, Run(policy, s, a), b)
    decreases |a|
  {
    if |a| == 0 {
      assert a + b == b;
    } else {
      assert (a + b)[1..] == a[1..] + b;
      RunSplit(policy, Step(policy, s, a[0]), a[1..], b);
    }
  }

  /** After a complete gesture the task3 renderer leaves the node pinned
      where it now is, and the React renderer leaves it free, even if it was
      pinned before the gesture began; with no other gesture in progress the
      reheat target is back at 0. */
  lemma GestureOutcome(policy: Release, s: State, evs: seq<Event>)
    requires Gesture(evs)
    ensures var r := Run(policy, s, evs);
      && (policy == KeepPinned ==> r.node.fx == Some(r.node.x) && r.node.fy == Some(r.node.y))
      && (policy == Unpin ==> r.node.fx.None? && r.node.fy.None?)
      && (evs[|evs| - 1].active == 0 ==> r.alphaTarget == 0.0)
  {
    var n := |evs|;
    var s1 := Step(policy, s, evs[0]);
    var mid := evs[1..n - 1];
    assert evs == [evs[0]] + mid + [evs[n - 1]];
    RunSplit(policy, s, [evs[0]] + mid, [evs[n - 1]]);
    RunSplit(policy, s, [evs[0]], mid);
    MidwayKeepsPin(policy, s1, mid);
  }

  /** During a gesture that no other gesture overlaps, the simulation is
      kept warm at the reheat target and the node is pinned. */
  lemma ReheatedWhileDragging(policy: Release, s: State, start: Event, mid: seq<Event>)
    requires start.Start? && start.active == 0 && Midway(mid)
    ensures Run(policy, s, [start] + mid).alphaTarget == ReheatTarget
    ensures Run(policy, s, [start] + mid).node.fx.Some?
  {
    RunSplit(policy, s, [start], mid);
    MidwayKeepsPin(policy, Step(policy, s, start), mid);
  }
}
