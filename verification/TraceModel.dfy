/** The blueprint debugger's trace as a value: which blueprints are running, each with a stack of graph nodes
    tagged with the script context they were reached in; and what well-nested runs of contexts do to it. */
module TraceModel {
  import opened Options

  /** A visited node with the values of its watched pins. Nodes, pins, blueprints and functions are identities. */
  datatype NodeView = NodeView(node: nat, name: string, tag: int, properties: seq<(nat, int)>)

  datatype Entry = Entry(blueprint: nat, nodes: seq<NodeView>)

  datatype Frame = Frame(tag: int, name: string)

  datatype Trace = Trace(running: seq<Entry>, frames: map<nat, Frame>, tag: int)

  const EMPTY := Trace([], map[], 0)

  /** A stop at a node: the function and blueprint on the stack, the node and its title, and the pins of the node
      with their debug values, where the engine has a valid one. */
  datatype Stop = Stop(func: nat, blueprint: nat, node: nat, name: string, frameName: string,
                       pins: seq<(nat, Option<int>)>)

  datatype ExceptionKind = Tracepoint | WireTracepoint | Breakpoint | OtherException

  /** An exception as the engine reports it; None and false stand for a failed cast or search. */
  datatype Raised = Raised(kind: ExceptionKind, func: Option<nat>, generatedClass: bool, blueprint: Option<nat>,
                           friendlyName: string, node: Option<nat>, title: string, pins: seq<(nat, Option<int>)>)

  /** An exception is a stop if it is a trace or break point and function, blueprint and node are known. */
  function StopOf(x: Raised): Option<Stop> {
    if x.kind != OtherException && x.func.Some? && x.generatedClass && x.blueprint.Some? && x.node.Some?
    then Some(Stop(x.func.value, x.blueprint.value, x.node.value, x.title, x.friendlyName + "::" + x.title, x.pins))
    else None
  }

  /** Contexts are entered and left with the engine's context tag; the module looks only at the game thread. */
  datatype Event =
    | Enter(gameThread: bool, tag: int)
    | Exit(gameThread: bool, tag: int)
    | Exception(stop: Option<Stop>)

  // ------------------------------------------------------------------ one event

  function KeepNodes(nodes: seq<NodeView>, t: int): seq<NodeView> {
    if nodes == [] then []
    else (if nodes[0].tag == t then [] else [nodes[0]]) + KeepNodes(nodes[1..], t)
  }

  /** Every blueprint with its nodes of other contexts, in order; blueprints without nodes are dropped. */
  function KeepEntries(es: seq<Entry>, t: int): seq<Entry> {
    if es == [] then []
    else
      var kept := KeepNodes(es[0].nodes, t);
      (if kept == [] then [] else [Entry(es[0].blueprint, kept)]) + KeepEntries(es[1..], t)
  }

  function KeepFrames(fs: map<nat, Frame>, t: int): map<nat, Frame> {
    map f | f in fs && fs[f].tag != t :: fs[f]
  }

  function IndexOf(es: seq<Entry>, blueprint: nat): (i: nat)
    ensures i <= |es| && (i < |es| ==> es[i].blueprint == blueprint)
    ensures forall j | 0 <= j < i :: es[j].blueprint != blueprint
  {
    if es == [] || es[0].blueprint == blueprint then 0 else 1 + IndexOf(es[1..], blueprint)
  }

  /** Sets the value of one pin, adding the pin if it is new. */
  function SetPin(ps: seq<(nat, int)>, pin: nat, v: int): seq<(nat, int)> {
    if ps == [] then [(pin, v)]
    else if ps[0].0 == pin then [(pin, v)] + ps[1..]
    else [ps[0]] + SetPin(ps[1..], pin, v)
  }

  function SetPins(ps: seq<(nat, int)>, pins: seq<(nat, Option<int>)>): seq<(nat, int)> {
    if pins == [] then ps
    else
      var n := |pins| - 1;
      match pins[n].1
      case None => SetPins(ps, pins[..n])
      case Some(v) => SetPin(SetPins(ps, pins[..n]), pins[n].0, v)
  }

  /** The value of a pin. */
  function PinValue(ps: seq<(nat, int)>, pin: nat): Option<int> {
    if ps == [] then None else if ps[0].0 == pin then Some(ps[0].1) else PinValue(ps[1..], pin)
  }

  lemma {:induction false} SetPinValue(ps: seq<(nat, int)>, pin: nat, v: int, q: nat)
    ensures PinValue(SetPin(ps, pin, v), q) == if q == pin then Some(v) else PinValue(ps, q)
  {
    if ps != [] && ps[0].0 != pin { SetPinValue(ps[1..], pin, v, q); }
  }

  /** The last valid value the engine gave for a pin. */
  function LastValue(pins: seq<(nat, Option<int>)>, q: nat): Option<int> {
    if pins == [] then None
    else
      var n := |pins| - 1;
      if pins[n].0 == q && pins[n].1.Some? then pins[n].1 else LastValue(pins[..n], q)
  }

  /** It is the value at position k if that is valid and no later one for the pin is. */
  lemma {:induction false} LastValueIs(pins: seq<(nat, Option<int>)>, q: nat, k: nat)
    ensures (&& k < |pins| && pins[k].0 == q && pins[k].1.Some?
             && forall j | k < j < |pins| :: pins[j].0 == q ==> pins[j].1.None?) ==> LastValue(pins, q) == pins[k].1
    ensures (forall j | 0 <= j < |pins| :: pins[j].0 == q ==> pins[j].1.None?) ==> LastValue(pins, q) == None
  {
    if pins != [] {
      var n := |pins| - 1;
      assert forall j | 0 <= j < n :: pins[..n][j] == pins[j];
      LastValueIs(pins[..n], q, k);
    }
  }

  /** After a stop every pin shows the value the stop gave for it, or else the value it had. */
  lemma {:induction false} SetPinsValue(ps: seq<(nat, int)>, pins: seq<(nat, Option<int>)>, q: nat)
    ensures PinValue(SetPins(ps, pins), q)
      == if LastValue(pins, q).Some? then LastValue(pins, q) else PinValue(ps, q)
  {
    if pins != [] {
      var n := |pins| - 1;
      SetPinsValue(ps, pins[..n], q);
      if pins[n].1.Some? { SetPinValue(SetPins(ps, pins[..n]), pins[n].0, pins[n].1.value, q); }
    }
  }

  /** A stop pushes its node unless it is already on top, and refreshes the pins of the top. */
  function VisitNodes(nodes: seq<NodeView>, s: Stop, tag: int): (r: seq<NodeView>)
    ensures r != []
  {
    if nodes == [] || nodes[|nodes| - 1].node != s.node
    then nodes + [NodeView(s.node, s.name, tag, SetPins([], s.pins))]
    else
      var top := nodes[|nodes| - 1];
      nodes[|nodes| - 1 := top.(properties := SetPins(top.properties, s.pins))]
  }

  function Visit(es: seq<Entry>, s: Stop, tag: int): seq<Entry> {
    var i := IndexOf(es, s.blueprint);
    if i == |es| then es + [Entry(s.blueprint, VisitNodes([], s, tag))]
    else es[i := Entry(s.blueprint, VisitNodes(es[i].nodes, s, tag))]
  }

  function Step(c: Trace, e: Event): Trace {
    match e
    case Enter(gameThread, t) => if gameThread then c.(tag := t) else c
    case Exit(gameThread, t) =>
      if gameThread then Trace(KeepEntries(c.running, t), KeepFrames(c.frames, t), c.tag - 1) else c
    case Exception(stop) =>
      match stop
      case None => c
      case Some(s) =>
        Trace(Visit(c.running, s, c.tag), c.frames[s.func := Frame(c.tag, s.frameName)], c.tag)
  }

  function After(h: seq<Event>): Trace {
    if h == [] then EMPTY else Step(After(h[..|h| - 1]), h[|h| - 1])
  }

  // ------------------------------------------------------------------ well-nested runs

  /** How many contexts are open. */
  function Depth(h: seq<Event>): int {
    if h == [] then 0
    else
      var e := h[|h| - 1];
      Depth(h[..|h| - 1]) + if e.Enter? && e.gameThread then 1 else if e.Exit? && e.gameThread then -1 else 0
  }

  /** Contexts are entered one deeper than the present depth and left at the present depth. */
  predicate Nested(h: seq<Event>) {
    h == [] || (
      var init, e := h[..|h| - 1], h[|h| - 1];
      && Nested(init)
      && (e.Enter? && e.gameThread ==> e.tag == Depth(init) + 1)
      && (e.Exit? && e.gameThread ==> e.tag == Depth(init) >= 1))
  }

  predicate TagsWithin(nodes: seq<NodeView>, lo: int, hi: int) {
    forall k | 0 <= k < |nodes| :: lo <= nodes[k].tag <= hi
  }

  predicate Ascending(nodes: seq<NodeView>) {
    forall k, l | 0 <= k < l < |nodes| :: nodes[k].tag <= nodes[l].tag
  }

  /** A stack as it looks at a depth: not empty, tags ascending from lo to the depth. */
  predicate GoodStack(nodes: seq<NodeView>, lo: int, depth: int) {
    nodes != [] && TagsWithin(nodes, lo, depth) && Ascending(nodes)
  }

  predicate GoodStacks(es: seq<Entry>, lo: int, depth: int) {
    forall i | 0 <= i < |es| :: GoodStack(es[i].nodes, lo, depth)
  }

  predicate UniqueKeys(es: seq<Entry>) {
    forall i, j | 0 <= i < j < |es| :: es[i].blueprint != es[j].blueprint
  }

  lemma {:induction false} KeepIsPrefix(nodes: seq<NodeView>, lo: int, t: int)
    requires TagsWithin(nodes, lo, t) && Ascending(nodes)
    ensures KeepNodes(nodes, t) <= nodes
    ensures TagsWithin(KeepNodes(nodes, t), lo, t - 1)
    ensures forall k | |KeepNodes(nodes, t)| <= k < |nodes| :: nodes[k].tag == t
  {
    if nodes != [] {
      KeepIsPrefix(nodes[1..], lo, t);
      if nodes[0].tag == t {
        AllLast(nodes, t);
      }
    }
  }

  lemma {:induction false} AllLast(nodes: seq<NodeView>, t: int)
    requires forall k | 0 <= k < |nodes| :: nodes[k].tag == t
    ensures KeepNodes(nodes, t) == []
  {
    if nodes != [] { AllLast(nodes[1..], t); }
  }

  /** Leaving the deepest context removes a suffix of every stack. */
  lemma {:induction false} ExitKeepsGood(es: seq<Entry>, lo: int, t: int)
    requires GoodStacks(es, lo, t) && UniqueKeys(es)
    ensures var r := KeepEntries(es, t); GoodStacks(r, lo, t - 1) && UniqueKeys(r)
    ensures forall e | e in KeepEntries(es, t) ::
      exists o :: o in es && o.blueprint == e.blueprint && e.nodes <= o.nodes
  {
    if es != [] {
      hide KeepNodes;
      ExitKeepsGood(es[1..], lo, t);
      assert GoodStack(es[0].nodes, lo, t);
      KeepIsPrefix(es[0].nodes, lo, t);
      var kept, rest := KeepNodes(es[0].nodes, t), KeepEntries(es[1..], t);
      forall j | 0 <= j < |rest| ensures rest[j].blueprint != es[0].blueprint {
        assert rest[j] in rest;
      }
      assert es[0] in es;
    }
  }

  lemma {:induction false} VisitKeepsGood(es: seq<Entry>, s: Stop, lo: int, tag: int)
    requires GoodStacks(es, lo, tag) && UniqueKeys(es) && lo <= tag
    ensures GoodStacks(Visit(es, s, tag), lo, tag) && UniqueKeys(Visit(es, s, tag))
  {
    var i := IndexOf(es, s.blueprint);
    var nodes := if i == |es| then [] else es[i].nodes;
    assert i < |es| ==> GoodStack(es[i].nodes, lo, tag);
    assert GoodStack(VisitNodes(nodes, s, tag), lo, tag);
  }

  /** No stop while no context is open. */
  predicate NoStopOutside(h: seq<Event>) {
    h == [] || (
      var init, e := h[..|h| - 1], h[|h| - 1];
      NoStopOutside(init) && (e.Exception? && e.stop.Some? ==> Depth(init) >= 1))
  }

  /** In a well-nested run the tag counter is the depth, and every stack is tidy: one per blueprint, none empty,
      tags between one and the depth, ascending. Stops outside any context add nodes with tag zero. */
  lemma {:induction false} NestedRun(h: seq<Event>)
    requires Nested(h)
    ensures Depth(h) >= 0 && After(h).tag == Depth(h)
    ensures UniqueKeys(After(h).running) && GoodStacks(After(h).running, 0, Depth(h))
    ensures NoStopOutside(h) ==> GoodStacks(After(h).running, 1, Depth(h))
  {
    hide KeepEntries, Visit, GoodStack;
    if h != [] {
      var init, e := h[..|h| - 1], h[|h| - 1];
      var c, d := After(init), Depth(init);
      NestedRun(init);
      match e {
        case Enter(gameThread, t) =>
          Deeper(c.running, 0, d);
          if NoStopOutside(init) { Deeper(c.running, 1, d); }
        case Exit(gameThread, t) =>
          ExitKeepsGood(c.running, 0, d);
          if NoStopOutside(init) { ExitKeepsGood(c.running, 1, d); }
        case Exception(stop) =>
          if stop.Some? {
            VisitKeepsGood(c.running, stop.value, 0, d);
            if NoStopOutside(h) { VisitKeepsGood(c.running, stop.value, 1, d); }
          }
      }
    }
  }

  lemma {:induction false} Deeper(es: seq<Entry>, lo: int, d: int)
    requires GoodStacks(es, lo, d)
    ensures GoodStacks(es, lo, d + 1)
  {
    forall i | 0 <= i < |es| ensures GoodStack(es[i].nodes, lo, d + 1) { assert GoodStack(es[i].nodes, lo, d); }
  }

  // ------------------------------------------------------------------ what a stop does

  /** The node stack of a blueprint. */
  function StackOf(es: seq<Entry>, blueprint: nat): seq<NodeView> {
    var i := IndexOf(es, blueprint);
    if i == |es| then [] else es[i].nodes
  }

  /** The node is the one the stop names, with the pins as the stop gave them or as they were. */
  ghost predicate Shows(n: NodeView, s: Stop, tag: int, was: seq<(nat, int)>) {
    && n.node == s.node && n.name == s.name && n.tag == tag
    && forall q ::
      PinValue(n.properties, q) == if LastValue(s.pins, q).Some? then LastValue(s.pins, q) else PinValue(was, q)
  }

  /** A stop puts its node on top of the stack of its blueprint, unless it is there already; then only the pins of
      the top change. The rest of the stack and all other stacks stay, and so does the order of the blueprints,
      where a new one comes last. */
  lemma {:induction false} StopShows(es: seq<Entry>, s: Stop, tag: int)
    ensures var was, now := StackOf(es, s.blueprint), StackOf(Visit(es, s, tag), s.blueprint);
      && now != []
      && if was != [] && was[|was| - 1].node == s.node then
           var last, top := was[|was| - 1], now[|now| - 1];
           && |now| == |was| && now[..|now| - 1] == was[..|was| - 1]
           && Shows(top, s.(name := last.name), last.tag, last.properties)
         else now[..|now| - 1] == was && Shows(now[|now| - 1], s, tag, [])
    ensures forall b | b != s.blueprint :: StackOf(Visit(es, s, tag), b) == StackOf(es, b)
    ensures Blueprints(Visit(es, s, tag))
      == Blueprints(es) + if s.blueprint in Blueprints(es) then [] else [s.blueprint]
  {
    hide SetPins, PinValue, LastValue;
    var i := IndexOf(es, s.blueprint);
    var was := StackOf(es, s.blueprint);
    var r := Visit(es, s, tag);
    SamePlace(es, s.blueprint, VisitNodes(was, s, tag));
    forall b | b != s.blueprint ensures StackOf(r, b) == StackOf(es, b) {
      OtherPlace(es, s.blueprint, VisitNodes(was, s, tag), b);
    }
    var before := if was != [] && was[|was| - 1].node == s.node then was[|was| - 1].properties else [];
    forall q ensures PinValue(SetPins(before, s.pins), q)
      == if LastValue(s.pins, q).Some? then LastValue(s.pins, q) else PinValue(before, q)
    {
      SetPinsValue(before, s.pins, q);
    }
    if i < |es| { assert Blueprints(es)[i] == s.blueprint; }
    assert Blueprints(r) == Blueprints(es) + if i < |es| then [] else [s.blueprint];
  }

  function Blueprints(es: seq<Entry>): (bs: seq<nat>)
    ensures |bs| == |es| && forall i | 0 <= i < |es| :: bs[i] == es[i].blueprint
  {
    seq(|es|, i requires 0 <= i < |es| => es[i].blueprint)
  }

  /** The list with this stack for one blueprint. */
  function Put(es: seq<Entry>, blueprint: nat, nodes: seq<NodeView>): seq<Entry> {
    var i := IndexOf(es, blueprint);
    if i == |es| then es + [Entry(blueprint, nodes)] else es[i := Entry(blueprint, nodes)]
  }

  lemma {:induction false} SamePlace(es: seq<Entry>, blueprint: nat, nodes: seq<NodeView>)
    ensures StackOf(Put(es, blueprint, nodes), blueprint) == nodes
  {
    var i, r := IndexOf(es, blueprint), Put(es, blueprint, nodes);
    assert r[i].blueprint == blueprint && forall j | 0 <= j < i :: r[j].blueprint != blueprint;
  }

  lemma {:induction false} OtherPlace(es: seq<Entry>, blueprint: nat, nodes: seq<NodeView>, b: nat)
    requires b != blueprint
    ensures StackOf(Put(es, blueprint, nodes), b) == StackOf(es, b)
  {
    var r := Put(es, blueprint, nodes);
    var i, j := IndexOf(es, b), IndexOf(r, b);
    assert i < |es| ==> r[i].blueprint == b;
    assert j < |r| && j < |es| ==> es[j].blueprint == b;
  }

  function NodeIds(nodes: seq<NodeView>): (ids: seq<nat>)
    ensures |ids| == |nodes|
  {
    seq(|nodes|, i requires 0 <= i < |nodes| => nodes[i].node)
  }

  /** The nodes at which the run stops in this blueprint. */
  function StopsIn(b: seq<Event>, blueprint: nat): seq<nat> {
    if b == [] then []
    else
      var e := b[|b| - 1];
      StopsIn(b[..|b| - 1], blueprint)
        + if e.Exception? && e.stop.Some? && e.stop.value.blueprint == blueprint then [e.stop.value.node] else []
  }

  /** xs without the elements that repeat the one before; before the first comes prev. */
  function WithoutRepeats(prev: Option<nat>, xs: seq<nat>): seq<nat> {
    if xs == [] then []
    else
      var n := |xs| - 1;
      var before := if n == 0 then prev else Some(xs[n - 1]);
      WithoutRepeats(prev, xs[..n]) + if before == Some(xs[n]) then [] else [xs[n]]
  }

  function TopId(nodes: seq<NodeView>): Option<nat> {
    if nodes == [] then None else Some(nodes[|nodes| - 1].node)
  }

  /** No context is entered or left on the game thread. */
  predicate InOneContext(b: seq<Event>) {
    forall j | 0 <= j < |b| :: !(b[j].Enter? && b[j].gameThread) && !(b[j].Exit? && b[j].gameThread)
  }

  /** As long as no context is entered or left, the stack of a blueprint grows by the nodes of its stops, without
      those that repeat the stop before. */
  lemma {:induction false} StopsAreListed(h: seq<Event>, b: seq<Event>, blueprint: nat)
    requires InOneContext(b)
    ensures var was, now := StackOf(After(h).running, blueprint), StackOf(After(h + b).running, blueprint);
      var stops := StopsIn(b, blueprint);
      && NodeIds(now) == NodeIds(was) + WithoutRepeats(TopId(was), stops)
      && TopId(now) == if stops == [] then TopId(was) else Some(stops[|stops| - 1])
    decreases |b|
  {
    hide StackOf, Visit, Shows, TopId, NodeIds, WithoutRepeats, Step, After;
    if b == [] {
      assert h + b == h;
      NothingRepeats(TopId(StackOf(After(h).running, blueprint)));
    } else {
      var init, e := b[..|b| - 1], b[|b| - 1];
      assert (h + init) + [e] == h + b;
      assert forall j | 0 <= j < |init| :: init[j] == b[j];
      StopsAreListed(h, init, blueprint);
      RunningNext(h + init, e);
      assert StopsIn(init, blueprint) + [] == StopsIn(init, blueprint);
      if e.Exception? && e.stop.Some? {
        StopIsListed(After(h + init).running, e.stop.value, After(h + init).tag, blueprint);
        if e.stop.value.blueprint == blueprint {
          var was, stops := StackOf(After(h).running, blueprint), StopsIn(init, blueprint);
          RepeatsNext(TopId(was), stops, e.stop.value.node);
          var more := if TopId(StackOf(After(h + init).running, blueprint)) == Some(e.stop.value.node) then []
            else [e.stop.value.node];
          assert (NodeIds(was) + WithoutRepeats(TopId(was), stops)) + more
              == NodeIds(was) + (WithoutRepeats(TopId(was), stops) + more);
        }
      }
    }
  }

  lemma {:induction false} RunningNext(h: seq<Event>, e: Event)
    ensures e.Exception? && e.stop.Some? ==>
      After(h + [e]).running == Visit(After(h).running, e.stop.value, After(h).tag)
    ensures !(e.Exception? && e.stop.Some?) && !(e.Exit? && e.gameThread) ==> After(h + [e]).running == After(h).running
  {
    hide Visit;
    assert (h + [e])[..|h|] == h;
  }

  lemma {:induction false} NothingRepeats(prev: Option<nat>)
    ensures WithoutRepeats(prev, []) == []
  {}

  lemma {:induction false} RepeatsNext(prev: Option<nat>, xs: seq<nat>, x: nat)
    ensures var before := if xs == [] then prev else Some(xs[|xs| - 1]);
      WithoutRepeats(prev, xs + [x]) == WithoutRepeats(prev, xs) + if before == Some(x) then [] else [x]
  {
    assert (xs + [x])[..|xs|] == xs;
  }

  lemma {:induction false} StopIsListed(es: seq<Entry>, s: Stop, tag: int, blueprint: nat)
    ensures var was, now := StackOf(es, blueprint), StackOf(Visit(es, s, tag), blueprint);
      if s.blueprint == blueprint then
        && NodeIds(now) == NodeIds(was) + (if TopId(was) == Some(s.node) then [] else [s.node])
        && TopId(now) == Some(s.node)
      else now == was
  {
    hide StackOf, Visit;
    StopShows(es, s, tag);
    if s.blueprint == blueprint {
      var was, now := StackOf(es, blueprint), StackOf(Visit(es, s, tag), blueprint);
      if TopId(was) == Some(s.node) {
        assert now == now[..|now| - 1] + [now[|now| - 1]] && was == now[..|now| - 1] + [was[|was| - 1]];
        assert NodeIds(now) == NodeIds(was);
      } else {
        assert now == was + [now[|now| - 1]];
        assert NodeIds(now) == NodeIds(was) + [s.node];
      }
    }
  }

  /** What makes an exception a stop, and what the stop says. */
  lemma {:induction false} StopIs(x: Raised)
    ensures StopOf(x).Some? <==> (
      && (x.kind == Tracepoint || x.kind == WireTracepoint || x.kind == Breakpoint)
      && x.func.Some? && x.generatedClass && x.blueprint.Some? && x.node.Some?)
    ensures StopOf(x).Some? ==> var s := StopOf(x).value;
      && Some(s.func) == x.func && Some(s.blueprint) == x.blueprint && Some(s.node) == x.node
      && s.name == x.title && s.frameName == x.friendlyName + "::" + x.title && s.pins == x.pins
  {}

  // ------------------------------------------------------------------ balanced blocks

  /** What of a trace does not depend on contexts deeper than d, without the pin values. */
  function LowNodes(nodes: seq<NodeView>, d: int): seq<(nat, string, int)> {
    if nodes == [] then []
    else
      var n := |nodes| - 1;
      LowNodes(nodes[..n], d) + if nodes[n].tag <= d then [(nodes[n].node, nodes[n].name, nodes[n].tag)] else []
  }

  function Low(es: seq<Entry>, d: int): seq<(nat, seq<(nat, string, int)>)> {
    if es == [] then []
    else
      var n := |es| - 1;
      Low(es[..n], d) + if LowNodes(es[n].nodes, d) == [] then [] else [(es[n].blueprint, LowNodes(es[n].nodes, d))]
  }

  /** The trace without the pin values. */
  function Shape(es: seq<Entry>): seq<(nat, seq<(nat, string, int)>)> {
    seq(|es|, i requires 0 <= i < |es| => (es[i].blueprint, ShapeNodes(es[i].nodes)))
  }

  function ShapeNodes(nodes: seq<NodeView>): seq<(nat, string, int)> {
    seq(|nodes|, i requires 0 <= i < |nodes| => (nodes[i].node, nodes[i].name, nodes[i].tag))
  }

  lemma {:induction false} LowNodesAll(nodes: seq<NodeView>, lo: int, d: int)
    requires TagsWithin(nodes, lo, d)
    ensures LowNodes(nodes, d) == ShapeNodes(nodes)
  {
    if nodes != [] { LowNodesAll(nodes[..|nodes| - 1], lo, d); }
  }

  lemma {:induction false} ShapeLength(nodes: seq<NodeView>)
    ensures |ShapeNodes(nodes)| == |nodes|
  {}

  lemma {:induction false} LowAll(es: seq<Entry>, lo: int, d: int)
    requires GoodStacks(es, lo, d)
    ensures Low(es, d) == Shape(es)
  {
    hide LowNodes, ShapeNodes;
    if es != [] {
      var n := |es| - 1;
      assert GoodStack(es[n].nodes, lo, d);
      LowAll(es[..n], lo, d);
      LowNodesAll(es[n].nodes, lo, d);
      ShapeLength(es[n].nodes);
      assert Shape(es) == Shape(es[..n]) + [(es[n].blueprint, ShapeNodes(es[n].nodes))];
    }
  }

  lemma {:induction false} LowNodesAppend(a: seq<NodeView>, b: seq<NodeView>, d: int)
    ensures LowNodes(a + b, d) == LowNodes(a, d) + LowNodes(b, d)
  {
    if b == [] {
      assert a + b == a;
    } else {
      var n := |b| - 1;
      assert (a + b)[..|a + b| - 1] == a + b[..n];
      LowNodesAppend(a, b[..n], d);
    }
  }

  lemma {:induction false} LowKeepNodes(nodes: seq<NodeView>, t: int, d: int)
    requires t > d
    ensures LowNodes(KeepNodes(nodes, t), d) == LowNodes(nodes, d)
  {
    if nodes != [] {
      LowKeepNodes(nodes[1..], t, d);
      assert nodes == [nodes[0]] + nodes[1..];
      LowNodesAppend([nodes[0]], nodes[1..], d);
      LowNodesAppend([nodes[0]], KeepNodes(nodes[1..], t), d);
      assert [nodes[0]][..0] == [];
      if nodes[0].tag == t {
        assert KeepNodes(nodes, t) == KeepNodes(nodes[1..], t);
        assert LowNodes([nodes[0]], d) == [];
      }
    }
  }

  lemma {:induction false} LowAppend(a: seq<Entry>, b: seq<Entry>, d: int)
    ensures Low(a + b, d) == Low(a, d) + Low(b, d)
  {
    hide LowNodes;
    if b == [] {
      assert a + b == a;
    } else {
      var n := |b| - 1;
      assert (a + b)[..|a + b| - 1] == a + b[..n];
      LowAppend(a, b[..n], d);
    }
  }

  lemma {:induction false} LowOne(e: Entry, d: int)
    ensures Low([e], d) == if LowNodes(e.nodes, d) == [] then [] else [(e.blueprint, LowNodes(e.nodes, d))]
  {
    assert [e][..0] == [];
  }

  lemma {:induction false} LowKeep(es: seq<Entry>, t: int, d: int)
    requires t > d
    ensures Low(KeepEntries(es, t), d) == Low(es, d)
  {
    hide LowNodes, Low;
    if es != [] {
      LowKeep(es[1..], t, d);
      var kept := KeepNodes(es[0].nodes, t);
      LowKeepNodes(es[0].nodes, t, d);
      assert es == [es[0]] + es[1..];
      LowAppend([es[0]], es[1..], d);
      LowOne(es[0], d);
      if kept == [] {
        LowNothing(d);
        assert KeepEntries(es, t) == KeepEntries(es[1..], t);
      } else {
        LowAppend([Entry(es[0].blueprint, kept)], KeepEntries(es[1..], t), d);
        LowOne(Entry(es[0].blueprint, kept), d);
      }
    }
    LowNothing(d);
  }

  lemma {:induction false} LowNothing(d: int)
    ensures LowNodes([], d) == [] && Low([], d) == []
  {}

  lemma {:induction false} LowVisitNodes(nodes: seq<NodeView>, s: Stop, tag: int, d: int)
    requires tag > d
    ensures LowNodes(VisitNodes(nodes, s, tag), d) == LowNodes(nodes, d)
  {
    var r := VisitNodes(nodes, s, tag);
    if |r| > |nodes| {
      assert r[..|r| - 1] == nodes;
    } else {
      assert r[..|r| - 1] == nodes[..|nodes| - 1];
    }
  }

  lemma {:induction false} LowVisit(es: seq<Entry>, s: Stop, tag: int, d: int)
    requires tag > d
    ensures Low(Visit(es, s, tag), d) == Low(es, d)
  {
    hide LowNodes, VisitNodes, Low;
    var i := IndexOf(es, s.blueprint);
    var nodes := if i == |es| then [] else es[i].nodes;
    var e := Entry(s.blueprint, VisitNodes(nodes, s, tag));
    LowVisitNodes(nodes, s, tag, d);
    if i == |es| {
      LowOne(e, d);
      LowNothing(d);
      LowAppend(es, [e], d);
    } else {
      LowReplace(es, i, e, d);
    }
  }

  lemma {:induction false} LowReplace(es: seq<Entry>, i: nat, e: Entry, d: int)
    requires i < |es| && e.blueprint == es[i].blueprint && LowNodes(e.nodes, d) == LowNodes(es[i].nodes, d)
    ensures Low(es[i := e], d) == Low(es, d)
    decreases |es|
  {
    hide LowNodes;
    var n := |es| - 1;
    if i < n {
      LowReplace(es[..n], i, e, d);
      assert es[i := e][..n] == es[..n][i := e];
    } else {
      assert es[i := e][..n] == es[..n];
    }
  }

  /** The events of b, which follow h, leave contexts and stop at nodes only deeper than d. */
  predicate Above(h: seq<Event>, b: seq<Event>, d: int) {
    b == [] || (
      var init, e := b[..|b| - 1], b[|b| - 1];
      && Above(h, init, d)
      && (e.Exit? && e.gameThread ==> Depth(h + init) > d)
      && (e.Exception? && e.stop.Some? ==> Depth(h + init) > d))
  }

  lemma {:induction false} AboveKeepsLow(h: seq<Event>, b: seq<Event>, d: int)
    requires Nested(h + b) && Above(h, b, d)
    ensures Low(After(h + b).running, d) == Low(After(h).running, d)
    decreases |b|
  {
    hide Low, KeepEntries, Visit;
    if b == [] {
      assert h + b == h;
    } else {
      var init, e := b[..|b| - 1], b[|b| - 1];
      assert (h + b)[..|h + b| - 1] == h + init;
      AboveKeepsLow(h, init, d);
      var c := After(h + init);
      NestedRun(h + init);
      match e {
        case Enter(_, _) =>
        case Exit(gameThread, t) => if gameThread { LowKeep(c.running, t, d); }
        case Exception(stop) => if stop.Some? { LowVisit(c.running, stop.value, c.tag, d); }
      }
    }
  }

  /** A balanced block of deeper contexts leaves blueprints, nodes and tags exactly as it found them. */
  lemma {:induction false} BalancedBlock(h: seq<Event>, b: seq<Event>)
    requires Nested(h) && Nested(h + b) && Above(h, b, Depth(h)) && Depth(h + b) == Depth(h)
    ensures Shape(After(h + b).running) == Shape(After(h).running)
  {
    NestedRun(h);
    NestedRun(h + b);
    AboveKeepsLow(h, b, Depth(h));
    LowAll(After(h).running, 0, Depth(h));
    LowAll(After(h + b).running, 0, Depth(h));
  }

  // ------------------------------------------------------------------ leaks

  /** Nodes with tag zero are those of stops outside any context. */
  lemma {:induction false} OutsideRemains(h: seq<Event>)
    requires Nested(h)
    ensures Low(After(h).running, 0) == [] <==> NoStopOutside(h)
  {
    hide Low, KeepEntries, Visit;
    LowNothing(0);
    if h != [] {
      var init, e := h[..|h| - 1], h[|h| - 1];
      var c := After(init);
      OutsideRemains(init);
      NestedRun(init);
      NestedRun(h);
      match e {
        case Enter(_, _) =>
        case Exit(gameThread, t) => if gameThread { LowKeep(c.running, t, 0); }
        case Exception(stop) =>
          if stop.Some? {
            if c.tag > 0 {
              LowVisit(c.running, stop.value, c.tag, 0);
            } else {
              LowAll(After(h).running, 0, 0);
              VisitNotEmpty(c.running, stop.value, 0);
            }
          }
      }
    }
  }

  lemma {:induction false} VisitNotEmpty(es: seq<Entry>, s: Stop, tag: int)
    ensures Visit(es, s, tag) != []
  {}

  /** When all contexts have been left, the list of running blueprints is empty if and only if no stop happened
      outside a context. */
  lemma {:induction false} LeakFree(h: seq<Event>)
    requires Nested(h) && Depth(h) == 0
    ensures After(h).running == [] <==> NoStopOutside(h)
  {
    NestedRun(h);
    OutsideRemains(h);
    LowAll(After(h).running, 0, 0);
    assert |Shape(After(h).running)| == |After(h).running|;
  }

  /** The depth at the last stop in function f. */
  function LastStop(h: seq<Event>, f: nat): Option<int> {
    if h == [] then None
    else
      var init, e := h[..|h| - 1], h[|h| - 1];
      if e.Exception? && e.stop.Some? && e.stop.value.func == f then Some(Depth(init)) else LastStop(init, f)
  }

  /** A function keeps the frame of its last stop until that context is left; a stop outside any context is never
      forgotten. */
  lemma {:induction false} FrameHistory(h: seq<Event>, f: nat)
    requires Nested(h)
    ensures f in After(h).frames ==> LastStop(h, f) == Some(After(h).frames[f].tag)
    ensures f in After(h).frames ==> 0 <= After(h).frames[f].tag <= Depth(h)
    ensures LastStop(h, f) == Some(0) ==> f in After(h).frames
  {
    hide KeepEntries, Visit;
    if h != [] {
      NestedRun(h[..|h| - 1]);
      FrameHistory(h[..|h| - 1], f);
    }
  }

  predicate StopsAt(e: Event, f: nat) { e.Exception? && e.stop.Some? && e.stop.value.func == f }

  /** Event k is the last stop in function f. */
  predicate LastStopIs(h: seq<Event>, f: nat, k: nat) {
    k < |h| && StopsAt(h[k], f) && forall j | k < j < |h| :: !StopsAt(h[j], f)
  }

  /** Since event k the depth has not fallen below that of event k. */
  predicate StaysOpen(h: seq<Event>, k: nat)
    requires k <= |h|
  {
    forall j | k <= j <= |h| :: Depth(h[..j]) >= Depth(h[..k])
  }

  /** A function has a frame exactly if its last stop was in a context that has been open since, and the frame has
      the depth and the name of that stop. */
  lemma {:induction false} FrameIs(h: seq<Event>, f: nat, k: nat)
    requires Nested(h) && LastStopIs(h, f, k)
    ensures f in After(h).frames <==> StaysOpen(h, k)
    ensures f in After(h).frames ==> After(h).frames[f] == Frame(Depth(h[..k]), h[k].stop.value.frameName)
    decreases |h|
  {
    hide Visit, KeepEntries, Depth;
    var init, e := h[..|h| - 1], h[|h| - 1];
    NestedRun(init);
    if k == |h| - 1 {
      assert h[..k] == init && h[..k + 1] == h;
      SameDepth(init, h, e);
    } else {
      assert init[k] == h[k] && forall j | k < j < |init| :: init[j] == h[j];
      FrameIs(init, f, k);
      OpenStep(h, k);
      FrameStep(init, h, e, f);
      DepthStep(init, h, e);
    }
  }

  lemma {:induction false} SameDepth(init: seq<Event>, h: seq<Event>, e: Event)
    requires h != [] && init == h[..|h| - 1] && e == h[|h| - 1] && e.Exception?
    ensures Depth(h) == Depth(init)
    ensures h[..|h| - 1] == init && h[..|h|] == h
  {}

  lemma {:induction false} DepthStep(init: seq<Event>, h: seq<Event>, e: Event)
    requires h != [] && init == h[..|h| - 1] && e == h[|h| - 1]
    ensures Depth(h) == Depth(init) + if e.Enter? && e.gameThread then 1 else if e.Exit? && e.gameThread then -1 else 0
  {}

  lemma {:induction false} OpenStep(h: seq<Event>, k: nat)
    requires k < |h|
    ensures var init := h[..|h| - 1];
      && init[..k] == h[..k]
      && (StaysOpen(h, k) <==> StaysOpen(init, k) && Depth(h) >= Depth(h[..k]))
      && (StaysOpen(init, k) ==> Depth(init) >= Depth(h[..k]))
  {
    hide Depth;
    var init := h[..|h| - 1];
    assert forall j | 0 <= j <= |init| :: init[..j] == h[..j];
    assert h[..|h|] == h && init[..|init|] == init;
  }

  /** What one event does to the frame of a function in which it does not stop. */
  lemma {:induction false} FrameStep(init: seq<Event>, h: seq<Event>, e: Event, f: nat)
    requires h != [] && init == h[..|h| - 1] && e == h[|h| - 1] && !StopsAt(e, f)
    ensures var was, now := After(init).frames, After(h).frames;
      && (f in now ==> f in was && now[f] == was[f])
      && (f in was ==> (f !in now <==> e.Exit? && e.gameThread && was[f].tag == e.tag))
  {
    hide Visit, KeepEntries;
  }

  /** A function has a frame if and only if it had a stop whose context has been open since its last stop. */
  lemma {:induction false} FrameExactly(h: seq<Event>, f: nat)
    requires Nested(h)
    ensures f in After(h).frames <==> exists k: nat :: LastStopIs(h, f, k) && StaysOpen(h, k)
  {
    hide After, StaysOpen, StopsAt;
    if j :| 0 <= j < |h| && StopsAt(h[j], f) {
      var k := LastOf(h, f, j);
      FrameIs(h, f, k);
      assert forall l: nat | LastStopIs(h, f, l) :: l == k;
    } else {
      NeverStopped(h, f);
    }
  }

  lemma {:induction false} LastOf(h: seq<Event>, f: nat, j: nat) returns (k: nat)
    requires j < |h| && StopsAt(h[j], f)
    ensures LastStopIs(h, f, k)
    decreases |h| - j
  {
    hide StopsAt;
    if l :| j < l < |h| && StopsAt(h[l], f) { k := LastOf(h, f, l); } else { k := j; }
  }

  /** A function without a stop has no frame. */
  lemma {:induction false} NeverStopped(h: seq<Event>, f: nat)
    requires forall j | 0 <= j < |h| :: !StopsAt(h[j], f)
    ensures f !in After(h).frames
  {
    hide Visit, KeepEntries;
    if h != [] {
      var init := h[..|h| - 1];
      assert forall j | 0 <= j < |init| :: init[j] == h[j];
      NeverStopped(init, f);
      FrameStep(init, h, h[|h| - 1], f);
    }
  }

  /** When all contexts have been left, a function still has a frame if and only if its last stop was outside. */
  lemma {:induction false} FrameLeak(h: seq<Event>, f: nat)
    requires Nested(h) && Depth(h) == 0
    ensures f in After(h).frames <==> LastStop(h, f) == Some(0)
  {
    FrameHistory(h, f);
  }

  /** A stop outside any context, for example in an event that runs before a first context is entered, is still
      listed with its frame after a later context has been entered and left. */
  lemma {:induction false} LeftBehind(s: Stop)
    ensures var h := [Exception(Some(s)), Enter(true, 1), Exit(true, 1)];
      && Nested(h) && Depth(h) == 0 && !NoStopOutside(h) && LastStop(h, s.func) == Some(0)
      && After(h).running == [Entry(s.blueprint, [NodeView(s.node, s.name, 0, SetPins([], s.pins))])]
      && After(h).frames == map[s.func := Frame(0, s.frameName)]
  {
    hide SetPins;
    var a, b, c := Exception(Some(s)), Enter(true, 1), Exit(true, 1);
    var node := NodeView(s.node, s.name, 0, SetPins([], s.pins));
    OneMore([], a, s.func);
    OneMore([a], b, s.func);
    OneMore([a, b], c, s.func);
    assert [] + [a] == [a] && [a] + [b] == [a, b] && [a, b] + [c] == [a, b, c];
    assert [] + [node] == [node];
    assert Visit([], s, 0) == [] + [Entry(s.blueprint, [node])] == [Entry(s.blueprint, [node])];
    OneLeft(s.blueprint, node);
  }

  lemma {:induction false} OneLeft(blueprint: nat, node: NodeView)
    requires node.tag == 0
    ensures KeepEntries([Entry(blueprint, [node])], 1) == [Entry(blueprint, [node])]
  {
    var es := [Entry(blueprint, [node])];
    assert [node][1..] == [] && es[1..] == [];
    assert KeepNodes([node], 1) == [node] + [] == [node];
    assert KeepEntries(es, 1) == es + KeepEntries([], 1);
  }

  lemma {:induction false} OneMore(h: seq<Event>, e: Event, f: nat)
    ensures After(h + [e]) == Step(After(h), e)
    ensures Depth(h + [e])
      == Depth(h) + if e.Enter? && e.gameThread then 1 else if e.Exit? && e.gameThread then -1 else 0
    ensures Nested(h + [e]) <==> (
      && Nested(h)
      && (e.Enter? && e.gameThread ==> e.tag == Depth(h) + 1)
      && (e.Exit? && e.gameThread ==> e.tag == Depth(h) >= 1))
    ensures NoStopOutside(h + [e]) <==> (NoStopOutside(h) && (e.Exception? && e.stop.Some? ==> Depth(h) >= 1))
    ensures LastStop(h + [e], f)
      == if e.Exception? && e.stop.Some? && e.stop.value.func == f then Some(Depth(h)) else LastStop(h, f)
  {
    hide Step;
    assert (h + [e])[..|h|] == h;
  }

  lemma {:induction false} NoZeroStop(h: seq<Event>, f: nat)
    requires Nested(h) && NoStopOutside(h)
    ensures LastStop(h, f) != Some(0)
  {
    if h != [] { NoZeroStop(h[..|h| - 1], f); }
  }

  /** A well-nested run that stops only inside contexts and leaves them all ends as it began. */
  lemma {:induction false} EmptyAgain(h: seq<Event>)
    requires Nested(h) && Depth(h) == 0 && NoStopOutside(h)
    ensures After(h) == EMPTY
  {
    NestedRun(h);
    LeakFree(h);
    forall f ensures f !in After(h).frames {
      FrameLeak(h, f);
      NoZeroStop(h, f);
    }
    assert After(h).frames == map[];
  }
}
