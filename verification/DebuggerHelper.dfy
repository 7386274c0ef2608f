/** The debugger helper itself: nested lists changed in place by the engine's context and exception callbacks. */
module DebuggerHelper {
  import opened Options
  import opened TraceModel

  /** A visited node, shared by pointer. */
  class NodeData {
    const node: nat
    const name: string
    const tag: int
    ghost const owner: NodesInfo
    var properties: seq<(nat, int)>

    constructor (node: nat, name: string, tag: int, ghost owner: NodesInfo)
      ensures this.node == node && this.name == name && this.tag == tag && this.owner == owner && properties == []
    {
      this.node, this.name, this.tag, this.owner, properties := node, name, tag, owner, [];
    }

    function View(): NodeView
      reads this
    {
      NodeView(node, name, tag, properties)
    }

    /** FindByPredicate, then add or overwrite. */
    method SetProperty(pin: nat, v: int)
      modifies this
      ensures properties == SetPin(old(properties), pin, v)
    {
      var j := 0;
      while j < |properties| && properties[j].0 != pin
        invariant 0 <= j <= |properties| && properties == old(properties)
        invariant forall k | 0 <= k < j :: properties[k].0 != pin
      {
        j := j + 1;
      }
      SetPinAt(properties, pin, v, j);
      if j == |properties| {
        properties := properties + [(pin, v)];
      } else {
        properties := properties[j := (pin, v)];
      }
    }

    /** The loop over the pins of the node. */
    method SetProperties(pins: seq<(nat, Option<int>)>)
      modifies this
      ensures properties == SetPins(old(properties), pins)
    {
      assert pins[..0] == [];
      for i := 0 to |pins|
        invariant properties == SetPins(old(properties), pins[..i])
      {
        assert pins[..i + 1][..i] == pins[..i];
        if pins[i].1.Some? { SetProperty(pins[i].0, pins[i].1.value); }
      }
      assert pins[..|pins|] == pins;
    }
  }

  /** j is the position of the pin, or the end of the list if there is none. */
  lemma {:induction false} SetPinAt(ps: seq<(nat, int)>, pin: nat, v: int, j: nat)
    requires j <= |ps| && (forall k | 0 <= k < j :: ps[k].0 != pin) && (j < |ps| ==> ps[j].0 == pin)
    ensures SetPin(ps, pin, v) == if j == |ps| then ps + [(pin, v)] else ps[j := (pin, v)]
  {
    if ps == [] {
    } else if j == 0 {
      assert ps[0 := (pin, v)] == [(pin, v)] + ps[1..];
    } else {
      SetPinAt(ps[1..], pin, v, j - 1);
    }
  }

  function ViewNodes(ns: seq<NodeData>): (vs: seq<NodeView>)
    reads ns
    ensures |vs| == |ns| && forall i | 0 <= i < |ns| :: vs[i] == ns[i].View()
  {
    if ns == [] then [] else [ns[0].View()] + ViewNodes(ns[1..])
  }

  /** The node stack of one blueprint, shared by pointer. */
  class NodesInfo {
    var nodes: seq<NodeData>

    constructor ()
      ensures nodes == []
    {
      nodes := [];
    }

    /** The nodes are different objects, and belong to this stack. */
    ghost predicate Valid()
      reads this
    {
      && (forall k | 0 <= k < |nodes| :: nodes[k].owner == this)
      && (forall k, l | 0 <= k < l < |nodes| :: nodes[k] != nodes[l])
    }

    /** Push the node unless it is on top, then refresh the pins of the top. */
    method Visit(s: Stop, tag: int)
      requires Valid()
      modifies this, nodes
      ensures Valid() && ViewNodes(nodes) == VisitNodes(old(ViewNodes(nodes)), s, tag)
      ensures forall n | n in nodes :: n in old(nodes) || fresh(n)
    {
      hide SetPins, ViewNodes;
      ghost var v := ViewNodes(nodes);
      var current;
      if |nodes| == 0 || nodes[|nodes| - 1].node != s.node {
        current := new NodeData(s.node, s.name, tag, this);
        nodes := nodes + [current];
      } else {
        current := nodes[|nodes| - 1];
      }
      current.SetProperties(s.pins);
      assert forall k | 0 <= k < |nodes| - 1 :: nodes[k] != current && ViewNodes(nodes)[k] == v[k];
      assert ViewNodes(nodes) == VisitNodes(v, s, tag);
    }

    /** The iterator's RemoveCurrent. */
    method RemoveAt(j: nat)
      requires Valid() && j < |nodes|
      modifies this
      ensures Valid() && nodes == old(nodes)[..j] + old(nodes)[j + 1..]
      ensures ViewNodes(nodes) == old(ViewNodes(nodes))[..j] + old(ViewNodes(nodes))[j + 1..]
    {
      ghost var v := ViewNodes(nodes);
      nodes := nodes[..j] + nodes[j + 1..];
      ghost var before := old(nodes);
      forall k, l | 0 <= k < l < |nodes| ensures nodes[k] != nodes[l] {
        var k', l' := if k < j then k else k + 1, if l < j then l else l + 1;
        assert nodes[k] == before[k'] && nodes[l] == before[l'] && before[k'] != before[l'];
      }
      assert ViewNodes(nodes) == v[..j] + v[j + 1..];
    }

    /** The inner loop of OnExitScriptContext: RemoveCurrent also steps the iterator back. */
    method RemoveTagged(t: int)
      requires Valid()
      modifies this
      ensures Valid() && ViewNodes(nodes) == KeepNodes(old(ViewNodes(nodes)), t)
      ensures forall n | n in nodes :: n in old(nodes)
    {
      hide Valid, KeepNodes, ViewNodes;
      var j := 0;
      ghost var all := ViewNodes(nodes);
      assert all[..0] == [] && all[0..] == all;
      while j < |nodes|
        invariant 0 <= j <= |nodes| && Valid()
        invariant forall n | n in nodes :: n in old(nodes)
        invariant ViewNodes(nodes)[..j] + KeepNodes(ViewNodes(nodes)[j..], t) == KeepNodes(all, t)
        decreases |nodes| - j
      {
        KeepStep(ViewNodes(nodes), j, t);
        if nodes[j].tag == t {
          RemoveAt(j);
          j := j - 1;
        }
        j := j + 1;
      }
      KeepNothing(t);
      assert ViewNodes(nodes)[..j] == ViewNodes(nodes) && ViewNodes(nodes)[j..] == [];
    }
  }

  lemma {:induction false} KeepNothing(t: int)
    ensures KeepNodes([], t) == []
  {}

  /** One step of the filter: the element at j is dropped, or passed. */
  lemma {:induction false} KeepStep(v: seq<NodeView>, j: nat, t: int)
    requires j < |v|
    ensures var w := v[..j] + v[j + 1..];
      v[j].tag == t ==> v[..j] + KeepNodes(v[j..], t) == w[..j] + KeepNodes(w[j..], t)
    ensures v[j].tag != t ==> v[..j] + KeepNodes(v[j..], t) == v[..j + 1] + KeepNodes(v[j + 1..], t)
  {
    assert v[j..][1..] == v[j + 1..];
    var w := v[..j] + v[j + 1..];
    assert w[..j] == v[..j] && w[j..] == v[j + 1..];
  }

  predicate Holds(rs: seq<(nat, NodesInfo)>, I: set<NodesInfo>, D: set<NodeData>)
    reads I
  {
    && (forall i | 0 <= i < |rs| :: rs[i].1 in I)
    && (forall i, n | 0 <= i < |rs| && n in rs[i].1.nodes :: n in D)
  }

  function ViewEntries(rs: seq<(nat, NodesInfo)>, I: set<NodesInfo>, D: set<NodeData>): (es: seq<Entry>)
    requires Holds(rs, I, D)
    reads I, D
    ensures |es| == |rs| && forall i | 0 <= i < |rs| :: es[i] == Entry(rs[i].0, ViewNodes(rs[i].1.nodes))
  {
    if rs == [] then [] else [Entry(rs[0].0, ViewNodes(rs[0].1.nodes))] + ViewEntries(rs[1..], I, D)
  }

  class DebuggerHelper {
    var running: seq<(nat, NodesInfo)>
    var frames: map<nat, Frame>
    var currentScriptEntryTag: int
    ghost var Infos: set<NodesInfo>
    ghost var Datas: set<NodeData>
    ghost var history: seq<Event>

    /** The stacks are different objects. */
    ghost predicate Owned()
      reads this`running, this`Infos, this`Datas, Infos
    {
      && Holds(running, Infos, Datas)
      && (forall i | 0 <= i < |running| :: running[i].1.Valid())
      && (forall i, j | 0 <= i < j < |running| :: running[i].1 != running[j].1)
    }

    ghost function View(): (es: seq<Entry>)
      reads this`running, this`Infos, this`Datas, Infos, Datas
      requires Owned()
      ensures |es| == |running|
      ensures forall i | 0 <= i < |running| :: es[i] == Entry(running[i].0, ViewNodes(running[i].1.nodes))
    {
      ViewEntries(running, Infos, Datas)
    }

    /** The module's data are what the callbacks so far make of an empty trace. */
    ghost predicate Valid()
      reads this, Infos, Datas
    {
      Owned() && Trace(View(), frames, currentScriptEntryTag) == After(history)
    }

    /** StartupModule. */
    constructor ()
      ensures Valid() && history == [] && fresh(Infos) && fresh(Datas)
    {
      running, frames, currentScriptEntryTag := [], map[], 0;
      Infos, Datas, history := {}, {}, [];
    }

    method OnEnterScriptContext(gameThread: bool, tag: int)
      requires Valid()
      modifies this`currentScriptEntryTag, this`history
      ensures Valid() && history == old(history) + [Enter(gameThread, tag)]
    {
      hide After, Owned, View;
      AfterContext(history, gameThread, tag);
      if gameThread { currentScriptEntryTag := tag; }
      history := history + [Enter(gameThread, tag)];
    }

    /** OnExitScriptContext: both lists are thinned out while they are walked, then the frames. */
    method OnExitScriptContext(gameThread: bool, tag: int)
      requires Valid()
      modifies this`running, this`frames, this`currentScriptEntryTag, this`history, Infos
      ensures Valid() && history == old(history) + [Exit(gameThread, tag)]
    {
      hide After, KeepEntries, KeepFrames, Owned, View;
      AfterContext(history, gameThread, tag);
      if gameThread {
        Sweep(tag);
        EraseFrames(tag);
        currentScriptEntryTag := currentScriptEntryTag - 1;
      }
      history := history + [Exit(gameThread, tag)];
    }

    /** The outer loop. */
    method Sweep(tag: int)
      requires Owned()
      modifies this`running, Infos
      ensures Owned() && View() == KeepEntries(old(View()), tag)
    {
      hide KeepNodes, KeepEntries, Owned, View;
      var i := 0;
      ghost var all := View();
      assert all[..0] == [] && all[0..] == all;
      while i < |running|
        invariant 0 <= i <= |running| && Owned()
        invariant View()[..i] + KeepEntries(View()[i..], tag) == KeepEntries(all, tag)
        decreases |running| - i
      {
        SweepStep(View(), i, tag);
        var left := Thin(i, tag);
        if left == 0 {
          RemoveRunning(i);
          i := i - 1;
        }
        i := i + 1;
      }
      assert View()[..i] == View() && View()[i..] == [];
      SweepNothing(tag);
    }

    /** The inner loop, and how many nodes it leaves. */
    method Thin(i: nat, tag: int) returns (left: nat)
      requires Owned() && i < |running|
      modifies Infos
      ensures Owned()
      ensures View() == old(View())[i := Entry(old(View())[i].blueprint, KeepNodes(old(View())[i].nodes, tag))]
      ensures left == |KeepNodes(old(View())[i].nodes, tag)|
    {
      hide KeepNodes, ViewNodes, ViewEntries, NodesInfo.Valid;
      ghost var v := View();
      running[i].1.RemoveTagged(tag);
      left := |running[i].1.nodes|;
      assert View() == v[i := Entry(v[i].blueprint, KeepNodes(v[i].nodes, tag))];
    }

    method RemoveRunning(i: nat)
      requires Owned() && i < |running|
      modifies this`running
      ensures Owned() && View() == old(View())[..i] + old(View())[i + 1..]
    {
      hide ViewNodes, ViewEntries, NodesInfo.Valid;
      ghost var v := View();
      ghost var before := running;
      running := running[..i] + running[i + 1..];
      forall k, l | 0 <= k < l < |running| ensures running[k].1 != running[l].1 {
        var k', l' := if k < i then k else k + 1, if l < i then l else l + 1;
        assert running[k] == before[k'] && running[l] == before[l'] && before[k'].1 != before[l'].1;
      }
      assert View() == v[..i] + v[i + 1..];
    }

    /** OnScriptException, on any thread. */
    method OnScriptException(x: Raised)
      requires Valid()
      modifies this`running, this`frames, this`Infos, this`Datas, this`history, Infos, Datas
      ensures Valid() && history == old(history) + [Exception(StopOf(x))]
      ensures fresh(Infos - old(Infos)) && fresh(Datas - old(Datas))
    {
      hide After, Visit, Owned, View;
      AfterException(history, x);
      history := history + [Exception(StopOf(x))];
      if x.kind != Tracepoint && x.kind != WireTracepoint && x.kind != Breakpoint { return; }
      if x.func.None? { return; }
      if !x.generatedClass { return; }
      if x.blueprint.None? { return; }
      if x.node.None? { return; }
      var frameName := x.friendlyName + "::" + x.title;
      frames := frames[x.func.value := Frame(currentScriptEntryTag, frameName)];
      RecordStop(Stop(x.func.value, x.blueprint.value, x.node.value, x.title, frameName, x.pins));
    }

    /** The blueprint's stack, found or added, and the node on it. */
    method RecordStop(s: Stop)
      requires Owned()
      modifies this`running, this`Infos, this`Datas, Infos, Datas
      ensures Owned() && View() == Visit(old(View()), s, currentScriptEntryTag)
      ensures fresh(Infos - old(Infos)) && fresh(Datas - old(Datas))
    {
      hide Visit, Owned, View, VisitNodes, IndexOf;
      VisitSteps(View(), s, currentScriptEntryTag);
      var i := FindOrAdd(s.blueprint);
      VisitNode(i, s);
    }

    method FindOrAdd(blueprint: nat) returns (i: nat)
      requires Owned()
      modifies this`running, this`Infos
      ensures Owned() && fresh(Infos - old(Infos))
      ensures i == IndexOf(old(View()), blueprint) && i < |running|
      ensures View() == if i == |old(View())| then old(View()) + [Entry(blueprint, [])] else old(View())
    {
      hide Owned, View;
      i := FindBlueprint(blueprint);
      if i == |running| { AddBlueprint(blueprint); }
    }

    method FindBlueprint(blueprint: nat) returns (i: nat)
      requires Owned()
      ensures i == IndexOf(View(), blueprint)
    {
      hide Owned, View;
      i := 0;
      ghost var v := View();
      assert v[0..] == v;
      while i < |running| && running[i].0 != blueprint
        invariant 0 <= i <= |running| && IndexOf(v, blueprint) == i + IndexOf(v[i..], blueprint)
      {
        assert v[i..][1..] == v[i + 1..];
        i := i + 1;
      }
    }

    method AddBlueprint(blueprint: nat)
      requires Owned()
      modifies this`running, this`Infos
      ensures Owned() && View() == old(View()) + [Entry(blueprint, [])]
      ensures fresh(Infos - old(Infos))
    {
      hide ViewEntries;
      ghost var v := View();
      var info := new NodesInfo();
      Infos := Infos + {info};
      running := running + [(blueprint, info)];
      assert View() == v + [Entry(blueprint, [])];
    }

    /** Push the node unless it is on top, then refresh the pins of the top. */
    method VisitNode(i: nat, s: Stop)
      requires Owned() && i < |running|
      modifies this`Datas, Infos, Datas
      ensures Owned() && fresh(Datas - old(Datas))
      ensures var e := old(View())[i];
        View() == old(View())[i := Entry(e.blueprint, VisitNodes(e.nodes, s, currentScriptEntryTag))]
    {
      hide ViewEntries, VisitNodes, ViewNodes;
      ghost var v := View();
      var info := running[i].1;
      forall k, n | 0 <= k < |running| && k != i && n in running[k].1.nodes ensures n !in info.nodes {
        assert running[k].1 != info;
      }
      info.Visit(s, currentScriptEntryTag);
      Datas := Datas + set n | n in info.nodes;
      forall k | 0 <= k < |running| && k != i ensures View()[k] == v[k] {}
      assert View() == v[i := Entry(v[i].blueprint, VisitNodes(v[i].nodes, s, currentScriptEntryTag))];
    }

    method EraseFrames(tag: int)
      modifies this`frames
      ensures frames == KeepFrames(old(frames), tag)
    {
      var rest := frames.Keys;
      while rest != {}
        invariant rest <= frames.Keys
        invariant frames == map f | f in old(frames) && (f in rest || old(frames)[f].tag != tag) :: old(frames)[f]
        decreases |rest|
      {
        var f :| f in rest;
        rest := rest - {f};
        if frames[f].tag == tag { frames := frames - {f}; }
      }
    }
  }

  /** A visit in two steps: add the blueprint if it is new, then visit its nodes. */
  lemma {:induction false} VisitSteps(v: seq<Entry>, s: Stop, tag: int)
    ensures var i := IndexOf(v, s.blueprint); var w := if i == |v| then v + [Entry(s.blueprint, [])] else v;
      Visit(v, s, tag) == w[i := Entry(w[i].blueprint, VisitNodes(w[i].nodes, s, tag))]
  {
    hide VisitNodes;
  }

  lemma {:induction false} AfterContext(h: seq<Event>, gameThread: bool, t: int)
    ensures var c := After(h);
      && After(h + [Enter(gameThread, t)]) == (if gameThread then c.(tag := t) else c)
      && After(h + [Exit(gameThread, t)])
         == if gameThread then Trace(KeepEntries(c.running, t), KeepFrames(c.frames, t), c.tag - 1) else c
  {
    hide KeepEntries, KeepFrames;
    assert (h + [Enter(gameThread, t)])[..|h|] == h;
    assert (h + [Exit(gameThread, t)])[..|h|] == h;
  }

  lemma {:induction false} AfterException(h: seq<Event>, x: Raised)
    ensures var c := After(h);
      After(h + [Exception(StopOf(x))]) ==
      if x.kind != OtherException && x.func.Some? && x.generatedClass && x.blueprint.Some? && x.node.Some? then
        var s := Stop(x.func.value, x.blueprint.value, x.node.value, x.title, x.friendlyName + "::" + x.title, x.pins);
        Trace(Visit(c.running, s, c.tag), c.frames[s.func := Frame(c.tag, s.frameName)], c.tag)
      else c
  {
    hide Visit;
    assert (h + [Exception(StopOf(x))])[..|h|] == h;
  }

  lemma {:induction false} SweepNothing(tag: int)
    ensures KeepEntries([], tag) == []
  {}

  /** One step of the filter on blueprints: the entry at i is thinned out, and dropped if nothing is left. */
  lemma {:induction false} SweepStep(v: seq<Entry>, i: nat, tag: int)
    requires i < |v|
    ensures var kept := KeepNodes(v[i].nodes, tag); var w := v[i := Entry(v[i].blueprint, kept)];
      var x := w[..i] + w[i + 1..];
      v[..i] + KeepEntries(v[i..], tag)
        == if kept == [] then x[..i] + KeepEntries(x[i..], tag) else w[..i + 1] + KeepEntries(w[i + 1..], tag)
  {
    hide KeepNodes;
    assert v[i..][1..] == v[i + 1..];
    var kept := KeepNodes(v[i].nodes, tag);
    var w := v[i := Entry(v[i].blueprint, kept)];
    var x := w[..i] + w[i + 1..];
    assert w[i + 1..] == v[i + 1..] && w[..i] == v[..i];
    assert x[..i] == v[..i] && x[i..] == v[i + 1..];
    assert w[..i + 1] == v[..i] + [Entry(v[i].blueprint, kept)];
  }
}
