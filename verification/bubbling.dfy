/**
 * What the bubbling walk of `emit` does, stated independently of its
 * step-by-step definition: which nodes dispatch, in which order, and how the
 * event's flags end up.
 */
module Bubbling {
  import opened Propagation
  import opened EventTree

  /** Every node on the route is well rooted, and its own route is the rest of this one. */
  lemma {:induction false} PathSuffix(n: EventNode, i: nat)
    requires n.Rooted() && i < |n.Path()|
    ensures n.Path()[i].Rooted() && n.Path()[i].Path() == n.Path()[i..]
    decreases i
  {
    if i > 0 {
      var p := n.parent;
      assert n.Path() == [n] + p.Path();
      PathSuffix(p, i - 1);
      assert n.Path()[i..] == p.Path()[i - 1..];
    }
  }

  /**
   * The route of a bubbling event is the node and then each parent in turn,
   * ending at a node without parent; no node occurs on it twice.
   */
  lemma PathClimbsToRoot(n: EventNode)
    requires n.Rooted()
    ensures n.Path()[0] == n
    ensures n.Path()[|n.Path()| - 1].parent == null
    ensures forall i :: 0 <= i < |n.Path()| - 1 ==> n.Path()[i].parent == n.Path()[i + 1]
    ensures forall i, j :: 0 <= i < j < |n.Path()| ==> n.Path()[i] != n.Path()[j]
  {
    var path := n.Path();
    PathSuffix(n, |path| - 1);
    forall i | 0 <= i < |path| - 1 ensures path[i].parent == path[i + 1] {
      PathSuffix(n, i);
      assert path[i].Path() == path[i..];
    }
    forall i, j | 0 <= i < j < |path| ensures path[i] != path[j] {
      // A node's route has one element more than its ancestor list, so routes of different lengths start at different nodes.
      PathSuffix(n, i);
      PathSuffix(n, j);
      assert |path[i].Path()| != |path[j].Path()|;
    }
  }

  /**
   * With an event whose propagation is not yet stopped, the walk dispatches on
   * every node up to and including the first one that has a stopping listener
   * (or up to the root), and the final flags are exactly those that node's
   * listeners set.
   */
  lemma {:induction false} VisitStopsAtFirstStopper(path: seq<EventNode>, eventType: string, f: Flags)
    requires path != [] && Consistent(f) && !f.propagationStopped
    ensures var w := Visit(path, eventType, f);
      (forall j :: 0 <= j < w.visited - 1 ==> !HasStopper(ListenersOf(path[j].listeners, eventType))) &&
      (w.visited < |path| ==> HasStopper(ListenersOf(path[w.visited - 1].listeners, eventType))) &&
      (w.flags.propagationStopped <==> HasStopper(ListenersOf(path[w.visited - 1].listeners, eventType))) &&
      (w.flags.immediateStopped <==> HasImmediate(ListenersOf(path[w.visited - 1].listeners, eventType)))
    decreases |path|
  {
    var acts := ListenersOf(path[0].listeners, eventType);
    var g := ApplyAll(f, acts);
    ApplyAllStops(f, acts);
    if |path| > 1 && !g.propagationStopped {
      assert !g.immediateStopped;
      VisitStopsAtFirstStopper(path[1..], eventType, g);
      var rest := Visit(path[1..], eventType, g);
      assert Visit(path, eventType, f) == Walked(rest.visited + 1, rest.flags);
      forall j | 1 <= j < rest.visited + 1 ensures path[j] == path[1..][j - 1] { }
    }
  }

  /**
   * A fresh event whose route has no stopping listener for its type is
   * dispatched on the origin and every ancestor, and ends with both flags false.
   */
  lemma NoStopperReachesRoot(n: EventNode, eventType: string)
    requires n.Rooted()
    requires forall j :: 0 <= j < |n.Path()| ==> !HasStopper(ListenersOf(n.Path()[j].listeners, eventType))
    ensures Visit(n.Path(), eventType, Fresh) == Walked(|n.Path()|, Fresh)
  {
    VisitStopsAtFirstStopper(n.Path(), eventType, Fresh);
  }

  /**
   * When the k-th node of the route is the first with a stopping listener,
   * listeners run on exactly the first k + 1 nodes and no ancestor above.
   */
  lemma StopperEndsWalk(n: EventNode, eventType: string, k: nat)
    requires n.Rooted() && k < |n.Path()|
    requires forall j :: 0 <= j < k ==> !HasStopper(ListenersOf(n.Path()[j].listeners, eventType))
    requires HasStopper(ListenersOf(n.Path()[k].listeners, eventType))
    ensures Visit(n.Path(), eventType, Fresh).visited == k + 1
    ensures Visit(n.Path(), eventType, Fresh).flags.propagationStopped
  {
    VisitStopsAtFirstStopper(n.Path(), eventType, Fresh);
  }

  /**
   * A listener at the origin that stops propagation immediately confines the
   * event to the origin and leaves both flags set.
   */
  lemma ImmediateStopAtOrigin(n: EventNode, eventType: string)
    requires n.Rooted()
    requires HasImmediate(ListenersOf(n.listeners, eventType))
    ensures Visit(n.Path(), eventType, Fresh) == Walked(1, Flags(true, true))
  {
    ApplyAllStops(Fresh, ListenersOf(n.listeners, eventType));
  }

  /**
   * An event that arrives with its immediate stop set is refused by the node
   * it arrives at: no listener there or further up runs.
   */
  lemma ImmediateStopRefusesEntry(n: EventNode, eventType: string, f: Flags)
    requires n.Rooted() && f.immediateStopped
    ensures Walk(n.Path(), eventType, f) == Walked(0, f)
  {
  }

  /**
   * The flags never go back from true to false along a walk: a flag that is
   * set when the event enters, or that the listeners of any node the walk
   * dispatched on set, is still set when the walk ends.
   */
  lemma {:induction false} WalkKeepsLatches(path: seq<EventNode>, eventType: string, f: Flags)
    ensures f.propagationStopped ==> Walk(path, eventType, f).flags.propagationStopped
    ensures f.immediateStopped ==> Walk(path, eventType, f).flags.immediateStopped
    ensures forall j :: 0 <= j < Walk(path, eventType, f).visited && HasStopper(ListenersOf(path[j].listeners, eventType)) ==>
      Walk(path, eventType, f).flags.propagationStopped
    ensures forall j :: 0 <= j < Walk(path, eventType, f).visited && HasImmediate(ListenersOf(path[j].listeners, eventType)) ==>
      Walk(path, eventType, f).flags.immediateStopped
    decreases |path|
  {
    if path != [] && !f.immediateStopped {
      var g := ApplyAll(f, ListenersOf(path[0].listeners, eventType));
      ApplyAllStops(f, ListenersOf(path[0].listeners, eventType));
      if |path| > 1 && !g.propagationStopped {
        WalkKeepsLatches(path[1..], eventType, g);
        forall j | 1 <= j < Walk(path, eventType, f).visited ensures path[j] == path[1..][j - 1] { }
      }
    }
  }

  /** Builds root → a → b → c with `addChild`; every node is well formed and has no listeners. */
  method Chain() returns (root: EventNode, a: EventNode, b: EventNode, c: EventNode)
    ensures root.Valid() && a.Valid() && b.Valid() && c.Valid()
    ensures root.children == [a] && a.children == [b] && b.children == [c] && c.children == []
    ensures c.Path() == [c, b, a, root]
    ensures c.listeners == map[] && b.listeners == map[] && a.listeners == map[] && root.listeners == map[]
    ensures root.parent == null && c != b
    ensures fresh(root) && fresh(a) && fresh(b) && fresh(c)
  {
    root := new EventNode("root");
    var ra := root.AddChild("a");
    a := ra.child;
    assert root.Valid() && root.children == [a] && root.listeners == map[];
    var rb := a.AddChild("b");
    b := rb.child;
    assert a.Valid() && a.children == [b] && a.listeners == map[];
    assert root.Valid() && root.children == [a];
    var rc := b.AddChild("c");
    c := rc.child;
    assert b.Valid() && b.children == [c] && b.listeners == map[];
    assert a.Valid() && a.children == [b] && root.Valid() && root.children == [a];
  }

  /**
   * On root → a → b → c without listeners, an event emitted at c is
   * dispatched on c, b, a and root in that order, all with the same id and payload.
   */
  method BubblesToRoot(uids: EventUid) returns (root: EventNode, c: EventNode, ghost trace: seq<Dispatch<int>>)
    requires uids.Valid()
    modifies uids
    ensures |trace| == 4
    ensures [trace[0].node, trace[1].node, trace[2].node, trace[3].node] == c.Path()
    ensures trace[0].node == c && trace[3].node == root && root.parent == null
    ensures forall i :: 0 <= i < 4 ==> trace[i].eventId == trace[0].eventId && trace[i].payload == [1]
  {
    var a, b;
    root, a, b, c := Chain();
    assert c.listeners == map[];
    NoStopperReachesRoot(c, "click");
    var r;
    ghost var evt;
    r, evt, trace := c.Emit("click", [1], uids);
  }

  /**
   * On root → a → b → c with one listener at b that calls `stopPropagation`,
   * an event emitted at c is dispatched on c and b only, and ends stopped.
   */
  method StopsAtB(uids: EventUid) returns (b: EventNode, c: EventNode, ghost trace: seq<Dispatch<int>>)
    requires uids.Valid()
    modifies uids
    ensures |trace| == 2 && trace[0].node == c && trace[1].node == b && c.parent == b
  {
    var root, a;
    root, a, b, c := Chain();
    b.On("click", Stop);
    assert c.listeners == map[] && ListenersOf(b.listeners, "click") == [Stop];
    StopperEndsWalk(c, "click", 1);
    var r;
    ghost var evt;
    r, evt, trace := c.Emit("click", [1], uids);
  }
}
