/**
 * A tree of event nodes with DOM-style bubbling (event-node.js).
 *
 * A `SyntheticEvent` is created where an event originates and the same object
 * is handed up the parent chain; every node runs its own listeners on it and
 * passes it on to its parent unless a listener stopped propagation.  The flat
 * emitter a node is built on is modelled by a per-type list of listener
 * actions (`listeners`); each action may only set the event's flags.
 */
module EventTree {
  import opened Wrappers
  import opened Sequences
  import opened Propagation

  /** The argument of `get` and `removeChild`: a position or a child's name. */
  datatype Key = Index(i: nat) | Name(s: string)

  /** The classification returned by `type()`: "root", "branch" or "leaf". */
  datatype NodeType = Root | Branch | Leaf

  /** What `addChild` does: return the new child, or throw the duplicate-name error. */
  datatype AddOutcome = Added(child: EventNode) | DuplicateChild

  /** What `emit` returns: `false` for a refused bubbling entry, otherwise the node itself. */
  datatype EmitReturn = False | This(node: EventNode)

  /**
   * One local dispatch, as a ghost record: the node whose listeners ran and the
   * arguments `[type, event, ...payload]` they received (the event by its id and
   * the `currentNode` it carried at that moment).
   */
  datatype Dispatch<T> = Dispatch(node: EventNode, eventType: string, eventId: nat, current: EventNode, payload: seq<T>)

  /** The listeners registered for `eventType` in a node's registry, in registration order. */
  function ListenersOf(m: map<string, seq<Action>>, eventType: string): seq<Action> {
    if eventType in m then m[eventType] else []
  }

  /**
   * 2^53. The counter is a JavaScript number, so `++counter` counts exactly up
   * to this value; from there on the increment rounds back to the same value.
   */
  const MaxExactId: nat := 0x20_0000_0000_0000

  /** The value `++counter` stores when the counter holds `c`. */
  function NextId(c: nat): nat {
    if c < MaxExactId then c + 1 else c
  }

  /** The event-id counter: a closure variable shared by every event of the process. */
  class EventUid {
    var counter: nat
    /** The ids handed out so far, oldest first. */
    ghost var issued: seq<nat>

    /** The k-th id handed out is k + 1, until the counter stops at 2^53. */
    ghost predicate Valid()
      reads this
    {
      counter == (if |issued| < MaxExactId then |issued| else MaxExactId) &&
      forall k :: 0 <= k < |issued| ==> issued[k] == if k < MaxExactId then k + 1 else MaxExactId
    }

    constructor ()
      ensures Valid() && counter == 0 && issued == []
    {
      counter := 0;
      issued := [];
    }

    /**
     * `++counter`: the first id is 1, and below 2^53 every id is larger than
     * all earlier ones; once the counter holds 2^53 the same id comes back.
     */
    method Next() returns (id: nat)
      requires Valid()
      modifies this
      ensures Valid()
      ensures counter == id && issued == old(issued) + [id]
      ensures old(counter) < MaxExactId ==> id == old(counter) + 1
      ensures old(counter) < MaxExactId ==> forall k :: 0 <= k < |old(issued)| ==> old(issued)[k] < id
      ensures old(counter) == MaxExactId ==> id == MaxExactId && id in old(issued)
    {
      if counter < MaxExactId {
        counter := counter + 1;
      } else {
        assert issued[|issued| - 1] == MaxExactId;
      }
      id := counter;
      issued := issued + [id];
    }
  }

  /** One occurrence of a named event, shared by reference along its bubbling walk. */
  class SyntheticEvent {
    const eventType: string
    const originNode: EventNode
    var currentNode: EventNode
    const id: nat
    var isPropagationStopped: bool
    var isImmediatePropagationStopped: bool

    /** Both flags as one value. */
    function State(): Flags
      reads this
    {
      Flags(isPropagationStopped, isImmediatePropagationStopped)
    }

    /** `new SyntheticEvent({origin, type})`: draws the next id; both flags start false. */
    constructor (origin: EventNode, eventType: string, uids: EventUid)
      requires uids.Valid()
      modifies uids
      ensures uids.Valid() && uids.counter == NextId(old(uids.counter))
      ensures uids.issued == old(uids.issued) + [id]
      ensures this.eventType == eventType && originNode == origin && currentNode == origin
      ensures id == uids.counter
      ensures State() == Fresh
    {
      var n := uids.Next();
      this.eventType := eventType;
      originNode := origin;
      currentNode := origin;
      id := n;
      isPropagationStopped := false;
      isImmediatePropagationStopped := false;
    }

    /** Sets `isPropagationStopped`; nothing else changes. */
    method StopPropagation()
      modifies this
      ensures isPropagationStopped
      ensures isImmediatePropagationStopped == old(isImmediatePropagationStopped)
      ensures currentNode == old(currentNode)
      ensures State() == ApplyAction(old(State()), Stop)
    {
      isPropagationStopped := true;
    }

    /** Sets both flags; nothing else changes. */
    method StopImmediatePropagation()
      modifies this
      ensures isPropagationStopped && isImmediatePropagationStopped
      ensures currentNode == old(currentNode)
      ensures State() == ApplyAction(old(State()), StopImmediate)
    {
      isImmediatePropagationStopped := true;
      isPropagationStopped := true;
    }
  }

  /**
   * The first position in `cs` of a child called `s`, as the `some` scan of
   * `removeChild` and the `filter(...)[0]` of `get` find it.
   */
  function IndexOfName(cs: seq<EventNode>, s: string): (r: Option<nat>)
    ensures r.Some? ==> r.value < |cs| && cs[r.value].name == Some(s)
    ensures r.Some? ==> forall j :: 0 <= j < r.value ==> cs[j].name != Some(s)
    ensures r.None? ==> forall j :: 0 <= j < |cs| ==> cs[j].name != Some(s)
  {
    if cs == [] then None
    else if cs[0].name == Some(s) then Some(0)
    else
      var k := IndexOfName(cs[1..], s);
      if k.None? then None else Some(k.value + 1)
  }

  /** A walk result: how many nodes dispatched, and the event's flags at the end. */
  datatype Walked = Walked(visited: nat, flags: Flags)

  /**
   * A bubbling entry at `path[0]` with an event whose flags are `f`: refused
   * outright when the immediate-stop latch is set, otherwise a `Visit`.
   */
  ghost function Walk(path: seq<EventNode>, eventType: string, f: Flags): (w: Walked)
    reads path
    ensures w.visited <= |path|
    ensures w.visited == 0 ==> w.flags == f
    decreases |path|, 1
  {
    if path == [] || f.immediateStopped then Walked(0, f)
    else Visit(path, eventType, f)
  }

  /**
   * Local dispatch at `path[0]` (its listeners for the type, in order), then a
   * bubbling entry at `path[1]` unless this was the last node or propagation
   * is now stopped.
   */
  ghost function Visit(path: seq<EventNode>, eventType: string, f: Flags): (w: Walked)
    requires path != []
    reads path
    ensures 1 <= w.visited <= |path|
    ensures Consistent(f) ==> Consistent(w.flags)
    decreases |path|, 0
  {
    var g := ApplyAll(f, ListenersOf(path[0].listeners, eventType));
    if |path| == 1 || g.propagationStopped then Walked(1, g)
    else
      var rest := Walk(path[1..], eventType, g);
      Walked(rest.visited + 1, rest.flags)
  }

  /** A node of the tree, with its own listener registry. */
  class EventNode {
    /** The node's name; `new EventNode(name)` leaves it unset for a falsy name. */
    const name: Option<string>
    /** Set once, by `addChild`; `removeChild` leaves it in place. */
    const parent: EventNode?
    /** The ancestors, nearest first: the finite witness that the parent chain ends. */
    ghost const ancestors: seq<EventNode>
    var children: seq<EventNode>
    /** `_names`: read by `addChild`, initialised empty, never appended to. */
    var names: seq<string>
    /** The flat emitter's listeners of this node, per event type. */
    var listeners: map<string, seq<Action>>

    /** The parent chain is exactly `ancestors` and ends at a node without parent. */
    ghost predicate Rooted()
      decreases |ancestors|
    {
      if parent == null then ancestors == []
      else ancestors == [parent] + parent.ancestors && parent.Rooted()
    }

    /** This node followed by its ancestors: the route a bubbling event takes. */
    ghost function Path(): seq<EventNode> {
      [this] + ancestors
    }

    /** Children are distinct and all point back at this node. */
    ghost predicate Valid()
      reads this
    {
      Rooted() &&
      Distinct(children) &&
      (forall c :: c in children ==> c.parent == this)
    }

    /** `new EventNode(name)`: a root without children. */
    constructor (name: string)
      ensures this.name == (if name == "" then None else Some(name))
      ensures parent == null && ancestors == [] && Valid()
      ensures children == [] && names == [] && listeners == map[]
    {
      this.name := if name == "" then None else Some(name);
      parent := null;
      ancestors := [];
      children := [];
      names := [];
      listeners := map[];
    }

    /** The child `addChild` builds: `new EventNode()`, then `parent` and `name` assigned. */
    constructor Child(p: EventNode, name: string)
      requires p.Rooted()
      ensures this.name == Some(name) && parent == p && ancestors == p.Path() && Valid()
      ensures children == [] && names == [] && listeners == map[]
    {
      this.name := Some(name);
      parent := p;
      ancestors := p.Path();
      children := [];
      names := [];
      listeners := map[];
    }

    /** Registers a listener for `eventType` after those already registered (the emitter's `on`). */
    method On(eventType: string, act: Action)
      modifies this
      ensures listeners == old(listeners)[eventType := ListenersOf(old(listeners), eventType) + [act]]
      ensures children == old(children) && names == old(names)
    {
      listeners := listeners[eventType := ListenersOf(listeners, eventType) + [act]];
    }

    /**
     * `addChild(name)` as written: it throws exactly when `name` is in `_names`
     * (which nothing fills); otherwise it appends one new empty child.
     */
    method AddChild(name: string) returns (r: AddOutcome)
      requires Valid()
      modifies this
      ensures Valid()
      ensures r.DuplicateChild? <==> name in old(names)
      ensures r.DuplicateChild? ==> children == old(children)
      ensures r.Added? ==> fresh(r.child) && r.child.parent == this && r.child.name == Some(name)
      ensures r.Added? ==> r.child.children == [] && children == old(children) + [r.child]
      ensures r.Added? ==> r.child.Valid() && r.child.ancestors == Path()
      ensures r.Added? ==> r.child.names == [] && r.child.listeners == map[]
      ensures r.Added? ==> Get(Name(name)) == if old(Get(Name(name))).Some? then old(Get(Name(name))) else Some(r.child)
      ensures names == old(names) && listeners == old(listeners)
    {
      if name in names {
        return DuplicateChild;
      }
      var child := new EventNode.Child(this, name);
      NameAfterAppend(children, child, name);
      children := children + [child];
      return Added(child);
    }

    /**
     * `addChild` with the duplicate check that its error ("This node already has
     * a child named ...") announces: it refuses a name some child already has,
     * so a name that was free is afterwards found by `get`.
     */
    method AddUniqueChild(name: string) returns (r: AddOutcome)
      requires Valid()
      modifies this
      ensures Valid()
      ensures r.DuplicateChild? <==> old(Get(Name(name))).Some?
      ensures r.DuplicateChild? ==> children == old(children)
      ensures r.Added? ==> fresh(r.child) && r.child.parent == this && r.child.name == Some(name)
      ensures r.Added? ==> r.child.children == [] && children == old(children) + [r.child]
      ensures r.Added? ==> r.child.Valid() && r.child.ancestors == Path()
      ensures r.Added? ==> r.child.names == [] && r.child.listeners == map[]
      ensures r.Added? ==> Get(Name(name)) == Some(r.child)
      ensures UniqueNames(old(children)) ==> UniqueNames(children)
      ensures names == old(names) && listeners == old(listeners)
    {
      if IndexOfName(children, name).Some? {
        return DuplicateChild;
      }
      var child := new EventNode.Child(this, name);
      NameAfterAppend(children, child, name);
      children := children + [child];
      return Added(child);
    }

    /** The position `get` and `removeChild` resolve `key` to, if any. */
    function Locate(key: Key): (r: Option<nat>)
      reads this
      ensures r.Some? ==> r.value < |children|
    {
      match key
      case Index(i) => if i < |children| then Some(i) else None
      case Name(s) => IndexOfName(children, s)
    }

    /**
     * `get(idxOrName)`: the child at an in-range index, or the first child with
     * the name; `None` where the source yields `undefined`.
     */
    function Get(key: Key): (r: Option<EventNode>)
      reads this
      ensures r.Some? ==> r.value in children
      ensures key.Index? ==> (r.Some? <==> key.i < |children|)
      ensures key.Index? && key.i < |children| ==> r == Some(children[key.i])
      ensures key.Name? ==> (r.Some? <==> exists c :: c in children && c.name == Some(key.s))
      ensures key.Name? && r.Some? ==> r.value.name == Some(key.s)
      ensures key.Name? && r.Some? ==>
        exists k :: 0 <= k < |children| && children[k] == r.value && forall j :: 0 <= j < k ==> children[j].name != Some(key.s)
    {
      match Locate(key)
      case Some(k) => Some(children[k])
      case None => None
    }

    /**
     * `removeChild(idxOrName)`: removes what `get` would return, keeping the
     * order of the others; changes nothing when nothing matches. The removed
     * child keeps its `parent`, yet no longer has siblings.
     */
    method RemoveChild(key: Key) returns (r: Option<EventNode>)
      requires Valid()
      modifies this
      ensures Valid()
      ensures r == old(Get(key))
      ensures r.None? ==> children == old(children)
      ensures old(Locate(key)).Some? ==> children == RemovedAt(old(children), old(Locate(key)).value)
      ensures r.Some? ==> r.value.parent == this && r.value !in children
      ensures r.Some? ==> r.value.NextSibling() == null && r.value.PrevSibling() == null
      ensures names == old(names) && listeners == old(listeners)
    {
      var at := Locate(key);
      if at.None? {
        return None;
      }
      r := Some(children[at.value]);
      RemovedAtDistinct(children, at.value);
      children := RemovedAt(children, at.value);
    }

    /** `nextSibling()`: the child after this one in its parent's `children`, or null. */
    function NextSibling(): (r: EventNode?)
      reads parent
      ensures parent == null || this !in parent.children ==> r == null
      ensures r != null ==> parent != null && r in parent.children
      ensures r != null ==>
        exists i :: 0 <= i < |parent.children| - 1 && parent.children[i] == this && parent.children[i + 1] == r
    {
      if parent == null then null
      else
        var i := IndexOf(parent.children, this);
        if -1 < i < |parent.children| - 1 then parent.children[i + 1] else null
    }

    /** `prevSibling()`: the child before this one in its parent's `children`, or null. */
    function PrevSibling(): (r: EventNode?)
      reads parent
      ensures parent == null || this !in parent.children ==> r == null
      ensures r != null ==> parent != null && r in parent.children
      ensures r != null ==>
        exists i :: 0 < i < |parent.children| && parent.children[i] == this && parent.children[i - 1] == r
    {
      if parent == null then null
      else
        var i := IndexOf(parent.children, this);
        if i > 0 then parent.children[i - 1] else null
    }

    /** `isRoot()` as written: true when a parent IS present. */
    function IsRoot(): (r: bool)
      ensures r <==> Type() == Branch || Type() == Leaf
    {
      parent != null
    }

    /** The root test the name promises: true exactly for the node `type()` calls "root". */
    function IsTreeRoot(): (r: bool)
      ensures r <==> Type() == Root
      ensures r <==> !IsRoot()
    {
      parent == null
    }

    /** `type()`: "root" without a parent, else "branch" with children, else "leaf". */
    function Type(): (r: NodeType)
      reads this
      ensures r == Root <==> parent == null
      ensures r == Branch <==> parent != null && |children| > 0
      ensures r == Leaf <==> parent != null && children == []
    {
      if parent == null then Root
      else if |children| > 0 then Branch
      else Leaf
    }

    /** `originateEvent(type)`: a new event whose origin is this node. */
    method OriginateEvent(eventType: string, uids: EventUid) returns (evt: SyntheticEvent)
      requires uids.Valid()
      modifies uids
      ensures fresh(evt)
      ensures uids.Valid() && uids.counter == NextId(old(uids.counter)) && uids.issued == old(uids.issued) + [evt.id]
      ensures evt.eventType == eventType && evt.originNode == this && evt.currentNode == this
      ensures evt.id == uids.counter && evt.State() == Fresh
    {
      evt := new SyntheticEvent(this, eventType, uids);
    }

    /** `updateEvent(evt)`: moves the event to this node and changes nothing else. */
    method UpdateEvent(evt: SyntheticEvent)
      modifies evt
      ensures evt.currentNode == this
      ensures evt.State() == old(evt.State())
    {
      evt.currentNode := this;
    }

    /**
     * The flat emitter's `emit(type, ...args)` on this node: every listener
     * registered for the event's type runs on the shared event, in order.
     */
    method Invoke(evt: SyntheticEvent)
      modifies evt
      ensures evt.State() == ApplyAll(old(evt.State()), ListenersOf(listeners, evt.eventType))
      ensures evt.currentNode == old(evt.currentNode)
    {
      var acts := ListenersOf(listeners, evt.eventType);
      var i := 0;
      while i < |acts|
        invariant 0 <= i <= |acts|
        invariant evt.State() == ApplyAll(old(evt.State()), acts[..i])
        invariant evt.currentNode == old(evt.currentNode)
      {
        assert acts[..i + 1][..i] == acts[..i];
        match acts[i] {
          case NoOp =>
          case Stop => evt.StopPropagation();
          case StopImmediate => evt.StopImmediatePropagation();
        }
        i := i + 1;
      }
      assert acts[..i] == acts;
    }

    /**
     * `emit(type, ...payload)` at the node where the event originates: a new
     * event is dispatched here, then on each ancestor in turn until a node's
     * listeners leave propagation stopped or the root has dispatched.
     */
    method Emit<T>(eventType: string, payload: seq<T>, uids: EventUid)
      returns (r: EmitReturn, ghost evt: SyntheticEvent, ghost trace: seq<Dispatch<T>>)
      requires Rooted() && uids.Valid()
      modifies uids
      ensures r == This(this)
      ensures uids.Valid() && uids.counter == NextId(old(uids.counter)) && uids.issued == old(uids.issued) + [evt.id]
      ensures fresh(evt) && evt.id == uids.counter && evt.originNode == this && evt.eventType == eventType
      ensures var w := Visit(Path(), eventType, Fresh);
        |trace| == w.visited && evt.State() == w.flags && evt.currentNode == Path()[w.visited - 1]
      ensures forall i :: 0 <= i < |trace| ==> trace[i] == Dispatch(Path()[i], eventType, evt.id, Path()[i], payload)
    {
      var e := OriginateEvent(eventType, uids);
      trace := Propagate(e, payload);
      evt := e;
      r := This(this);
    }

    /**
     * `emit(type, event, ...payload)` when an event bubbles in: refused with
     * `false` if the event's immediate stop is set; otherwise the event moves to
     * this node and is dispatched and passed on. The `type` argument is ignored:
     * dispatch uses the event's own type.
     */
    method EmitBubbling<T>(eventType: string, evt: SyntheticEvent, payload: seq<T>)
      returns (r: EmitReturn, ghost trace: seq<Dispatch<T>>)
      requires Rooted()
      modifies evt
      decreases |ancestors|, 1
      ensures r == if old(evt.isImmediatePropagationStopped) then False else This(this)
      ensures var w := Walk(Path(), evt.eventType, old(evt.State()));
        |trace| == w.visited && evt.State() == w.flags &&
        evt.currentNode == if w.visited == 0 then old(evt.currentNode) else Path()[w.visited - 1]
      ensures forall i :: 0 <= i < |trace| ==> trace[i] == Dispatch(Path()[i], evt.eventType, evt.id, Path()[i], payload)
    {
      if evt.isImmediatePropagationStopped {
        return False, [];
      }
      UpdateEvent(evt);
      trace := Propagate(evt, payload);
      r := This(this);
    }

    /** The part both entries share: local dispatch, then bubbling to the parent unless stopped. */
    method Propagate<T>(evt: SyntheticEvent, payload: seq<T>) returns (ghost trace: seq<Dispatch<T>>)
      requires Rooted() && evt.currentNode == this
      modifies evt
      decreases |ancestors|, 0
      ensures var w := Visit(Path(), evt.eventType, old(evt.State()));
        |trace| == w.visited && evt.State() == w.flags && evt.currentNode == Path()[w.visited - 1]
      ensures forall i :: 0 <= i < |trace| ==> trace[i] == Dispatch(Path()[i], evt.eventType, evt.id, Path()[i], payload)
    {
      trace := [Dispatch(this, evt.eventType, evt.id, evt.currentNode, payload)];
      Invoke(evt);
      if parent != null && !evt.isPropagationStopped {
        var ignored;
        ghost var rest;
        ignored, rest := parent.EmitBubbling(evt.eventType, evt, payload);
        assert parent.Path() == Path()[1..];
        trace := trace + rest;
      }
    }
  }

  /** Every named child's name is unique among its siblings. */
  ghost predicate UniqueNames(cs: seq<EventNode>) {
    forall i, j :: 0 <= i < j < |cs| && cs[i].name.Some? ==> cs[i].name != cs[j].name
  }

  /**
   * Appending a child changes the first match for a name only when there was
   * none before and the new child carries that name.
   */
  lemma {:induction false} NameAfterAppend(cs: seq<EventNode>, c: EventNode, s: string)
    ensures IndexOfName(cs + [c], s) ==
      if IndexOfName(cs, s).Some? then IndexOfName(cs, s)
      else if c.name == Some(s) then Some(|cs|) else None
  {
    if cs != [] {
      assert (cs + [c])[1..] == cs[1..] + [c];
      NameAfterAppend(cs[1..], c, s);
    }
  }
}
