# event-tree: a verified model of `EventNode` and `SyntheticEvent`

This project models `event-node.js`. That file defines a tree of event nodes with DOM-style
bubbling. An event emitted at a node gets a new `SyntheticEvent`. The node's own listeners run on
it first. The same event object is then passed to the parent, then to the parent's parent, and so
on. The walk ends at the root, or at the first node whose listeners leave `isPropagationStopped`
set. A node also manages an ordered list of children: `addChild`, `removeChild`, `get`,
`nextSibling`, `prevSibling`, `type` and `isRoot`.

Files:

- `wrappers.dfy` (`Wrappers`): `Option`. `None` stands for the source's `null`/`undefined` results.
- `sequences.dfy` (`Sequences`): `indexOf` and `splice(i, 1)` on sequences.
- `propagation.dfy` (`Propagation`): listener actions (`NoOp | Stop | StopImmediate`) and the
  two propagation flags as one-way latches.
- `event_tree.dfy` (`EventTree`): the classes `EventUid` (the id counter), `SyntheticEvent` and
  `EventNode`, plus the functions that specify the bubbling walk (`Walk`, `Visit`).
- `bubbling.dfy` (`Bubbling`): what the walk does, stated independently of its definition.
- `tree_facts.dfy` (`TreeFacts`): sibling facts and small client scenarios.

Modelling decisions:

- `EventNode` is a class. `children`, `_names` (here `names`) and the listener registry are
  mutable fields. `addChild`, `removeChild` and `On` reassign `children` and the listeners;
  `names` is only ever set to `[]`, by the constructors.
- `parent` and `name` are `const`: after `addChild` assigns them, the source never writes
  them again. In particular, `removeChild` leaves the removed child's `parent` in place.
- A ghost `ancestors` sequence, kept by `Rooted()`, shows that the parent chain is finite and
  acyclic. The bubbling recursion decreases its length.
- The flat emitter a node inherits from is not part of this model. Its listeners are modelled as
  `listeners: map<string, seq<Action>>`, one list per event type in registration order. Each
  action may only set the event's flags. `EventNode.Invoke` runs them all in order: the model
  assumes that every listener of a node runs, even after one of them stops propagation
  immediately.
- The id counter is a closure variable in the source. Here it is an `EventUid` object that is
  passed explicitly to every call that creates an event. The counter is a JavaScript number:
  `++counter` counts exactly up to 2^53 and then yields 2^53 again. The model keeps that limit
  (`MaxExactId`), so ids are fresh and increasing only below it.
- The source decides between its two entries to `emit` by whether the second argument is a
  `SyntheticEvent`. The model has one method per entry: `Emit` (origination) and `EmitBubbling`
  (an event passed in). Both share `Propagate`, which does the local dispatch and then the step
  to the parent. `EmitBubbling` takes the `type` argument and ignores it, as line 137 does.
- Each dispatch is recorded in a ghost trace: the node, the event type, the event id, the
  `currentNode` at that moment and the payload.
- `get` and `removeChild` take a `Key = Index(nat) | Name(string)` instead of one argument
  that `isNaN` classifies.
- Two members of the code do not do what the code itself shows was meant, and the model keeps
  them as written. `addChild` has a duplicate-name check and an error message for it (lines
  53-54), but the check can never fire. `isRoot` returns true when a parent exists, while
  `type()` reports "root" exactly when there is none (lines 167-168). Both are listed under
  Findings, each with a corrected member beside it.

## Model

| member | source | states |
|---|---|---|
| `EventTree.EventUid.constructor` | event-node.js:5-6 | the counter starts at 0, and no id has been issued yet |
| `EventTree.EventUid.Next` | event-node.js:7-9 | stores and returns `++counter`; the first id is 1, and below 2^53 each id is one more than the last and larger than every earlier one; at 2^53 the counter no longer grows, so that id is returned again |
| `EventTree.SyntheticEvent.constructor` | event-node.js:14-22 | sets `originNode` and `currentNode` to the origin and keeps the type; takes its id from exactly one `++counter`; both flags start false |
| `EventTree.SyntheticEvent.StopPropagation` | event-node.js:28-30 | sets `isPropagationStopped`; leaves the immediate flag and `currentNode` unchanged |
| `EventTree.SyntheticEvent.StopImmediatePropagation` | event-node.js:32-35 | sets both flags; leaves `currentNode` unchanged |
| `Propagation.ApplyAction` | event-node.js:28-35 | one listener's effect on the flags: no flag is ever reset, and "immediate implies stopped" is preserved |
| `Propagation.ApplyAll` | event-node.js:140 | listeners run in registration order; no flag is ever reset, and "immediate implies stopped" is preserved |
| `Propagation.ApplyAllStops` | event-node.js:28-35 | after a list of listeners, `isPropagationStopped` is set iff it was already set or some listener calls either stop; the immediate flag is set iff it was already set or some listener calls `stopImmediatePropagation` |
| `EventTree.EventNode.constructor` | event-node.js:42-46 | a new node has no parent, no children, an empty `_names` and no listeners; a falsy name is not stored |
| `EventTree.EventNode.Child` | event-node.js:57-59 | the child built by `addChild` has the given name, this node as parent, and no children |
| `EventTree.EventNode.On` | event-node.js:48 | registering a listener appends it after the earlier listeners for that type and changes nothing else |
| `EventTree.EventNode.AddChild` | event-node.js:52-62 | throws, leaving `children` unchanged, exactly when the name is in `_names`; otherwise appends one new child and returns it: its parent is this node, it has the name, no children, an empty `_names` and no listeners, and it is itself well formed with this node's route above it; earlier children, `_names` and listeners are unchanged; afterwards `get` by that name returns the first child with that name |
| `EventTree.EventNode.AddUniqueChild` | event-node.js:52-62 | the intended `addChild`: fails, changing nothing, exactly when some child already has the name; on success the new child is as for `addChild` and `get` by that name returns it; unique sibling names are preserved |
| `EventTree.NameAfterAppend` | event-node.js:60 | appending a child changes the first match for a name only if there was no match before and the new child has that name |
| `EventTree.IndexOfName` | event-node.js:69-72 | the position of the first child with the name, or none when no child has it |
| `Sequences.IndexOf` | event-node.js:94 | `indexOf`: the first position of the node, or -1 exactly when it is absent |
| `Sequences.RemovedAt` | event-node.js:77 | `splice(i, 1)`: one element fewer; the others keep their relative order; the removed element plus the result make up the input multiset |
| `EventTree.EventNode.Locate` | event-node.js:68-76 | the position a key resolves to is always in range |
| `EventTree.EventNode.Get` | event-node.js:80-88 | an in-range index gives `children[i]` and an out-of-range one gives nothing; a name gives the first child with that name, or nothing when no child has it; never mutates (it is a function) |
| `EventTree.EventNode.RemoveChild` | event-node.js:64-78 | returns exactly what `get` returned before the call; with no match, `children` is unchanged; otherwise the result is `children[..i] + children[i+1..]`; the removed child keeps `parent == this` but is no longer in `children` and has no siblings |
| `EventTree.EventNode.NextSibling` | event-node.js:90-100 | null without a parent or when the node is no longer among its parent's children; otherwise a non-null result is the entry right after this node in the parent's children |
| `EventTree.EventNode.PrevSibling` | event-node.js:102-112 | null without a parent or when the node is no longer among its parent's children; otherwise a non-null result is the entry right before this node in the parent's children |
| `TreeFacts.ChildSiblings` | event-node.js:90-112 | for the k-th child of a well-formed node: the next sibling is child k+1 (null for the last child), and the previous sibling is child k-1 (null for the first) |
| `TreeFacts.RootHasNoSiblings` | event-node.js:90-112 | a node without parent has neither a next nor a previous sibling |
| `EventTree.EventNode.Type` | event-node.js:166-174 | "root" iff no parent; otherwise "branch" iff there are children, else "leaf" |
| `EventTree.EventNode.IsRoot` | event-node.js:150-152 | as written: true iff `type()` is "branch" or "leaf", i.e. iff a parent is present |
| `EventTree.EventNode.IsTreeRoot` | event-node.js:150-152 | as intended: true iff `type()` is "root", the negation of the `isRoot` as written |
| `EventTree.EventNode.OriginateEvent` | event-node.js:154-159 | a new event with this node as origin and current node, the given type, the next id and both flags false |
| `EventTree.EventNode.UpdateEvent` | event-node.js:161-164 | sets `currentNode` to this node; both flags are unchanged |
| `EventTree.EventNode.Invoke` | event-node.js:139-140 | the event's flags become those given by running this node's listeners for the event's own type, in order; `currentNode` is untouched |
| `EventTree.Walk` | event-node.js:119-123 | a bubbling entry refused by the immediate flag dispatches nothing and keeps the flags; no walk visits more nodes than the path has |
| `EventTree.Visit` | event-node.js:133-145 | a walk that starts with a dispatch visits between one node and the whole path, and keeps "immediate implies stopped" |
| `EventTree.EventNode.Emit` | event-node.js:114-148 | origination: returns this node; takes one id from the counter; dispatches on a prefix of [this node, parent, grandparent, ...] whose length is that of `Visit`; every dispatch carries the same type, id and payload, with `currentNode` equal to the dispatching node; the final flags and `currentNode` are those of the walk |
| `EventTree.EventNode.EmitBubbling` | event-node.js:114-148 | bubbling entry: returns `false` iff the event arrived with its immediate stop set, and then dispatches nothing and changes nothing; otherwise as `Emit`, but with the event's own type and flags |
| `EventTree.EventNode.Propagate` | event-node.js:133-145 | local dispatch, then a bubbling entry at the parent only if there is a parent and propagation is not stopped; the trace is this node's dispatch followed by the parent's |
| `Bubbling.PathClimbsToRoot` | event-node.js:143-145 | the route of a bubbling event starts at the node, steps from each node to its parent, ends at a node without parent, and contains no node twice |
| `Bubbling.VisitStopsAtFirstStopper` | event-node.js:114-148 | with propagation not yet stopped, the walk dispatches on every node up to the first whose listeners call a stop (or up to the root) and on no node after it; the final flags are exactly what that node's listeners set |
| `Bubbling.NoStopperReachesRoot` | event-node.js:143-145 | if no listener on the route calls a stop, the event is dispatched on the origin and every ancestor and both flags end false |
| `Bubbling.StopperEndsWalk` | event-node.js:143-145 | if the k-th node is the first with a stopping listener, listeners run on exactly the first k+1 nodes |
| `Bubbling.ImmediateStopAtOrigin` | event-node.js:32-35 | a `stopImmediatePropagation` at the origin confines the event to the origin and leaves both flags set |
| `Bubbling.ImmediateStopRefusesEntry` | event-node.js:121-123 | an event that arrives with its immediate stop set is dispatched on no node |
| `Bubbling.WalkKeepsLatches` | event-node.js:28-35 | a flag that is set when the event enters, or that the listeners of any node the walk dispatched on set, is still set when the walk ends |
| `Bubbling.Chain` | event-node.js:52-62 | `addChild` three times builds root → a → b → c, each of the four nodes well formed and each parent's `children` holding just the next node; the route from c is [c, b, a, root] |
| `Bubbling.BubblesToRoot` | event-node.js:114-148 | on that chain without listeners, an event emitted at c is dispatched on c, b, a and root in that order, with one id and the same payload |
| `Bubbling.StopsAtB` | event-node.js:143-145 | on that chain with a `stopPropagation` listener at b, an event emitted at c is dispatched on c and b only |
| `TreeFacts.RemoveThirdOfThree` | event-node.js:64-78 | `removeChild(2)` on three children returns the third and leaves the first two in order |
| `TreeFacts.DuplicateNameAccepted` | event-node.js:52-62 | on a new node, `addChild("x")` twice succeeds both times, and `get("x")` finds the first child |
| `TreeFacts.DuplicateNameRefused` | event-node.js:52-62 | with the intended check, the second `addChild("x")` fails and `children` stays the single first child |
| `TreeFacts.AddRemoveReAdd` | event-node.js:52-88 | with the corrected `AddUniqueChild`: after add, then remove by name, `get` finds nothing and the name can be added again |
| `TreeFacts.NewNodeIsNotRoot` | event-node.js:150-152 | `isRoot()` as written is false on a new parentless node, which `type()` calls "root" |

## Left out

- The flat emitter base (`EventEmitter`, event-node.js:48-50): its storage, `off` and `trigger`
  are not modelled, nor whether it skips a node's remaining listeners after an immediate stop;
  the model runs them all. It is replaced by
  the per-type action lists and `Invoke`.
- Listeners that do anything other than set the two flags: re-entrant `emit` calls, and tree
  edits during a walk. A listener's only effect in the model is `Stop` or `StopImmediate`.
- The `Date.now()` timestamp (event-node.js:19): it is a clock reading, and nothing can be said about it.
- The delimiter and `setDelimiter` (event-node.js:12, 24-26): module state that is written and never read.
- The UMD/CommonJS export wiring (event-node.js:180-190).
- JavaScript coercions. The model does not capture `isNaN` choosing between index and name
  (numeric-looking strings), `splice` with a negative index, non-string names, or
  `addChild(undefined)`. `Key` with a `nat` index replaces them.
- The origination entry when the first payload value happens to be a `SyntheticEvent`: the
  source would take it as a bubbling entry, but the model has two separate methods.
- The text of the duplicate-name error (event-node.js:54) and the implicit globals `child`,
  `len` and `i`.

## Findings

| source | as written | input that shows it | evidently intended | confidence | as-written member | corrected member |
|---|---|---|---|---|---|---|
| event-node.js:52-62 | the duplicate check reads `_names`, which the constructor sets to `[]` (line 45) and nothing ever appends to, so it never fires | `addChild("x")` twice on a new node: both calls return a new child, and `get("x")` then returns the first | the second call throws and leaves `children` unchanged | high; not executed | `TreeFacts.DuplicateNameAccepted` | `EventTree.EventNode.AddUniqueChild` |
| event-node.js:150-152 | `isRoot` returns `!!this.parent`, i.e. true when a parent exists | `new EventNode("a").isRoot()` is false although `type()` returns "root" | true exactly for a node without parent | high; not executed | `TreeFacts.NewNodeIsNotRoot` | `EventTree.EventNode.IsTreeRoot` |
