/** Facts about children, siblings and node classification. */
module TreeFacts {
  import opened Wrappers
  import opened Sequences
  import opened EventTree

  /**
   * In a well-formed node, the k-th child's next sibling is the (k+1)-th child
   * and its previous sibling the (k-1)-th, with null at either end.
   */
  lemma ChildSiblings(p: EventNode, k: nat)
    requires p.Valid() && k < |p.children|
    ensures p.children[k].NextSibling() == if k + 1 < |p.children| then p.children[k + 1] else null
    ensures p.children[k].PrevSibling() == if k > 0 then p.children[k - 1] else null
  {
    var c := p.children[k];
    assert c.parent == p;
    IndexOfDistinct(p.children, k);
  }

  /** A node without parent has no siblings. */
  lemma RootHasNoSiblings(n: EventNode)
    requires n.parent == null
    ensures n.NextSibling() == null && n.PrevSibling() == null
    ensures n.Type() == Root
  {
  }

  /**
   * `removeChild(2)` on a node with three children removes and returns the
   * third, leaving the first two in their order.
   */
  method RemoveThirdOfThree() returns (r: Option<EventNode>, a: EventNode, b: EventNode, c: EventNode, rest: seq<EventNode>)
    ensures r == Some(c) && rest == [a, b]
    ensures a.name == Some("a") && b.name == Some("b") && c.name == Some("c")
  {
    var root := new EventNode("root");
    var x := root.AddChild("a");
    var y := root.AddChild("b");
    var z := root.AddChild("c");
    a, b, c := x.child, y.child, z.child;
    r := root.RemoveChild(Index(2));
    rest := root.children;
  }

  /**
   * The duplicate check of `addChild` never fires: on a new node, two children
   * with the same name are both accepted, and `get` by that name finds the first.
   */
  method DuplicateNameAccepted() returns (first: AddOutcome, second: AddOutcome, found: Option<EventNode>)
    ensures first.Added? && second.Added? && first.child != second.child
    ensures first.child.name == Some("x") && second.child.name == Some("x")
    ensures found == Some(first.child)
  {
    var root := new EventNode("");
    first := root.AddChild("x");
    second := root.AddChild("x");
    found := root.Get(Name("x"));
  }

  /** With the intended check, the second `addChild` of a name fails and changes nothing. */
  method DuplicateNameRefused() returns (first: AddOutcome, second: AddOutcome, children: seq<EventNode>)
    ensures first.Added? && second.DuplicateChild?
    ensures children == [first.child]
  {
    var root := new EventNode("");
    first := root.AddUniqueChild("x");
    second := root.AddUniqueChild("x");
    children := root.children;
  }

  /**
   * Adding, removing and adding a name again with the corrected `AddUniqueChild`:
   * after removal `get` finds nothing, and the name can be used again.
   */
  method AddRemoveReAdd() returns (gone: Option<EventNode>, again: AddOutcome)
    ensures gone == None && again.Added?
  {
    var root := new EventNode("");
    var added := root.AddUniqueChild("x");
    var removed := root.RemoveChild(Name("x"));
    gone := root.Get(Name("x"));
    again := root.AddUniqueChild("x");
  }

  /** `isRoot()` as written answers false for a node that `type()` calls "root". */
  method NewNodeIsNotRoot() returns (n: EventNode, answer: bool)
    ensures n.Type() == Root && !answer
  {
    n := new EventNode("a");
    answer := n.IsRoot();
  }
}
