/** The part of the browser's document model that the card code uses: element
    nodes with an ordered child list, a class list and an inline style.

    A node's structural value is a `Tree`: its element name, its classes and
    the trees of its children, in order. `Valid()` ties the ghost `Model` to the
    real fields all the way down, and `Repr` is the set of nodes of the subtree;
    a node never lies in the subtree of one of its own children, so the tree is
    acyclic. Parent pointers are not modelled: the one place where the code
    appends a node that still has a parent is AppendFirstChildOf, which
    detaches it explicitly. */
module Dom {

  /** Value of the inline `transform` style property. */
  datatype Transform = Unset | RotateY(degrees: int)

  /** The structural value of a subtree. */
  datatype Tree = Tree(name: string, classes: seq<string>, kids: seq<Tree>)

  /** An element's `style` object (a CSSStyleDeclaration): a separate object,
      so changing it does not touch the element's children. */
  class Style {
    var transform: Transform

    constructor ()
      ensures transform == Unset
    {
      transform := Unset;
    }
  }

  class Node {
    const name: string
    const style: Style
    var classes: seq<string>
    var children: seq<Node>

    ghost var Model: Tree
    ghost var Repr: set<Node>

    ghost predicate Valid()
      reads this, Repr
      decreases Repr
    {
      && this in Repr
      && Model.name == name && Model.classes == classes
      && |Model.kids| == |children|
      && forall i :: 0 <= i < |children| ==>
           && children[i] in Repr
           && children[i].Repr <= Repr
           && this !in children[i].Repr
           && children[i].Valid()
           && Model.kids[i] == children[i].Model
    }

    /** document.createElement(name): a new element with no classes, no
        children and an empty inline style. */
    constructor (name: string)
      ensures Valid() && fresh(Repr) && fresh(style)
      ensures this.name == name && classes == [] && children == []
      ensures Model == Tree(name, [], []) && style.transform == Unset
    {
      this.name := name;
      style := new Style();
      classes := [];
      children := [];
      Model := Tree(name, [], []);
      Repr := {this};
    }

    /** classList.add(c): appends c unless it is already present. */
    method AddClass(c: string)
      requires Valid()
      modifies this
      ensures Valid() && Repr == old(Repr) && children == old(children)
      ensures c in classes
      ensures classes == if c in old(classes) then old(classes) else old(classes) + [c]
      ensures Model == Tree(name, classes, old(Model.kids))
    {
      if c !in classes {
        classes := classes + [c];
      }
      Model := Tree(name, classes, Model.kids);
    }

    /** appendChild(c) for a node c that has no parent. */
    method AppendChild(c: Node)
      requires Valid() && c.Valid() && this !in c.Repr
      modifies this
      ensures Valid()
      ensures children == old(children) + [c] && classes == old(classes)
      ensures Model == Tree(name, classes, old(Model.kids) + [c.Model])
      ensures Repr == old(Repr) + c.Repr
    {
      children := children + [c];
      Repr := Repr + c.Repr;
      Model := Tree(name, classes, Model.kids + [c.Model]);
      assert forall i :: 0 <= i < |children| - 1 ==> children[i] == old(children[i]);
    }

    /** Detaches the first child (the part of `appendChild(firstChild)` that
        removes the node from its old parent). */
    method RemoveFirstChild() returns (first: Node)
      requires Valid() && |children| > 0
      modifies this
      ensures Valid() && Repr == old(Repr) && classes == old(classes)
      ensures first == old(children[0]) && children == old(children[1..])
      ensures Model == Tree(name, classes, old(Model.kids[1..]))
      ensures first.Valid() && first.Model == old(Model.kids[0])
      ensures this !in first.Repr && first.Repr <= Repr
    {
      first := children[0];
      children := children[1..];
      Model := Tree(name, classes, Model.kids[1..]);
    }

    /** appendChild(from.firstChild): the node is detached from `from`, its
        old parent, and appended to this node. */
    method AppendFirstChildOf(from: Node)
      requires Valid() && from.Valid() && |from.children| > 0
      requires this !in from.Repr && from !in Repr
      modifies this, from
      ensures Valid() && from.Valid()
      ensures children == old(children) + [old(from.children[0])]
      ensures from.children == old(from.children[1..])
      ensures Model == Tree(name, classes, old(Model.kids) + [old(from.Model.kids[0])])
      ensures from.Model == Tree(from.name, from.classes, old(from.Model.kids[1..]))
      ensures classes == old(classes) && from.classes == old(from.classes)
      ensures from.Repr == old(from.Repr) && Repr <= old(Repr) + from.Repr && from !in Repr
    {
      var first := from.RemoveFirstChild();
      AppendChild(first);
    }

    /** `innerHTML = ''`: removes every child. */
    method ClearChildren()
      requires Valid()
      modifies this
      ensures Valid() && Repr == old(Repr) && classes == old(classes)
      ensures children == [] && Model == Tree(name, classes, [])
    {
      children := [];
      Model := Tree(name, classes, []);
    }

    /** cloneNode(true): a fresh copy of the whole subtree, with the same
        structure; the copy shares no node with the original. */
    method Clone() returns (c: Node)
      requires Valid()
      ensures c.Valid() && fresh(c.Repr) && c.Model == Model
      ensures c.name == name && c.classes == classes && |c.children| == |children|
      ensures c.style.transform == style.transform
      decreases Repr
    {
      c := new Node(name);
      c.classes := classes;
      c.Model := Tree(name, classes, []);
      c.style.transform := style.transform;
      var i := 0;
      while i < |children|
        invariant 0 <= i <= |children|
        invariant c.Valid() && fresh(c.Repr) && c.name == name && c.classes == classes
        invariant |c.children| == i && c.Model == Tree(name, classes, Model.kids[..i])
        invariant c.style.transform == style.transform
      {
        var k := children[i].Clone();
        c.AppendChild(k);
        assert Model.kids[..i] + [k.Model] == Model.kids[..i + 1];
        i := i + 1;
      }
      assert Model.kids[..i] == Model.kids;
    }
  }
}
