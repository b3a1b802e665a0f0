/** Device tree nodes on the heap: properties and children are pushed onto their node. */
module FdtNodes {
  import opened FdtBytes
  import opened FdtTree

  class FdtNode {
    const name: Bytes
    var props: seq<Prop>
    var children: seq<FdtNode>
    ghost var repr: set<FdtNode>

    /** The node and everything below it read as the tree t. */
    ghost predicate Holds(t: Tree)
      reads this, repr
      decreases t
    {
      && this in repr && name == t.name && props == t.props && |children| == |t.children|
      && (forall i :: 0 <= i < |children| ==>
            children[i] in repr && children[i].repr <= repr - {this} && children[i].Holds(t.children[i]))
      && (forall i, j :: 0 <= i < j < |children| ==> children[i].repr !! children[j].repr)
    }

    constructor (name: Bytes)
      ensures this.name == name && repr == {this} && Holds(Tree(name, [], []))
    {
      this.name := name;
      props, children := [], [];
      repr := {this};
    }

    method AddProperty(p: Prop, ghost t: Tree)
      requires Holds(t)
      modifies this`props
      ensures Holds(t.(props := t.props + [p]))
    {
      props := props + [p];
    }

    /** Push a new child; it belongs to this node once the caller has filled it. */
    method AddChild(name: Bytes) returns (child: FdtNode)
      modifies this`children
      ensures fresh(child) && child.repr == {child} && child.Holds(Tree(name, [], []))
      ensures children == old(children) + [child]
    {
      child := new FdtNode(name);
      children := children + [child];
    }
  }
}
