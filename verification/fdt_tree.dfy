/** Device tree properties and nodes as values. */
module FdtTree {
  import opened FdtBytes

  /** A property holds numbers or strings; a property with neither is empty. */
  datatype Prop = Prop(name: Bytes, numbers: seq<U32>, strings: seq<Bytes>)

  datatype Tree = Tree(name: Bytes, props: seq<Prop>, children: seq<Tree>)

  /** The constructors of a property never fill both lists. */
  predicate OneKind(p: Prop) {
    p.numbers == [] || p.strings == []
  }

  predicate OneKinds(t: Tree)
    decreases t, 1
  {
    (forall i :: 0 <= i < |t.props| ==> OneKind(t.props[i])) && OneKindsAll(t.children)
  }

  predicate OneKindsAll(ts: seq<Tree>)
    decreases ts, 0
  {
    ts == [] || (OneKinds(ts[0]) && OneKindsAll(ts[1..]))
  }
}
