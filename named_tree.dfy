/**
 * The generic named tree of src/named_tree.rs. A `Tree` there is a shared
 * handle (`Rc<RefCell<TreeNode>>`) to a node holding its data, a weak link to
 * its parent and a map from child name to child handle; here a handle is an
 * object reference, so two handles to the same node are the same object and
 * cloning a handle is copying the reference.
 */
module NamedTree {
  import opened Wrappers

  class Tree<Name(==), Data> {
    var data: Data
    var parent: Tree?<Name, Data>
    var children: map<Name, Tree<Name, Data>>

    /** Every child links back to this node as its parent. */
    ghost predicate Linked()
      reads this, children.Values
    {
      forall name :: name in children ==> children[name].parent == this
    }

    /** `new_root`: a node with `data`, no parent and no children. */
    constructor NewRoot(data: Data)
      ensures this.data == data && parent == null && children == map[]
      ensures Linked()
    {
      this.data := data;
      parent := null;
      children := map[];
    }

    /** The node `ensure_child` allocates: `data`, a link to `parent`, no children. */
    constructor Leaf(data: Data, parent: Tree<Name, Data>)
      ensures this.data == data && this.parent == parent && children == map[]
    {
      this.data := data;
      this.parent := parent;
      children := map[];
    }

    /** `ensure_child`: the child under `name`, created with `defaultData` only when
        there is none; an existing child is returned as it is. */
    method EnsureChild(name: Name, defaultData: Data) returns (child: Tree<Name, Data>)
      modifies this`children
      ensures name in children && child == children[name]
      ensures old(name in children) ==> children == old(children) && child == old(children[name])
      ensures old(name !in children) ==>
                && fresh(child)
                && children == old(children)[name := child]
                && child.data == defaultData && child.parent == this && child.children == map[]
      ensures Linked() <==> old(Linked())
      ensures Linked() ==> child.parent == this
    {
      if name in children {
        child := children[name];
      } else {
        child := new Tree.Leaf(defaultData, this);
        children := children[name := child];
        assert forall k :: k in old(children) ==> children[k] == old(children[k]) && children[k].parent == old(children[k].parent);
      }
    }

    /** `set_child`: `ensure_child` with `data`, then `data` written into the child
        whether it was just created or was already there. */
    method SetChild(name: Name, data: Data) returns (child: Tree<Name, Data>)
      modifies this`children, if name in children then {children[name]} else {}
      ensures name in children && child == children[name] && child.data == data
      ensures old(name in children) ==>
                && children == old(children) && child == old(children[name])
                && child.parent == old(child.parent) && child.children == old(child.children)
      ensures old(name !in children) ==>
                && fresh(child)
                && children == old(children)[name := child]
                && child.parent == this && child.children == map[]
      ensures child != this ==> this.data == old(this.data)
      ensures parent == old(parent)
    {
      child := EnsureChild(name, data);
      child.data := data;
    }

    /** `child`: the child under `name`, or `None` when there is none. */
    method Child(name: Name) returns (r: Option<Tree<Name, Data>>)
      ensures r.None? <==> name !in children
      ensures r.Some? ==> name in children && r.value == children[name]
    {
      if name in children {
        r := Some(children[name]);
      } else {
        r := None;
      }
    }

    /** `parent`: the node this one was created under, or `None` for a root. */
    method Parent() returns (r: Option<Tree<Name, Data>>)
      ensures r.None? <==> parent == null
      ensures r.Some? ==> r.value == parent
    {
      if parent == null {
        r := None;
      } else {
        r := Some(parent);
      }
    }

    /** `data`: a copy of the node's data. */
    method Data() returns (d: Data)
      ensures d == data
    {
      d := data;
    }

    /** `children`: one (name, child) pair per entry of the children map, each name
        once, in no particular order. */
    method Children() returns (kids: seq<(Name, Tree<Name, Data>)>)
      ensures |kids| == |children|
      ensures forall i :: 0 <= i < |kids| ==> kids[i].0 in children && kids[i].1 == children[kids[i].0]
      ensures forall i, j :: 0 <= i < j < |kids| ==> kids[i].0 != kids[j].0
      ensures forall name :: name in children ==> exists i :: 0 <= i < |kids| && kids[i].0 == name
    {
      kids := [];
      var rest := children.Keys;
      while rest != {}
        invariant rest <= children.Keys
        invariant |kids| + |rest| == |children|
        invariant forall i :: 0 <= i < |kids| ==>
                    kids[i].0 in children && kids[i].0 !in rest && kids[i].1 == children[kids[i].0]
        invariant forall i, j :: 0 <= i < j < |kids| ==> kids[i].0 != kids[j].0
        invariant forall name :: name in children && name !in rest ==>
                    exists i :: 0 <= i < |kids| && kids[i].0 == name
        decreases |rest|
      {
        var name :| name in rest;
        ghost var before := kids;
        kids := kids + [(name, children[name])];
        assert forall i :: 0 <= i < |before| ==> kids[i] == before[i];
        assert kids[|before|].0 == name;
        rest := rest - {name};
      }
    }
  }

  /** The set of names in a `children()` result. */
  function NamesOf<Name, Data>(kids: seq<(Name, Tree<Name, Data>)>): (r: set<Name>)
    ensures forall i :: 0 <= i < |kids| ==> kids[i].0 in r
    ensures forall name :: name in r ==> exists i :: 0 <= i < |kids| && kids[i].0 == name
  {
    set i | 0 <= i < |kids| :: kids[i].0
  }

  /** The names `children()` lists and how many pairs it returns, as the test collects
      them before sorting: every name of the map, once. */
  method ChildNames<Name, Data>(t: Tree<Name, Data>) returns (names: set<Name>, count: nat)
    ensures names == t.children.Keys && count == |t.children|
  {
    var kids := t.Children();
    names := NamesOf(kids);
    count := |kids|;
  }

  /** The `it_works` test: a root with data 34, "bob" ensured with 13, "bill" with 19,
      "bob" again with 11. The root has no parent, its children are exactly "bill" and
      "bob", bob's parent has data 34, bob keeps 13, bill has 19, and "joe" is absent. */
  method ItWorks() returns (rootHasParent: bool, names: set<string>, count: nat,
                            bobParentData: int, bobData: int, billData: int, joeFound: bool)
    ensures !rootHasParent
    ensures names == {"bill", "bob"} && count == 2
    ensures bobParentData == 34 && bobData == 13 && billData == 19
    ensures !joeFound
  {
    var tree := new Tree<string, int>.NewRoot(34);
    var bob := tree.EnsureChild("bob", 13);
    var bill := tree.EnsureChild("bill", 19);
    var again := tree.EnsureChild("bob", 11);
    assert tree.children == map["bob" := bob, "bill" := bill] && again == bob;
    assert tree.data == 34 && tree.parent == null && bob.parent == tree;
    assert bob.data == 13 && bill.data == 19;

    var p := tree.Parent();
    rootHasParent := p.Some?;

    names, count := ChildNames(tree);
    assert tree.children.Keys == {"bob", "bill"};

    var b := tree.Child("bob");
    var bp := b.value.Parent();
    bobParentData := bp.value.Data();
    bobData := b.value.Data();

    var l := tree.Child("bill");
    billData := l.value.Data();

    var j := tree.Child("joe");
    joeFound := j.Some?;
  }
}
