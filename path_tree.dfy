/**
 * The path-keyed tree of src/main.rs: a node owns its path and a map from
 * file name to child node, and insertion creates missing nodes on the way
 * down, as `mkdir -p` does. Each node is an object; `Repr` is the set of
 * nodes a node owns and `Model` is its value as a `PTree`. `Insert`,
 * `InsertFixed`, `InsertHelper` and `ConstructTree` are proved to move `Model`
 * exactly as the functions of `PathTreeSpec` say; the steps `Step` and
 * `Adopt` state their map update directly.
 */
module PathTree {
  import opened Wrappers
  import opened Paths
  import opened PathTreeSpec

  class Tree {
    var path: Path
    var children: map<OsString, Tree>
    ghost var Model: PTree
    ghost var Repr: set<object>

    /** Each node owns its children, whose footprints are disjoint, and `Model` is the
        value of the whole subtree. */
    ghost predicate Valid()
      reads this, Repr
      decreases Repr
    {
      && this in Repr
      && Model.path == path
      && Model.children.Keys == children.Keys
      && (forall k :: k in children ==>
            && children[k] in Repr
            && children[k].Repr <= Repr
            && this !in children[k].Repr
            && children[k].Valid()
            && children[k].Model == Model.children[k])
      && (forall k, k' :: k in children && k' in children && k != k' ==>
            children[k].Repr !! children[k'].Repr)
    }

    /** The node reached from this one by following `keys` through owned children, or
        `null` when some key is missing on the way. */
    ghost function At(keys: seq<OsString>): (n: Tree?)
      reads this, Repr
      decreases Repr
    {
      if keys == [] then this
      else if keys[0] in children && children[keys[0]] in Repr && children[keys[0]].Repr < Repr
      then children[keys[0]].At(keys[1..])
      else null
    }

    /** `Tree::new`: a node for `path` with no children. */
    constructor (path: Path)
      ensures Valid() && fresh(Repr)
      ensures Model == PTree(path, map[])
    {
      this.path := path;
      children := map[];
      Model := PTree(path, map[]);
      Repr := {this};
    }

    /** `insert` as written: strip the node's path off the entry, then walk the
        ancestors of what is left. By `InsertAlwaysFails` it never succeeds. */
    method Insert(child: Path) returns (r: Result<Tree, InsertError>)
      requires Valid()
      modifies Repr
      ensures Valid() && fresh(Repr - old(Repr))
      ensures Model == InsertOutcome(old(Model), child).tree == old(Model)
      ensures r == Failure(if old(path) <= child then NoFileName else StripPrefixError)
    {
      InsertAlwaysFails(Model, child);
      var rel := StripPrefix(child, path);
      if rel.None? {
        return Failure(StripPrefixError);
      }
      r := InsertHelper(Ancestors(rel.value));
    }

    /** `insert` as evidently intended: the walk skips the final nameless ancestor. */
    method InsertFixed(child: Path) returns (r: Result<Tree, InsertError>)
      requires Valid()
      modifies Repr
      ensures Valid() && fresh(Repr - old(Repr))
      ensures Model == InsertFixedOutcome(old(Model), child).tree
      ensures r.Success? <==> InsertFixedOutcome(old(Model), child).result.Success?
      ensures r.Failure? ==> r.error == InsertFixedOutcome(old(Model), child).result.error
      ensures r.Success? ==>
                && r.value in Repr && r.value.Repr <= Repr && r.value.Valid()
                && Lookup(Model, InsertFixedOutcome(old(Model), child).result.value) == Some(r.value.Model)
      ensures r.Success? ==> r.value == At(InsertFixedOutcome(old(Model), child).result.value)
      ensures Below(old(path), child) ==> r.Success? && Embeds(old(Model), Model)
    {
      var rel := StripPrefix(child, path);
      if rel.None? {
        return Failure(StripPrefixError);
      }
      if Below(path, child) {
        InsertFixedReaches(Model, child);
      }
      r := InsertHelper(NamedAncestors(rel.value));
    }

    /** `entry(name).or_insert_with(|| Tree::new(ancestor))`: the child under `key`,
        created with the ancestor path when missing. */
    method Step(key: OsString, ancestor: Path) returns (child: Tree)
      requires Valid()
      modifies this
      ensures Valid() && fresh(Repr - old(Repr))
      ensures key in children && child == children[key] && path == old(path)
      ensures old(key in children) ==> children == old(children)
      ensures Model == old(Model).(children := old(Model).children[key := child.Model])
      ensures child.Model == if key in old(children) then old(Model).children[key] else PTree(ancestor, map[])
      ensures key !in old(children) ==> fresh(child)
      ensures child.Valid() && child.Repr <= Repr && this !in child.Repr
    {
      if key in children {
        child := children[key];
      } else {
        child := new Tree(ancestor);
        Adopt(key, child);
      }
    }

    /** Hang a node that nothing else owns under `key`. */
    method Adopt(key: OsString, child: Tree)
      requires Valid() && key !in children
      requires child.Valid() && child.Repr !! Repr
      modifies this
      ensures Valid() && Repr == old(Repr) + child.Repr
      ensures children == old(children)[key := child] && path == old(path)
      ensures Model == old(Model).(children := old(Model).children[key := child.Model])
    {
      children := children[key := child];
      Model := Model.(children := Model.children[key := child.Model]);
      Repr := Repr + child.Repr;
    }

    /** `_insert_helper`: pop the last ancestor, fail when it has no file name, otherwise
        step into (or create) the child of that name and recurse on the rest. */
    method InsertHelper(ancestors: seq<Path>) returns (r: Result<Tree, InsertError>)
      requires Valid()
      modifies Repr
      ensures Valid() && fresh(Repr - old(Repr))
      ensures Model == HelperOutcome(old(Model), ancestors).tree
      ensures r.Success? <==> HelperOutcome(old(Model), ancestors).result.Success?
      ensures r.Failure? ==> r.error == HelperOutcome(old(Model), ancestors).result.error
      ensures r.Success? ==>
                && r.value in Repr && r.value.Repr <= Repr && r.value.Valid()
                && Lookup(Model, HelperOutcome(old(Model), ancestors).result.value) == Some(r.value.Model)
      ensures r.Success? ==> r.value == At(HelperOutcome(old(Model), ancestors).result.value)
      ensures ancestors == [] ==> r == Success(this)
      decreases |ancestors|, 1
    {
      if ancestors == [] {
        return Success(this);
      }
      var ancestor := ancestors[|ancestors| - 1];
      var name := FileName(ancestor);
      if name.None? {
        return Failure(NoFileName);
      }
      ghost var before := Model;
      var child := Step(name.value, ancestor);
      ghost var start := child.Model;
      var rest := ancestors[..|ancestors| - 1];
      ghost var sub := HelperOutcome(start, rest);
      r := Descend(name.value, child, rest);
      ghost var spec := HelperOutcome(before, ancestors);
      assert spec.tree == before.(children := before.children[name.value := sub.tree]);
      ReplaceTwice(before.children, name.value, start, sub.tree);
      assert spec.result.Success? ==> spec.result.value == [name.value] + sub.result.value;
      if r.Success? {
        LookupCons(Model, name.value, sub.result.value);
      }
    }

    /** The recursive call of `_insert_helper` on the child under `key`, and the
        bookkeeping that keeps this node's footprint and model in step with it. */
    method Descend(key: OsString, child: Tree, rest: seq<Path>) returns (r: Result<Tree, InsertError>)
      requires Valid() && key in children && children[key] == child
      modifies Repr
      ensures Valid() && fresh(Repr - old(Repr))
      ensures key in children && children[key] == child
      ensures child.Model == HelperOutcome(old(child.Model), rest).tree
      ensures Model == old(Model).(children := old(Model).children[key := child.Model])
      ensures r.Success? <==> HelperOutcome(old(child.Model), rest).result.Success?
      ensures r.Failure? ==> r.error == HelperOutcome(old(child.Model), rest).result.error
      ensures r.Success? ==>
                && r.value in Repr && r.value.Repr <= Repr && r.value.Valid()
                && Lookup(child.Model, HelperOutcome(old(child.Model), rest).result.value) == Some(r.value.Model)
      ensures r.Success? ==> r.value == child.At(HelperOutcome(old(child.Model), rest).result.value)
      decreases |rest| + 1, 0
    {
      label Before:
      r := child.InsertHelper(rest);
      label Called:
      Repr := Repr + child.Repr;
      Model := Model.(children := Model.children[key := child.Model]);
      NodeUnchanged@Called(child);
      if r.Success? {
        NodeUnchanged@Called(r.value);
      }
      ChildUpdated@Before(this, key);
    }
  }

  /** `construct_tree`: a fresh root at `rootDir`, then every entry of the directory walk
      inserted in order; the first walk error or insertion error ends the build. */
  method ConstructTree(rootDir: Path, entries: seq<Result<Path, string>>) returns (r: Result<Tree, BuildError>)
    ensures r.Success? <==> BuildOutcome(PTree(rootDir, map[]), entries).Success?
    ensures r.Failure? ==> r.error == BuildOutcome(PTree(rootDir, map[]), entries).error
    ensures r.Success? ==>
              r.value.Valid() && fresh(r.value.Repr) && r.value.Model == BuildOutcome(PTree(rootDir, map[]), entries).value
    ensures WalkBelow(rootDir, entries) && r.Failure? ==> r.error.WalkFailed?
  {
    if WalkBelow(rootDir, entries) {
      BuildReachesEveryEntry(PTree(rootDir, map[]), entries);
    }
    var root := new Tree(rootDir);
    var i := 0;
    while i < |entries|
      invariant 0 <= i <= |entries|
      invariant root.Valid() && fresh(root.Repr)
      invariant BuildOutcome(PTree(rootDir, map[]), entries) == BuildOutcome(root.Model, entries[i..])
    {
      assert entries[i..][0] == entries[i] && entries[i..][1..] == entries[i + 1..];
      match entries[i]
      case Failure(e) =>
        return Failure(WalkFailed(e));
      case Success(p) =>
        var inserted := root.InsertFixed(p);
        if inserted.Failure? {
          return Failure(InsertFailed(inserted.error));
        }
      i := i + 1;
    }
    return Success(root);
  }

  /** A node none of whose owned objects changed stays valid. */
  twostate lemma NodeUnchanged(n: Tree)
    requires old(n.Valid()) && unchanged(old(n.Repr))
    ensures n.Valid()
  {
  }

  /** A node stays valid when only the child under `key` changed, and that child is
      valid again and owns only objects that were its own or are new. */
  twostate lemma ChildUpdated(t: Tree, new key: OsString)
    requires old(t.Valid()) && key in old(t.children)
    requires t.children == old(t.children) && t.path == old(t.path)
    requires t.Model == old(t.Model).(children := old(t.Model).children[key := t.children[key].Model])
    requires t.Repr == old(t.Repr) + t.children[key].Repr
    requires t.children[key].Valid() && fresh(t.children[key].Repr - old(t.children[key].Repr))
    requires forall o: object :: o in old(t.Repr) && o != t && o !in old(t.children[key].Repr) ==> unchanged(o)
    ensures t.Valid()
  {
    var child := t.children[key];
    forall k | k in t.children && k != key
      ensures t.children[k].Repr == old(t.children[k].Repr)
      ensures t.children[k].Valid() && t.children[k].Model == t.Model.children[k]
      ensures t.children[k].Repr !! child.Repr && t.children[k].Repr <= t.Repr
    {
      assert t.children[k].Repr !! old(child.Repr);
      NodeUnchanged(t.children[k]);
    }
  }
}
