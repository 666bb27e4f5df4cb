# Named trees, modelled in Dafny

This project models the two in-memory named trees of the repository.

- **`src/named_tree.rs`** is a generic tree. Each node holds a `data` value, a weak link to its parent, and a map from child name to child. A `Tree` is a shared handle (`Rc<RefCell<TreeNode>>`) to a node.
  - `named_tree.dfy` (module `NamedTree`) models a node as a Dafny object of class `Tree<Name, Data>` with fields `data`, `parent` and `children`. A handle is a reference to that object, so two handles that alias one node are the same object.
  - The operations are `new_root`, `ensure_child` (insert if absent), `set_child` (ensure, then overwrite the data), and the read-only queries `child`, `parent`, `data` and `children`.
  - The crate's own test `it_works` is replayed as the method `ItWorks`. Its expected values are that method's postconditions.
- **`src/main.rs`** is a path-keyed tree. Each node holds its `path` and a `HashMap` from file name to child node. `insert` strips the node's own path off an entry path, lists the ancestors of what is left, and `_insert_helper` walks those ancestors from the tail, creating missing children on the way as `mkdir -p` does. `construct_tree` inserts every entry of a directory walk. Below, an entry *lies below* a path when that path is a component-wise prefix of the entry and every component after it is a plain name (the predicate `PathTreeSpec.Below`), as every entry of a walk rooted at that path does.
  - `paths.dfy` (module `Paths`) gives paths as the component sequences that `Path::components` yields. On those sequences it defines `file_name`, `strip_prefix`, `parent` and `ancestors` of the Rust standard library.
  - `path_tree_spec.dfy` (module `PathTreeSpec`) gives the tree as a value, `PTree`. It defines what `_insert_helper`, `insert` and `construct_tree` do to that value as functions, and proves their properties as lemmas.
  - `path_tree.dfy` (module `PathTree`) is the tree as a class whose methods update `children` in place. Each node owns its children through a `Repr` footprint and carries its value as the ghost field `Model`. `Insert`, `InsertFixed`, `InsertHelper` and `ConstructTree` are proved to move `Model` exactly as the functions of `PathTreeSpec` say; the steps `Step` and `Adopt` state their map update directly.
- `wrappers.dfy` holds `Option` and `Result`.

## Model

| member | source | states |
|---|---|---|
| NamedTree.Tree.NewRoot | src/named_tree.rs:49-55 | A new root holds the given data, has no parent and no children, and satisfies the parent-link invariant. |
| NamedTree.Tree.Leaf | src/named_tree.rs:63-67 | The node `ensure_child` allocates holds the default data, links to the receiver as its parent, and has no children. |
| NamedTree.Tree.EnsureChild | src/named_tree.rs:60-70 | Afterwards the name is a key and the result is its child. If the name was present, the map is unchanged and the existing child is returned as it was. If absent, exactly one fresh child is added under the name, with the default data, the receiver as parent and no children. Only the receiver's `children` field may change. Every-child-links-back holds after iff it held before, and when it holds the child's parent is the receiver. |
| NamedTree.Tree.SetChild | src/named_tree.rs:75-79 | Afterwards the child under the name exists and holds the new data, whether it was created or already there. An existing child keeps its parent and children. A created one is fresh, with the receiver as parent. Only the receiver's map and that one child may change. The receiver's own data and parent are kept unless the child is the receiver itself. |
| NamedTree.Tree.Child | src/named_tree.rs:84-90 | Returns `None` exactly when the name is not a key. Otherwise it returns the very child stored under it. Nothing changes. |
| NamedTree.Tree.Parent | src/named_tree.rs:96-105 | Returns `None` exactly for a node without a parent link. Otherwise it returns the linked parent. |
| NamedTree.Tree.Data | src/named_tree.rs:107-111 | Returns the node's data and changes nothing. |
| NamedTree.Tree.Children | src/named_tree.rs:113-119 | Returns one (name, child) pair per map entry. Every pair is an entry of the map, no name appears twice, every key appears, and the length is the map's size. The order is any order. |
| NamedTree.ChildNames | src/named_tree.rs:134-138 | The collected names of `children()` are exactly the node's keys, and the count is the map's size. |
| NamedTree.ItWorks | src/named_tree.rs:127-162 | After ensuring "bob"/13, "bill"/19 and "bob"/11 under a root with 34: the root has no parent, and its children are exactly "bill" and "bob", two of them. Bob's parent holds 34. Bob still holds 13, not 11. Bill holds 19. "joe" is absent. |
| Paths.FileNameSplits | src/main.rs:52-53 | A path has a file name exactly when it is some path followed by a plain name. Then `parent` is that path and `file_name` is that name, and joining them gives the path back. The empty path, a root, `.` and `..` at the end have none. |
| Paths.StripPrefix | src/main.rs:40 | Some exactly when the base is a component-wise prefix of the path. Then the base followed by the result is the path. |
| Paths.Parent | src/main.rs:42-44 | None exactly for the empty path and for a path ending at the root. Otherwise the parent followed by the last component is the path. |
| Paths.Ancestors | src/main.rs:42-44 | The ancestor list starts with the path itself and is never empty. |
| Paths.AncestorsEndNameless | src/main.rs:42-44 | The last ancestor of every path has no file name: it is the empty path or the root. |
| Paths.AncestorsOfRelative | src/main.rs:42-44 | A path without a root has one more ancestor than it has components. Its i-th ancestor is the path without its last i components. |
| PathTreeSpec.HelperSucceedsIff | src/main.rs:50-56 | `_insert_helper` succeeds iff every ancestor in the list has a file name. On success it has followed one name per ancestor, popping from the tail: the i-th name followed is the file name of the i-th ancestor from the end. |
| PathTreeSpec.HelperReaches | src/main.rs:54-58 | On success, the node returned is in the new tree under the names followed. |
| PathTreeSpec.HelperGrows | src/main.rs:54-56 | On success or failure, the new tree contains every node of the old one with the same path. Nothing is removed or replaced. |
| PathTreeSpec.HelperTouchesOneChild | src/main.rs:50-56 | Once a named ancestor is popped, only the child under that name changes, and it stays even when the rest of the walk fails: there is no rollback. A missing child is created with the full ancestor path. An existing child is reused and only grows. |
| PathTreeSpec.HelperIdempotent | src/main.rs:54-56 | Repeating `_insert_helper` with the same list on its own result changes nothing more and gives the same result. |
| PathTreeSpec.NamedAncestors | src/main.rs:42-44 | The corrected ancestor list is one shorter than `ancestors()`: the final nameless path is dropped. |
| PathTreeSpec.InsertAlwaysFails | src/main.rs:39-60 | As written, `insert` never succeeds and never changes the tree. It fails with the strip-prefix error when the entry does not have the node's path as a prefix, and with "No filename for this segment" otherwise. |
| PathTreeSpec.NamedWalkKeys | src/main.rs:50-56 | Walking the named ancestors of a path of plain names succeeds and follows exactly those names, root side first. |
| PathTreeSpec.InsertFixedReaches | src/main.rs:39-60 | Corrected `insert` of an entry below the node's path succeeds. It follows the entry's own components after that path, leaves a node for the entry in the tree, and keeps every old node. |
| PathTreeSpec.InsertFixedFailsIff | src/main.rs:39-60 | For an entry that has the node's path as a prefix and no root component after it, corrected `insert` fails iff some component after the path is `.` or `..`, that is, iff the entry does not lie below the node's path. |
| PathTreeSpec.HelperFailsOnUnnamed | src/main.rs:52-53 | A `.` or `..` anywhere in a relative path makes the walk over its named ancestors fail. |
| PathTreeSpec.BuildAppend | src/main.rs:74-77 | Building over two runs of entries equals building the second run from the first run's tree. A failure in the first run ends the build with that error. |
| PathTreeSpec.BuildReachesEveryEntry | src/main.rs:70-79 | When every walked entry lies below the root, the build fails only on a walk error. On success, every entry was read without error, has a node in the result under its components, and every node of the start tree is kept. |
| PathTreeSpec.BuildAsWrittenFailsFirst | src/main.rs:70-79 | `construct_tree` with the `insert` as written fails on the first entry of every non-empty walk: with that entry's walk error, or else with the error `insert` gives it (strip-prefix when the entry does not have the root's path as a prefix, "No filename for this segment" otherwise). |
| PathTree.Tree.constructor | src/main.rs:62-67 | `Tree::new(path)`: a valid node whose value is that path with no children, owning only fresh objects. |
| PathTree.Tree.Insert | src/main.rs:39-46 | The method as written leaves the tree's value unchanged. Its result is the strip-prefix error for an entry that does not have the node's path as a prefix, and "No filename for this segment" for every other entry. |
| PathTree.Tree.InsertFixed | src/main.rs:39-46 | The corrected method moves the tree exactly as the corrected insert function does and returns its result. On success it returns the very node object reached from the receiver by following the names the walk followed, valid and owned by the tree, whose value is found under those names. For an entry lying below the node's path it succeeds and keeps every old node. |
| PathTree.Tree.Step | src/main.rs:54-55 | `entry(name).or_insert_with(...)`: returns the child under the name. That child is the existing one when present, unchanged, and otherwise a fresh node with the ancestor path. The receiver's value changes only at that name. |
| PathTree.Tree.Adopt | src/main.rs:54-55 | Hangs a node that nothing else owns under a new name. The receiver stays valid, its value gains exactly that child, and its footprint gains exactly the child's. |
| PathTree.Tree.InsertHelper | src/main.rs:48-60 | `_insert_helper` changes the tree's value exactly as the helper function does and returns its result. With no ancestors left it returns the receiver itself (`Ok(self)`). On success the node returned is the very object reached from the receiver by following the names followed, valid and owned by the tree, with the value found under those names. Only fresh objects are added to the footprint. |
| PathTree.Tree.Descend | src/main.rs:56 | The recursive call on the child under a name moves that child as the helper function does, changes the receiver's value only at that name, and keeps the receiver valid. On success the node returned is the object reached from that child by following the names the child's walk followed. |
| PathTree.ConstructTree | src/main.rs:70-79 | The loop fails exactly when the build function fails, with the same error: the first walk error or insertion error. Otherwise it returns a fresh valid root whose value is the built tree. If every entry lies below the root, only a walk error can stop it. |

## Left out

- NamedTree.Tree.EnsureChild: the `try_borrow_mut` failure (`BorrowMutError`) is not modelled, and the same goes for `try_borrow` in `child`, `parent`, `data` and `children`. Every call returns its value directly instead of a `Result`. The borrow checks can only fire when a node is already borrowed, and these sequential calls never leave one borrowed.
- NamedTree.Tree.Parent: the "Parent dropped" error of a failed `Weak::upgrade` is not modelled. Objects here are never freed while referenced, so the stored link is always returned.
- NamedTree.Tree.SetChild: `data.clone()` and the `Clone` bound on `Data` are value copies. A Dafny value needs no clone.
- The `Clone` impl for `Tree` copies a handle. It is reference copying and has no behaviour of its own.
- NamedTree.Tree.Children: the order of `HashMap` iteration is not modelled. The method picks names in an arbitrary order and promises nothing about the order.
- The parent link is a strong reference. Reference counting, `Weak` semantics and freeing nodes have no counterpart in Dafny.
- Paths.FileName: paths are taken as the component sequence `Path::components` yields. Parsing text into components and Windows prefixes are not modelled. Neither is the normalisation `components` performs (repeated and trailing separators, interior `.`). Names are strings, not `OsString` bytes.
- The directory walk (`walkdir::WalkDir`, `follow_links(false)`) is an input sequence of entries. Each entry is a path or a walk error with its message. The walk's I/O and the order it yields are not modelled.
- Error values are the variants of `InsertError` and `BuildError`, not the `error_chain` messages and kinds of src/errors.rs.
- `insert` returns `&mut Tree`. Here it returns the node object, and holding that object alongside the root is not restricted the way Rust restricts the borrow.
- `chunk_buffer` is a stub that returns its input as one chunk, so it is not modelled. `Config` and `main` are command-line glue.
- src/fs_tree.rs is entirely commented out. src/errors.rs declares only errors.
- PathTree.ConstructTree: the loop calls the corrected insert, because the one as written fails on the first entry (see Findings). The as-written build is the function `BuildAsWrittenOutcome`, whose failure at the first entry `BuildAsWrittenFailsFirst` proves, and the as-written `Insert` is kept beside the loop with its failure proved.

## Findings

| source | as written | input that shows it | evidently intended | confidence | as-written member | corrected member |
|---|---|---|---|---|---|---|
| src/main.rs:41-44, 50-53 | `insert` hands all of `rel_path.ancestors()` to `_insert_helper`. That list ends with the empty path, and `_insert_helper` pops it first. The empty path has no file name, so every call fails with "No filename for this segment" and `construct_tree` stops at its first entry. | Tree path `./` and entry `./a`. The relative path is `a`, its ancestors are `a` and the empty path, and the empty path is popped first. | Drop the final nameless ancestor. Inserting `./a/b` then creates `a`, then `a/b`, and `construct_tree` builds the whole walk. | not executed | PathTreeSpec.InsertAlwaysFails | PathTreeSpec.InsertFixedReaches |
| src/main.rs:74-76 | `construct_tree` calls that `insert` on every walked entry and returns at its first error. | A walk of `./` whose first entry is `./` itself: the relative path is empty, its only ancestor is the empty path, and the build fails with "No filename for this segment". Any other first entry fails the same way or with the strip-prefix error. | Build the whole walk with the corrected `insert`: every entry below the root gets a node, and only a walk error stops the build. | not executed | PathTreeSpec.BuildAsWrittenFailsFirst | PathTreeSpec.BuildReachesEveryEntry |
