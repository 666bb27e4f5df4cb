/**
 * The part of Rust's `std::path::Path` that the path tree relies on:
 * a path is the sequence of its components, and `file_name`,
 * `strip_prefix`, `parent` and `ancestors` are stated over that sequence.
 */
module Paths {
  import opened Wrappers

  /** An OS string; the model does not distinguish encodings. */
  type OsString = string

  /** One component of a parsed path (Windows drive prefixes are not modelled). */
  datatype Component = RootDir | CurDir | ParentDir | Normal(name: OsString)

  /** A path, as the sequence `Path::components` yields. */
  type Path = seq<Component>

  /** `Path::file_name`: the last component when it is a normal one. */
  function FileName(p: Path): (r: Option<OsString>)
    ensures r.Some? <==> |p| > 0 && p[|p| - 1].Normal?
    ensures r.Some? ==> r.value == p[|p| - 1].name
  {
    if |p| > 0 && p[|p| - 1].Normal? then Some(p[|p| - 1].name) else None
  }

  /** A path has a file name exactly when it is some path joined with a normal name;
      `file_name` and `parent` then take it apart into that name and that path. */
  lemma FileNameSplits(p: Path)
    ensures FileName(p).Some? <==> exists q: Path, n: OsString :: p == q + [Normal(n)]
    ensures FileName(p).Some? ==>
              Parent(p).Some? && Parent(p).value + [Normal(FileName(p).value)] == p
  {
    if FileName(p).Some? {
      assert p == p[..|p| - 1] + [Normal(FileName(p).value)];
    }
  }

  /** `Path::strip_prefix`: what follows `base` when `base` is a component-wise prefix of `p`. */
  function StripPrefix(p: Path, base: Path): (r: Option<Path>)
    ensures r.Some? <==> base <= p
    ensures r.Some? ==> base + r.value == p
  {
    if base <= p then Some(p[|base|..]) else None
  }

  /** `Path::parent`: drop the last component unless the path is empty or ends at the root. */
  function Parent(p: Path): (r: Option<Path>)
    ensures r.Some? <==> |p| > 0 && !p[|p| - 1].RootDir?
    ensures r.Some? ==> r.value + [p[|p| - 1]] == p
  {
    if |p| > 0 && !p[|p| - 1].RootDir? then Some(p[..|p| - 1]) else None
  }

  /** `Path::ancestors`: the path itself, then each successive `parent`, until there is none. */
  function Ancestors(p: Path): (r: seq<Path>)
    ensures |r| >= 1 && r[0] == p
    decreases |p|
  {
    match Parent(p)
    case None => [p]
    case Some(q) => [p] + Ancestors(q)
  }

  /** Every ancestor list starts with the path itself and ends with a path that has no file name
      (the empty path for a relative path, the root for an absolute one). */
  lemma {:induction false} AncestorsEndNameless(p: Path)
    ensures FileName(Ancestors(p)[|Ancestors(p)| - 1]).None?
    decreases |p|
  {
    match Parent(p)
    case None =>
    case Some(q) => AncestorsEndNameless(q);
  }

  /** For a relative path (no root component), the ancestors are exactly its prefixes, longest first. */
  lemma {:induction false} AncestorsOfRelative(p: Path)
    requires forall i :: 0 <= i < |p| ==> !p[i].RootDir?
    ensures |Ancestors(p)| == |p| + 1
    ensures forall i :: 0 <= i <= |p| ==> Ancestors(p)[i] == p[..|p| - i]
    decreases |p|
  {
    if |p| > 0 {
      var q := p[..|p| - 1];
      AncestorsOfRelative(q);
      assert Ancestors(p) == [p] + Ancestors(q);
      forall i | 0 <= i <= |p| ensures Ancestors(p)[i] == p[..|p| - i] {
        if i > 0 {
          assert Ancestors(p)[i] == Ancestors(q)[i - 1];
        }
      }
    }
  }
}
