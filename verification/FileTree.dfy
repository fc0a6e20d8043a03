/** A client's file tree as a walk sees it, and slash paths. */
module FileTree {
  import opened Basics

  /** `readFails`: listing the directory fails, after `children` have been read.
      `pseudo`: the mount point of a kernel filesystem.  A link with `dir` is a reparse
      point that Windows also calls a directory.  Gone: listed, but by the time it is
      examined it is no more; on Windows what is examined comes with the listing. */
  datatype Node =
    | File(size: int, mtime: int, content: Bytes)
    | Link(mtime: int, target: string, readable: bool, dir: bool)
    | Dir(mtime: int, children: seq<Child>, readFails: bool, pseudo: bool)
    | Special(mtime: int)
    | Gone(dir: bool)

  datatype Child = Child(name: string, node: Node)

  /** What a listing says of it. */
  predicate IsDir(n: Node) {
    n.Dir? || ((n.Link? || n.Gone?) && n.dir)
  }

  function Join(path: string, name: string): string {
    if path == "/" then "/" + name else path + "/" + name
  }

  predicate GoodName(name: string) {
    name != "" && '/' !in name
  }

  /** Names are non-empty, without a slash, and distinct within a directory. */
  predicate WellNamed(n: Node)
    decreases n, 1
  {
    n.Dir? ==> WellNamedAll(n.children)
  }

  predicate WellNamedAll(cs: seq<Child>)
    decreases cs, 0
  {
    && (forall i :: 0 <= i < |cs| ==> GoodName(cs[i].name))
    && (forall i, j :: 0 <= i < j < |cs| ==> cs[i].name != cs[j].name)
    && (forall i :: 0 <= i < |cs| ==> WellNamed(cs[i].node))
  }

  /** Every node can be examined. */
  predicate Examined(n: Node)
    decreases n, 1
  {
    !n.Gone? && (n.Dir? ==> ExaminedAll(n.children))
  }

  predicate ExaminedAll(cs: seq<Child>)
    decreases cs, 0
  {
    forall i :: 0 <= i < |cs| ==> Examined(cs[i].node)
  }

  /** Every node can be examined, and no directory of the tree fails to list. */
  predicate ReadsWell(n: Node)
    decreases n, 1
  {
    !n.Gone? && (n.Dir? ==> !n.readFails && ReadsWellAll(n.children))
  }

  predicate ReadsWellAll(cs: seq<Child>)
    decreases cs, 0
  {
    forall i :: 0 <= i < |cs| ==> ReadsWell(cs[i].node)
  }
}
