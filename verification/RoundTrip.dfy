/** From a file tree through a scan, a manifest and a restore to a disk. */
module RoundTrip {
  import opened Basics
  import opened FileTree
  import opened Paths
  import opened Walk
  import opened Entries
  import opened Scan
  import opened Engine
  import opened Restore
  import opened RestoreTheorems
  import Tables

  // ---------- the paths of a tree ----------

  /** Every visible path is clean, and at or below the path the walk started from. */
  lemma {:induction false} PlaceIsBelow(c: Config, path: string, n: Node, p: Place)
    requires Clean(path) && WellNamed(n) && p in Visible(c, path, n)
    ensures Clean(p.path) && AtOrAbove(path, p.path)
    decreases n, 1
  {
    if p != Place(path, n) {
      var i := PlaceInChild(c, path, n.children, p);
    }
  }

  lemma {:induction false} PlaceInChild(c: Config, path: string, cs: seq<Child>, p: Place) returns (i: nat)
    requires Clean(path) && WellNamedAll(cs) && p in VisibleAll(c, path, cs)
    ensures i < |cs| && p in Visible(c, Join(path, cs[i].name), cs[i].node)
    ensures Parent(Join(path, cs[i].name)) == path && Clean(Join(path, cs[i].name)) && !Top(Join(path, cs[i].name))
    ensures AtOrAbove(Join(path, cs[i].name), p.path) && Above(path, p.path) && Clean(p.path)
    decreases cs, 0
  {
    var route: seq<nat>;
    i, route := VisibleInChild(c, path, cs, p);
    var here := Join(path, cs[i].name);
    ReachedIsVisible(c, here, cs[i].node, route, p);
    ParentOfJoin(path, cs[i].name);
    PlaceIsBelow(c, here, cs[i].node, p);
    AboveTransitive(path, here, p.path);
  }

  /** Everything above a visible place is a visible directory or above the start. */
  lemma {:induction false} AboveIsDirectory(c: Config, path: string, n: Node, p: Place, q: string)
    requires Clean(path) && WellNamed(n) && p in Visible(c, path, n) && Above(q, p.path)
    ensures Above(q, path) || exists r :: r in Visible(c, path, n) && r.path == q && r.node.Dir?
    decreases n
  {
    if p != Place(path, n) {
      var i := PlaceInChild(c, path, n.children, p);
      var here := Join(path, n.children[i].name);
      AboveIsDirectory(c, here, n.children[i].node, p, q);
      if Above(q, here) {
        if q == path {
          assert Place(path, n) in Visible(c, path, n);
        }
      } else {
        var r :| r in Visible(c, here, n.children[i].node) && r.path == q && r.node.Dir?;
        ChildIsVisible(c, path, n.children, i, r);
      }
    }
  }

  ghost predicate DistinctPaths(ps: seq<Place>) {
    forall i, j :: 0 <= i < j < |ps| ==> ps[i].path != ps[j].path
  }

  /** No two visible places have the same path. */
  lemma {:induction false} PlacesAreDistinct(c: Config, path: string, n: Node)
    requires Clean(path) && WellNamed(n)
    ensures DistinctPaths(Visible(c, path, n))
    decreases n, 1
  {
    if n.Dir? && !Hidden(c, path, n) {
      var below := VisibleAll(c, path, n.children);
      ChildrenAreDistinct(c, path, n.children);
      forall k | 0 <= k < |below|
        ensures below[k].path != path
      {
        var i := PlaceInChild(c, path, n.children, below[k]);
        AboveIsShorter(path, below[k].path);
      }
    }
  }

  lemma {:induction false} ChildrenAreDistinct(c: Config, path: string, cs: seq<Child>)
    requires Clean(path) && WellNamedAll(cs)
    ensures DistinctPaths(VisibleAll(c, path, cs))
    decreases cs, 0
  {
    if cs != [] {
      var here := Join(path, cs[0].name);
      var first, rest := Visible(c, here, cs[0].node), VisibleAll(c, path, cs[1..]);
      ParentOfJoin(path, cs[0].name);
      PlacesAreDistinct(c, here, cs[0].node);
      ChildrenAreDistinct(c, path, cs[1..]);
      forall i, j | 0 <= i < |first| && 0 <= j < |rest|
        ensures first[i].path != rest[j].path
      {
        PlaceIsBelow(c, here, cs[0].node, first[i]);
        var k := PlaceInChild(c, path, cs[1..], rest[j]);
        if first[i].path == rest[j].path {
          SiblingsDoNotNest(path, cs[0].name, cs[k + 1].name, first[i].path);
        }
      }
    }
  }

  lemma SiblingsDoNotNest(path: string, a: string, b: string, p: string)
    requires Clean(path) && GoodName(a) && GoodName(b)
    requires AtOrAbove(Join(path, a), p) && AtOrAbove(Join(path, b), p)
    ensures a == b
  {
    var x, y := Join(path, a), Join(path, b);
    ParentOfJoin(path, a);
    ParentOfJoin(path, b);
    AboveIsLinear(x, y, p);
    if Above(x, path) {
      AboveIsShorter(x, path);
    }
    if Above(y, path) {
      AboveIsShorter(y, path);
    }
    assert a == x[|x| - |a|..] && b == y[|y| - |b|..];
  }

  // ---------- the manifest of a tree ----------

  /** The places that get a manifest entry. */
  predicate Recorded(n: Node) {
    n.File? || n.Dir? || (n.Link? && n.readable)
  }

  lemma {:induction false} ManifestOf(sha: Bytes -> string, ps: seq<Place>)
    ensures forall p :: p in ps && Recorded(p.node) ==> FullEntry(sha, p)[0] in FullEntries(sha, ps)
    ensures forall e :: e in FullEntries(sha, ps) ==>
              exists p :: p in ps && Recorded(p.node) && FullEntry(sha, p) == [e]
  {
    if ps != [] {
      ManifestOf(sha, ps[1..]);
      forall e | e in FullEntries(sha, ps)
        ensures exists p :: p in ps && Recorded(p.node) && FullEntry(sha, p) == [e]
      {
        if e in FullEntry(sha, ps[0]) {
          assert FullEntry(sha, ps[0]) == [e] && ps[0] in ps;
        } else {
          var p :| p in ps[1..] && Recorded(p.node) && FullEntry(sha, p) == [e];
          assert p in ps;
        }
      }
    }
  }

  ghost predicate DistinctEntries(entries: seq<Entry>) {
    forall i, j :: 0 <= i < j < |entries| ==> entries[i].path != entries[j].path
  }

  lemma {:induction false} ManifestIsDistinct(sha: Bytes -> string, ps: seq<Place>)
    requires DistinctPaths(ps)
    ensures DistinctEntries(FullEntries(sha, ps))
  {
    if ps != [] {
      var rest := ps[1..];
      assert forall i :: 0 <= i < |rest| ==> rest[i] == ps[i + 1];
      ManifestIsDistinct(sha, rest);
      forall e | e in FullEntries(sha, rest)
        ensures e.path != ps[0].path
      {
        ManifestOf(sha, rest);
        var p :| p in rest && FullEntry(sha, p) == [e];
        assert FullEntry(sha, p)[0] == e;
      }
    }
  }

  lemma {:induction false} SelectionIsDistinct(entries: seq<Entry>, keep: Entry -> bool)
    requires DistinctEntries(entries)
    ensures DistinctEntries(KeepIf(entries, keep))
  {
    if entries != [] {
      var rest, e := entries[..|entries| - 1], entries[|entries| - 1];
      SelectionIsDistinct(rest, keep);
      KeepIfMembers(rest, keep);
      assert forall x :: x in KeepIf(rest, keep) ==> x.path != e.path;
    }
  }

  // ---------- where things go ----------

  /** The target directory as a prefix: the root directory adds nothing. */
  function Prefix(dir: string): string {
    if dir == "/" then "" else dir
  }

  predicate CleanDir(dir: string) {
    |dir| > 1 ==> dir[|dir| - 1] != '/'
  }

  lemma {:induction false} NoColons(s: string)
    requires ':' !in s
    ensures WithoutColons(s) == s
  {
    if s != "" {
      NoColons(s[..|s| - 1]);
    }
  }

  lemma DotsBelowRoot(rel: string)
    ensures HasDots("/" + rel) <==> HasDots(rel)
  {
    var path := "/" + rel;
    assert forall i :: 0 <= i < |rel| ==> path[i + 1] == rel[i];
    if HasDots(path) {
      var i :| 0 < i < |path| && path[i - 1] == '.' && path[i] == '.';
      assert rel[i - 2] == '.' && rel[i - 1] == '.';
    }
    if HasDots(rel) {
      var i :| 0 < i < |rel| && rel[i - 1] == '.' && rel[i] == '.';
      assert path[i] == '.' && path[i + 1] == '.';
    }
  }

  /** An acceptable path keeps its shape below the target directory.  Paths with two
      dots in a row, and the root directory itself, are turned down. */
  lemma TargetIsUnder(path: string, dir: string)
    requires Clean(path) && (dir == "" || ':' !in path)
    ensures RestoreTarget(path, dir).Some? ==> RestoreTarget(path, dir).value == Under(Prefix(dir), path)
    ensures RestoreTarget(path, dir).None? <==> dir != "" && (path == "/" || HasDots(path))
  {
    if dir != "" {
      var rel := path[1..];
      assert path == "/" + rel;
      assert TrimLeft(path) == TrimLeft(rel) == rel;
      NoColons(rel);
      DotsBelowRoot(rel);
    }
  }

  lemma ColonGoes(drive: char, below: string)
    requires drive != ':' && ':' !in below
    ensures WithoutColons([drive] + ([':'] + below)) == [drive] + below
  {
    OneCharacter(drive);
    OneCharacter(':');
    WithoutColonsIs([drive], [':'] + below);
    WithoutColonsIs([':'], below);
    NoColons(below);
  }

  lemma DotsBelowDrive(drive: char, rel: string)
    requires drive != '.' && !HasDots(rel)
    ensures !HasDots([drive] + (['/'] + rel))
  {
    var path := [drive] + (['/'] + rel);
    assert forall i :: 0 <= i < |rel| ==> path[i + 2] == rel[i];
    forall i | 0 < i < |path|
      ensures !(path[i - 1] == '.' && path[i] == '.')
    {
      if i >= 3 {
        assert path[i - 1] == rel[i - 3] && path[i] == rel[i - 2];
      }
    }
  }

  /** A drive letter becomes a directory of the target, without its colon. */
  lemma DriveIsDirectory(drive: char, rel: string, dir: string)
    requires drive != '/' && drive != ':' && drive != '.' && ':' !in rel && !HasDots(rel) && dir != ""
    ensures RestoreTarget([drive] + ([':'] + (['/'] + rel)), dir) == Some(Join(dir, [drive] + (['/'] + rel)))
  {
    ColonGoes(drive, ['/'] + rel);
    DotsBelowDrive(drive, rel);
  }

  lemma {:induction false} PrefixIsAbove(pre: string, path: string)
    requires Clean(path) && Clean(pre) && pre + "/" <= path
    ensures Above(pre, path)
    decreases |path|
  {
    assert path != "/" by {
      assert |path| >= |pre| + 1 >= 2;
    }
    ParentIsClean(path);
    FrontIs("", path);
    var front := Front(path);
    assert path[|pre|] == '/';
    LastSlash(path, |pre|);
    if |front| > |pre| + 1 {
      assert pre + "/" <= Parent(path);
      PrefixIsAbove(pre, Parent(path));
    } else {
      assert Parent(path) == pre;
    }
  }

  lemma {:induction false} LastSlash(path: string, i: nat)
    requires i < |path| && path[i] == '/'
    ensures |Front(path)| >= i + 1 && Front(path) <= path
  {
    if path[|path| - 1] != '/' {
      LastSlash(path[..|path| - 1], i);
    }
  }

  lemma {:induction false} AboveHasSlash(a: string, path: string)
    requires Clean(path) && Above(a, path)
    ensures Clean(a) && (a == "/" || a + "/" <= path)
    decreases |path|
  {
    ParentIsClean(path);
    FrontIs("", path);
    if a != Parent(path) {
      AboveHasSlash(a, Parent(path));
    } else if a != "/" {
      assert Front(path) == a + "/";
    }
  }

  /** A restore of a picked path takes that path and what is below it: on clean paths, an
      entry matches a prefix exactly when the prefix is its path or above it.  The root
      matches everything, and so does an empty list. */
  lemma MatchIsAtOrBelow(trim: string -> string, path: string, pre: string)
    requires Clean(path) && Clean(pre) && trim(pre) == pre
    ensures RestoreMatch(trim, path, [pre]) <==> AtOrAbove(pre, path)
    ensures RestoreMatch(trim, path, [])
  {
    assert [pre][0] == pre;
    RootIsAbove(path);
    Untrimmed(path);
    Untrimmed(pre);
    assert path == "/" + path[1..] && pre == "/" + pre[1..];
    if pre != "/" {
      var p, q := path[1..], pre[1..];
      assert q + "/" <= p <==> pre + "/" <= path by {
        assert pre + "/" == "/" + (q + "/");
      }
      if pre + "/" <= path {
        PrefixIsAbove(pre, path);
      }
      if Above(pre, path) {
        AboveHasSlash(pre, path);
      }
    }
  }

  /** What trimming slashes leaves of a clean path. */
  lemma Untrimmed(path: string)
    requires Clean(path)
    ensures TrimLeft(path) == path[1..] && TrimSlashes(path) == path[1..]
  {
    var rel := path[1..];
    assert rel != "" ==> rel[0] == path[1] && rel[|rel| - 1] == path[|path| - 1];
    assert TrimLeft(path) == TrimLeft(rel) == rel;
  }

  /** Several picks take what one of them takes. */
  lemma MatchIff(trim: string -> string, path: string, prefixes: seq<string>)
    requires prefixes != []
    ensures RestoreMatch(trim, path, prefixes) <==>
            exists pre :: pre in prefixes && RestoreMatch(trim, path, [pre])
  {
    if i :| 0 <= i < |prefixes| && PrefixMatches(TrimLeft(path), TrimSlashes(trim(prefixes[i]))) {
      assert [prefixes[i]][0] == prefixes[i];
      assert prefixes[i] in prefixes && RestoreMatch(trim, path, [prefixes[i]]);
    }
  }

  lemma {:induction false} RootIsAbove(path: string)
    requires Clean(path)
    ensures AtOrAbove("/", path)
    decreases |path|
  {
    if path != "/" {
      ParentUnder("", path);
      RootIsAbove(Parent(path));
    }
  }

  ghost predicate GoodPaths(dir: string, entries: seq<Entry>) {
    && CleanDir(dir)
    && forall e :: e in entries ==> Clean(e.path) && (dir == "" || ':' !in e.path)
  }

  lemma TargetsOf(dir: string, entries: seq<Entry>)
    requires GoodPaths(dir, entries)
    ensures forall e :: e in entries && TargetOf(dir, e).Some? ==>
              TargetOf(dir, e).value == Under(Prefix(dir), e.path) && (dir != "" ==> e.path != "/")
  {
    forall e | e in entries
      ensures TargetOf(dir, e).Some? ==>
                TargetOf(dir, e).value == Under(Prefix(dir), e.path) && (dir != "" ==> e.path != "/")
    {
      TargetIsUnder(e.path, dir);
    }
  }

  // ---------- an empty directory ----------

  /** The directory is there or can be made, and nothing is in it. */
  ghost predicate EmptyDirectory(disk: Disk, dir: string) {
    forall a :: a in disk ==> !Above(dir, a) && (AtOrAbove(a, dir) ==> disk[a].DirAt?)
  }

  lemma EmptyDirectoryIsEnough(disk: Disk, dir: string, entries: seq<Entry>)
    requires dir != "" && GoodPaths(dir, entries) && EmptyDirectory(disk, dir)
    ensures EmptyFor(disk, dir, entries)
  {
    TargetsOf(dir, entries);
    forall e | e in entries && TargetOf(dir, e).Some?
      ensures TargetOf(dir, e).value !in disk
      ensures forall a :: a in disk && Above(a, TargetOf(dir, e).value) ==> disk[a].DirAt?
    {
      var t := Under(Prefix(dir), e.path);
      BelowDirectory(dir, e.path);
      forall a | a in disk && Above(a, t)
        ensures disk[a].DirAt?
      {
        var q := AboveUnder(Prefix(dir), e.path, a);
        if Clean(q) && AtOrAbove(q, e.path) && a == Under(Prefix(dir), q) && q != "/" {
          BelowDirectory(dir, q);
        }
      }
    }
  }

  lemma BelowDirectory(dir: string, path: string)
    requires dir != "" && Clean(path) && path != "/"
    ensures Above(dir, Under(Prefix(dir), path))
  {
    RootIsAbove(path);
    UnderKeepsAbove(Prefix(dir), "/", path);
    assert Under(Prefix(dir), "/") == dir;
  }

  // ---------- the round trip ----------

  /** What a scan of the tree and its hash pass produce. */
  function Manifest(c: Config, read: string -> Option<string>, n: Node): seq<Entry> {
    Hashed(read, UnixWalk(Visiting(c), Scan([], [], 0, 0, 0), c.root, Some(n)).0.entries)
  }

  ghost predicate Injective(sha: Bytes -> string) {
    forall a, b :: sha(a) == sha(b) ==> a == b
  }

  /** Nothing fails, and the server's blob of every file has the file's hash. */
  ghost predicate StoredWell(w: World, ps: seq<Place>) {
    && (forall path :: !w.fails(path))
    && forall p :: p in ps && p.node.File? ==>
         w.blob(w.sha256(p.node.content)).Some?
         && w.sha256(w.blob(w.sha256(p.node.content)).value) == w.sha256(p.node.content)
  }

  /** The disk has what the node is: its kind, and its content or link target. */
  predicate Same(w: World, disk: Disk, a: string, n: Node) {
    match n
    case Dir(_, _, _, _) => IsDirectory(disk, a)
    case Link(_, target, _, _) => a in disk && disk[a] == LinkAt(target)
    case File(_, mtime, content) => a in disk && disk[a] == FileAt(content, if mtime != 0 then mtime else w.now)
    case Special(_) => false
    case Gone(_) => false
  }

  predicate Acceptable(dir: string, path: string) {
    dir == "" || !HasDots(path)
  }

  predicate Chosen(trim: string -> string, paths: seq<string>, p: Place) {
    Recorded(p.node) && RestoreMatch(trim, p.path, paths)
  }

  /** A chosen place that restoreTarget does not turn down. */
  predicate Wanted(dir: string, trim: string -> string, paths: seq<string>, p: Place) {
    Chosen(trim, paths, p) && Acceptable(dir, p.path)
  }

  /** A wanted place, put where it belongs. */
  ghost predicate IsWanted(
    w: World, dir: string, trim: string -> string, paths: seq<string>, ps: seq<Place>, disk: Disk, a: string)
  {
    exists p :: p in ps && Wanted(dir, trim, paths, p) && a == Under(Prefix(dir), p.path) && Same(w, disk, a, p.node)
  }

  /** Some wanted place lies below the path. */
  ghost predicate LeadsToWanted(dir: string, trim: string -> string, paths: seq<string>, ps: seq<Place>, a: string) {
    exists q :: q in ps && Wanted(dir, trim, paths, q) && Above(a, Under(Prefix(dir), q.path))
  }

  ghost predicate IsTreeDirectory(dir: string, ps: seq<Place>, a: string) {
    exists p :: p in ps && p.node.Dir? && a == Under(Prefix(dir), p.path) && Acceptable(dir, p.path)
  }

  /** A directory on the way to a wanted place: one of the tree's, or above its root. */
  ghost predicate OnTheWayThere(
    dir: string, trim: string -> string, paths: seq<string>, root: string, ps: seq<Place>, disk: Disk, a: string)
  {
    && a in disk && disk[a] == DirAt && LeadsToWanted(dir, trim, paths, ps, a)
    && (Above(a, Under(Prefix(dir), root)) || IsTreeDirectory(dir, ps, a))
  }

  /** Below the target, the disk holds the wanted places, the directories above them,
      and nothing else; what was there before is untouched. */
  ghost predicate Mirrors(
    w: World, o: Order, trim: string -> string, paths: seq<string>, root: string, ps: seq<Place>,
    before: Disk, after: Disk)
  {
    && (forall p :: p in ps && Wanted(o.dir, trim, paths, p) && (o.dir == "" || p.path != "/") ==>
          Same(w, after, Under(Prefix(o.dir), p.path), p.node))
    && (forall a :: a in before ==> a in after && after[a] == before[a])
    && (forall a :: a in after && a !in before ==>
          IsWanted(w, o.dir, trim, paths, ps, after, a) || OnTheWayThere(o.dir, trim, paths, root, ps, after, a))
  }

  /** What scanning needs: readable files whose reused hashes are right. */
  ghost predicate Scannable(c: Config, read: string -> Option<string>, sha: Bytes -> string, n: Node) {
    && Clean(c.root) && WellNamed(n)
    && Readable(read, sha, Visible(c, c.root, n)) && Faithful(sha, c.prev, Visible(c, c.root, n))
  }

  predicate NoColonsIn(dir: string, ps: seq<Place>) {
    CleanDir(dir) && forall p :: p in ps ==> dir == "" || ':' !in p.path
  }

  lemma ManifestIsFull(c: Config, read: string -> Option<string>, sha: Bytes -> string, n: Node)
    requires Scannable(c, read, sha, n)
    ensures Manifest(c, read, n) == FullEntries(sha, Visible(c, c.root, n))
  {
    UnixScanIsPreorder(c, Scan([], [], 0, 0, 0), n);
    IncrementalEqualsFull(c, read, sha, Visible(c, c.root, n));
  }

  /** Where every directory lists, the Windows walk gives the same manifest. */
  lemma WindowsManifestIsSame(c: Config, read: string -> Option<string>, n: Node)
    requires ReadsWell(n)
    ensures Hashed(read, WindowsWalk(Visiting(c), Scan([], [], 0, 0, 0), c.root, Some(n)).0.entries)
         == Manifest(c, read, n)
  {
    assert SkipsDirsOnly(Visiting(c));
    WindowsWalkMatchesWalkDir(Visiting(c), Scan([], [], 0, 0, 0), c.root, n);
  }

  /** Each selected entry describes a chosen place, and each chosen place has one. */
  lemma SelectedAre(w: World, trim: string -> string, paths: seq<string>, ps: seq<Place>)
    ensures var es := Selected(trim, paths, FullEntries(w.sha256, ps));
            && (forall e :: e in es ==> exists p :: p in ps && Chosen(trim, paths, p) && FullEntry(w.sha256, p) == [e])
            && (forall p :: p in ps && Chosen(trim, paths, p) ==> FullEntry(w.sha256, p)[0] in es)
  {
    ManifestOf(w.sha256, ps);
    KeepIfMembers(FullEntries(w.sha256, ps), Matching(trim, paths));
    forall e | e in Selected(trim, paths, FullEntries(w.sha256, ps))
      ensures exists p :: p in ps && Chosen(trim, paths, p) && FullEntry(w.sha256, p) == [e]
    {
      var p :| p in ps && Recorded(p.node) && FullEntry(w.sha256, p) == [e];
      assert FullEntry(w.sha256, p)[0] == e;
    }
  }

  lemma UnderIsInjective(dir: string, a: string, b: string)
    requires Clean(a) && Clean(b) && Under(dir, a) == Under(dir, b)
    ensures a == b
  {
    if dir != "" {
      assert a != "/" && b != "/" ==> a == (dir + a)[|dir|..] && b == (dir + b)[|dir|..];
    }
  }

  /** The selected entries of a tree meet what a restore needs. */
  lemma SelectionIsTreeLike(c: Config, n: Node, w: World, dir: string, trim: string -> string, paths: seq<string>)
    requires Clean(c.root) && WellNamed(n) && NoColonsIn(dir, Visible(c, c.root, n))
    requires StoredWell(w, Visible(c, c.root, n))
    requires !n.Dir? ==> c.root != "/"
    ensures var es := Selected(trim, paths, FullEntries(w.sha256, Visible(c, c.root, n)));
            GoodPaths(dir, es) && TreeLike(dir, es) && Healthy(w, es)
  {
    var ps := Visible(c, c.root, n);
    var es := Selected(trim, paths, FullEntries(w.sha256, ps));
    SelectionIsGood(c, n, w, dir, trim, paths);
    SelectionIsDistinctHere(c, n, w, dir, trim, paths);
    forall x, y | x in es && y in es && !x.kind.DirKind? && TargetOf(dir, x).Some?
      ensures !Top(TargetOf(dir, x).value)
      ensures TargetOf(dir, y).Some? ==> !Above(TargetOf(dir, x).value, TargetOf(dir, y).value)
    {
      var px := EntryPlace(w, trim, paths, ps, x);
      var py := EntryPlace(w, trim, paths, ps, y);
      TargetsOf(dir, es);
      OnlyDirectoriesNest(c, n, Prefix(dir), px, py);
    }
  }

  lemma SelectionIsGood(c: Config, n: Node, w: World, dir: string, trim: string -> string, paths: seq<string>)
    requires Clean(c.root) && WellNamed(n) && NoColonsIn(dir, Visible(c, c.root, n))
    requires StoredWell(w, Visible(c, c.root, n))
    ensures var es := Selected(trim, paths, FullEntries(w.sha256, Visible(c, c.root, n)));
            GoodPaths(dir, es) && Healthy(w, es)
  {
    var ps := Visible(c, c.root, n);
    var es := Selected(trim, paths, FullEntries(w.sha256, ps));
    forall e | e in es
      ensures Clean(e.path) && (dir == "" || ':' !in e.path)
      ensures e.kind.FileKind? ==> w.blob(e.hash).Some? && w.sha256(w.blob(e.hash).value) == e.hash
    {
      var p := EntryPlace(w, trim, paths, ps, e);
      assert FullEntry(w.sha256, p)[0] == e;
      PlaceIsBelow(c, c.root, n, p);
    }
  }

  lemma SelectionIsDistinctHere(c: Config, n: Node, w: World, dir: string, trim: string -> string, paths: seq<string>)
    requires Clean(c.root) && WellNamed(n)
    requires GoodPaths(dir, Selected(trim, paths, FullEntries(w.sha256, Visible(c, c.root, n))))
    ensures DistinctTargets(dir, Selected(trim, paths, FullEntries(w.sha256, Visible(c, c.root, n))))
  {
    var ps := Visible(c, c.root, n);
    var es := Selected(trim, paths, FullEntries(w.sha256, ps));
    PlacesAreDistinct(c, c.root, n);
    ManifestIsDistinct(w.sha256, ps);
    SelectionIsDistinct(FullEntries(w.sha256, ps), Matching(trim, paths));
    TargetsOf(dir, es);
    forall i, j | 0 <= i < j < |es| && TargetOf(dir, es[i]).Some?
      ensures TargetOf(dir, es[i]) != TargetOf(dir, es[j])
    {
      assert es[i] in es && es[j] in es;
      if TargetOf(dir, es[i]) == TargetOf(dir, es[j]) {
        UnderIsInjective(Prefix(dir), es[i].path, es[j].path);
      }
    }
  }

  /** A visible place is determined by its path. */
  lemma SamePathSamePlace(c: Config, n: Node, p: Place, q: Place)
    requires Clean(c.root) && WellNamed(n) && p.path == q.path
    requires p in Visible(c, c.root, n) && q in Visible(c, c.root, n)
    ensures p == q
  {
    PlacesAreDistinct(c, c.root, n);
    var ps := Visible(c, c.root, n);
    var i :| 0 <= i < |ps| && ps[i] == p;
    var j :| 0 <= j < |ps| && ps[j] == q;
  }

  /** Nothing visible lies below a moved file or link. */
  lemma OnlyDirectoriesNest(c: Config, n: Node, dir: string, x: Place, y: Place)
    requires Clean(c.root) && WellNamed(n) && x in Visible(c, c.root, n) && y in Visible(c, c.root, n)
    requires (!n.Dir? ==> c.root != "/") && !x.node.Dir?
    ensures !Top(Under(dir, x.path)) && !Above(Under(dir, x.path), Under(dir, y.path))
  {
    PlaceIsBelow(c, c.root, n, x);
    PlaceIsBelow(c, c.root, n, y);
    if x.path == "/" {
      SamePathSamePlace(c, n, x, Place(c.root, n));
    }
    var a := Under(dir, x.path);
    assert !Top(a);
    if Above(a, Under(dir, y.path)) {
      var q := AboveUnder(dir, y.path, a);
      AboveIsShorter(a, Under(dir, y.path));
      if dir != "" && Above(a, dir) {
        AboveIsShorter(a, dir);
      } else {
        UnderIsInjective(dir, q, x.path);
        AboveIsDirectory(c, c.root, n, y, q);
        if Above(q, c.root) {
          AboveIsShorter(q, c.root);
          if Above(c.root, x.path) {
            AboveIsShorter(c.root, x.path);
          }
        } else {
          var r :| r in Visible(c, c.root, n) && r.path == q && r.node.Dir?;
          SamePathSamePlace(c, n, r, x);
        }
      }
    }
  }

  lemma EntryPlace(w: World, trim: string -> string, paths: seq<string>, ps: seq<Place>, e: Entry) returns (p: Place)
    requires e in Selected(trim, paths, FullEntries(w.sha256, ps))
    ensures p in ps && Chosen(trim, paths, p) && FullEntry(w.sha256, p) == [e] && e.path == p.path
    ensures e.kind.DirKind? <==> p.node.Dir?
  {
    SelectedAre(w, trim, paths, ps);
    p :| p in ps && Chosen(trim, paths, p) && FullEntry(w.sha256, p) == [e];
    assert FullEntry(w.sha256, p)[0] == e;
  }

  /** An entry in place is the node it describes. */
  lemma InPlaceIsSame(w: World, disk: Disk, a: string, p: Place, e: Entry)
    requires Injective(w.sha256) && FullEntry(w.sha256, p) == [e] && InPlace(w, disk, a, e)
    ensures Same(w, disk, a, p.node)
  {
    assert FullEntry(w.sha256, p)[0] == e;
  }

  lemma {:induction false} AboveIsPrefix(q: string, path: string)
    requires Clean(path) && Above(q, path)
    ensures Clean(q) && q <= path
    decreases |path|
  {
    ParentIsClean(path);
    FrontIs("", path);
    if q != Parent(path) {
      AboveIsPrefix(q, Parent(path));
    }
  }

  lemma DotsInPrefix(q: string, path: string)
    requires q <= path
    ensures HasDots(q) ==> HasDots(path)
  {
    if i :| 0 < i < |q| && q[i - 1] == '.' && q[i] == '.' {
      assert path[i - 1] == '.' && path[i] == '.';
    }
  }

  lemma AboveIsAcceptable(dir: string, q: string, path: string)
    requires Clean(path) && AtOrAbove(q, path) && Acceptable(dir, path)
    ensures Clean(q) && Acceptable(dir, q)
  {
    if q != path {
      AboveIsPrefix(q, path);
      DotsInPrefix(q, path);
    }
  }

  /** A directory made on the way to a wanted place is one of the tree's, or above the root. */
  lemma MadeOnTheWay(
    c: Config, n: Node, o: Order, trim: string -> string, paths: seq<string>, after: Disk, a: string, p: Place)
    requires Clean(c.root) && WellNamed(n) && p in Visible(c, c.root, n) && Wanted(o.dir, trim, paths, p)
    requires a in after && after[a].DirAt? && Above(a, Under(Prefix(o.dir), p.path))
    ensures OnTheWayThere(o.dir, trim, paths, c.root, Visible(c, c.root, n), after, a)
  {
    var dir := Prefix(o.dir);
    PlaceIsBelow(c, c.root, n, p);
    var q := AboveUnder(dir, p.path, a);
    assert LeadsToWanted(o.dir, trim, paths, Visible(c, c.root, n), a);
    if dir != "" && Above(a, dir) {
      RootIsAbove(c.root);
      if c.root != "/" {
        UnderKeepsAbove(dir, "/", c.root);
        AboveTransitive(a, dir, Under(dir, c.root));
      }
    } else {
      AboveIsShorter(a, Under(dir, p.path));
      AboveIsDirectory(c, c.root, n, p, q);
      if Above(q, c.root) {
        UnderKeepsAbove(dir, q, c.root);
      } else {
        var r :| r in Visible(c, c.root, n) && r.path == q && r.node.Dir?;
        AboveIsAcceptable(o.dir, q, p.path);
        assert IsTreeDirectory(o.dir, Visible(c, c.root, n), a);
      }
    }
  }

  /** The manifest of a full scan, restored into an empty place, reproduces exactly the
      visible files, directories and links, in kind, content and link target; with a
      selection, exactly the selected ones and the directories above them. */
  lemma RestoreFullManifest(
    c: Config, n: Node, w: World, o: Order, trim: string -> string, paths: seq<string>, s: Progress)
    requires Clean(c.root) && WellNamed(n) && Injective(w.sha256) && (!n.Dir? ==> c.root != "/")
    requires NoColonsIn(o.dir, Visible(c, c.root, n)) && StoredWell(w, Visible(c, c.root, n))
    requires ReadyFor(s.disk, o.dir, Selected(trim, paths, FullEntries(w.sha256, Visible(c, c.root, n))))
    ensures var es := Selected(trim, paths, FullEntries(w.sha256, Visible(c, c.root, n)));
            && Mirrors(w, o, trim, paths, c.root, Visible(c, c.root, n), s.disk, AfterEntries(w, o, s, es).disk)
            && AfterEntries(w, o, s, es).skipped == s.skipped + Rejected(o.dir, es)
  {
    var ps := Visible(c, c.root, n);
    var es := Selected(trim, paths, FullEntries(w.sha256, ps));
    var before, after := s.disk, AfterEntries(w, o, s, es).disk;
    SelectionIsTreeLike(c, n, w, o.dir, trim, paths);
    if o.dir != "" {
      EmptyDirectoryIsEnough(s.disk, o.dir, es);
    }
    RestoreReproduces(w, o, s, es);
    WantedAreRestored(c, n, w, o, trim, paths, before, after);
    forall a | a in after && a !in before
      ensures IsWanted(w, o.dir, trim, paths, ps, after, a) || OnTheWayThere(o.dir, trim, paths, c.root, ps, after, a)
    {
      NewBelongs(c, n, w, o, trim, paths, before, after, a);
    }
  }

  /** An empty target directory, or original places with nothing in the way. */
  ghost predicate ReadyFor(disk: Disk, dir: string, entries: seq<Entry>) {
    if dir != "" then EmptyDirectory(disk, dir) else EmptyFor(disk, "", entries)
  }

  /** Backing up a quiescent readable tree and restoring it into an empty place
      reproduces exactly the visible files, directories and links, in kind, content
      and link target; with a selection, exactly the selected ones and the directories
      above them. */
  lemma BackupThenRestore(
    c: Config, read: string -> Option<string>, n: Node, w: World, o: Order, trim: string -> string, paths: seq<string>,
    s: Progress)
    requires Scannable(c, read, w.sha256, n) && Injective(w.sha256) && (!n.Dir? ==> c.root != "/")
    requires NoColonsIn(o.dir, Visible(c, c.root, n)) && StoredWell(w, Visible(c, c.root, n))
    requires ReadyFor(s.disk, o.dir, Selected(trim, paths, FullEntries(w.sha256, Visible(c, c.root, n))))
    ensures var after := AfterEntries(w, o, s, Selected(trim, paths, Manifest(c, read, n)));
            && Mirrors(w, o, trim, paths, c.root, Visible(c, c.root, n), s.disk, after.disk)
            && after.skipped == s.skipped + Rejected(o.dir, Selected(trim, paths, Manifest(c, read, n)))
  {
    ManifestIsFull(c, read, w.sha256, n);
    RestoreFullManifest(c, n, w, o, trim, paths, s);
  }

  lemma NewBelongs(
    c: Config, n: Node, w: World, o: Order, trim: string -> string, paths: seq<string>,
    before: Disk, after: Disk, a: string)
    requires Clean(c.root) && WellNamed(n) && Injective(w.sha256) && NoColonsIn(o.dir, Visible(c, c.root, n))
    requires Reproduced(w, o.dir, before, after, Selected(trim, paths, FullEntries(w.sha256, Visible(c, c.root, n))))
    requires a in after && a !in before
    ensures var ps := Visible(c, c.root, n);
            IsWanted(w, o.dir, trim, paths, ps, after, a) || OnTheWayThere(o.dir, trim, paths, c.root, ps, after, a)
  {
    var ps := Visible(c, c.root, n);
    var es := Selected(trim, paths, FullEntries(w.sha256, ps));
    if IsTarget(o.dir, es, a) {
      var e :| e in es && TargetOf(o.dir, e) == Some(a);
      var p := EntryPlace(w, trim, paths, ps, e);
      PlaceIsBelow(c, c.root, n, p);
      TargetIsUnder(e.path, o.dir);
      InPlaceIsSame(w, after, a, p, e);
      assert IsWanted(w, o.dir, trim, paths, ps, after, a);
    } else {
      var e :| e in es && LeadsTo(o.dir, a, e);
      var p := EntryPlace(w, trim, paths, ps, e);
      PlaceIsBelow(c, c.root, n, p);
      TargetIsUnder(e.path, o.dir);
      MadeOnTheWay(c, n, o, trim, paths, after, a, p);
    }
  }

  lemma WantedAreRestored(
    c: Config, n: Node, w: World, o: Order, trim: string -> string, paths: seq<string>, before: Disk, after: Disk)
    requires Clean(c.root) && WellNamed(n) && Injective(w.sha256) && NoColonsIn(o.dir, Visible(c, c.root, n))
    requires Reproduced(w, o.dir, before, after, Selected(trim, paths, FullEntries(w.sha256, Visible(c, c.root, n))))
    ensures var ps := Visible(c, c.root, n);
            forall p :: p in ps && Wanted(o.dir, trim, paths, p) && (o.dir == "" || p.path != "/") ==>
              Same(w, after, Under(Prefix(o.dir), p.path), p.node)
  {
    var ps := Visible(c, c.root, n);
    SelectedAre(w, trim, paths, ps);
    forall p | p in ps && Wanted(o.dir, trim, paths, p) && (o.dir == "" || p.path != "/")
      ensures Same(w, after, Under(Prefix(o.dir), p.path), p.node)
    {
      var e := FullEntry(w.sha256, p)[0];
      PlaceIsBelow(c, c.root, n, p);
      TargetIsUnder(e.path, o.dir);
      InPlaceIsSame(w, after, Under(Prefix(o.dir), p.path), p, e);
    }
  }

  /** A chosen place other than the root directory is reproduced below an empty target
      directory exactly when its path has no two dots in a row. */
  lemma ReproducedIff(
    c: Config, n: Node, w: World, o: Order, trim: string -> string, paths: seq<string>,
    before: Disk, after: Disk, p: Place)
    requires Clean(c.root) && WellNamed(n) && o.dir != "" && EmptyDirectory(before, o.dir)
    requires Mirrors(w, o, trim, paths, c.root, Visible(c, c.root, n), before, after)
    requires p in Visible(c, c.root, n) && Chosen(trim, paths, p) && p.path != "/"
    ensures Same(w, after, Under(Prefix(o.dir), p.path), p.node) <==> !HasDots(p.path)
  {
    var a := Under(Prefix(o.dir), p.path);
    PlaceIsBelow(c, c.root, n, p);
    BelowDirectory(o.dir, p.path);
    if a in after {
      NewIsAcceptable(c, n, w, o, trim, paths, before, after, p);
    }
  }

  /** No moved place is above the moved root. */
  lemma NotAboveRoot(c: Config, n: Node, dir: string, p: Place)
    requires Clean(c.root) && WellNamed(n) && p in Visible(c, c.root, n)
    ensures !Above(Under(dir, p.path), Under(dir, c.root))
  {
    PlaceIsBelow(c, c.root, n, p);
    if Above(Under(dir, p.path), Under(dir, c.root)) {
      AboveIsShorter(Under(dir, p.path), Under(dir, c.root));
      if c.root != p.path {
        UnderKeepsAbove(dir, c.root, p.path);
        AboveIsShorter(Under(dir, c.root), Under(dir, p.path));
      }
    }
  }

  /** What is new on the disk has no two dots in a row. */
  lemma NewIsAcceptable(
    c: Config, n: Node, w: World, o: Order, trim: string -> string, paths: seq<string>,
    before: Disk, after: Disk, p: Place)
    requires Clean(c.root) && WellNamed(n)
    requires Mirrors(w, o, trim, paths, c.root, Visible(c, c.root, n), before, after)
    requires p in Visible(c, c.root, n)
    requires Under(Prefix(o.dir), p.path) in after && Under(Prefix(o.dir), p.path) !in before
    ensures Acceptable(o.dir, p.path)
  {
    var ps := Visible(c, c.root, n);
    var a := Under(Prefix(o.dir), p.path);
    NotAboveRoot(c, n, Prefix(o.dir), p);
    assert IsWanted(w, o.dir, trim, paths, ps, after, a) || IsTreeDirectory(o.dir, ps, a);
    var r :| r in ps && a == Under(Prefix(o.dir), r.path) && Acceptable(o.dir, r.path);
    PlaceIsBelow(c, c.root, n, p);
    PlaceIsBelow(c, c.root, n, r);
    UnderIsInjective(Prefix(o.dir), r.path, p.path);
  }

  /** With a selection, nothing else appears: a visible place that is neither wanted nor
      above a wanted one is not there after the restore. */
  lemma UnwantedStaysOut(
    c: Config, n: Node, w: World, o: Order, trim: string -> string, paths: seq<string>,
    before: Disk, after: Disk, p: Place)
    requires Clean(c.root) && WellNamed(n) && o.dir != "" && EmptyDirectory(before, o.dir)
    requires Mirrors(w, o, trim, paths, c.root, Visible(c, c.root, n), before, after)
    requires p in Visible(c, c.root, n) && p.path != "/" && !Wanted(o.dir, trim, paths, p)
    requires forall q :: q in Visible(c, c.root, n) && Wanted(o.dir, trim, paths, q) ==> !Above(p.path, q.path)
    ensures Under(Prefix(o.dir), p.path) !in after
  {
    var ps, dir := Visible(c, c.root, n), Prefix(o.dir);
    var a := Under(dir, p.path);
    PlaceIsBelow(c, c.root, n, p);
    BelowDirectory(o.dir, p.path);
    if a in after {
      if IsWanted(w, o.dir, trim, paths, ps, after, a) {
        var r :| r in ps && Wanted(o.dir, trim, paths, r) && a == Under(dir, r.path);
        PlaceIsBelow(c, c.root, n, r);
        UnderIsInjective(dir, r.path, p.path);
        SamePathSamePlace(c, n, r, p);
      } else {
        var q :| q in ps && Wanted(o.dir, trim, paths, q) && Above(a, Under(dir, q.path));
        PlaceIsBelow(c, c.root, n, q);
        AboveIsShorter(a, Under(dir, q.path));
        var r := AboveUnder(dir, q.path, a);
        if dir != "" && Above(a, dir) {
          AboveIsShorter(a, dir);
        } else {
          UnderIsInjective(dir, r, p.path);
        }
      }
    }
  }

  /** A snapshot the server holds in full can be restored without a blob failing. */
  lemma RestorableIsHealthy(codec: Codec, t: Tables.Tables, sn: Tables.Snapshot, entries: seq<Entry>, w: World)
    requires Tables.Restorable(codec, t, sn, entries) && sn.backend == t.active
    requires w.sha256 == codec.sha256 && forall path :: !w.fails(path)
    requires forall h :: w.blob(h) == ServedBlob(codec, t, h)
    ensures Healthy(w, entries)
  {
    forall e | e in entries && e.kind.FileKind?
      ensures w.blob(e.hash).Some? && w.sha256(w.blob(e.hash).value) == e.hash
    {
      assert e.hash in FileHashes(entries);
      assert Tables.GoodBlob(codec, t, Tables.BlobId(sn.backend, e.hash));
    }
  }

  /** handleBlobGet and the decompression at the agent. */
  function ServedBlob(codec: Codec, t: Tables.Tables, h: string): Option<Bytes> {
    var o := Tables.ObjectId(t.active, Tables.BlobObject(h));
    if o in t.objects then codec.unzstd(t.objects[o]) else None
  }
}
