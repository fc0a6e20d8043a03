/** What the exclude patterns of a job keep out of its backup, place by place. */
module Exclusion {
  import opened Basics
  import opened FileTree
  import opened Paths
  import opened Walk
  import opened Scan
  import Engine
  import RoundTrip

  // ---------- a place has one route ----------

  lemma {:induction false} RouteLeadsDown(path: string, n: Node, route: seq<nat>, p: Place)
    requires Clean(path) && WellNamed(n) && PlaceAt(path, n, route) == Some(p)
    ensures Clean(p.path) && AtOrAbove(path, p.path) && (route != [] ==> Above(path, p.path))
    decreases |route|
  {
    if route != [] {
      var k := n.children[route[0]];
      ParentOfJoin(path, k.name);
      RouteLeadsDown(Join(path, k.name), k.node, route[1..], p);
      AboveTransitive(path, Join(path, k.name), p.path);
    }
  }

  lemma OnlyRootIsAtRoot(path: string, n: Node, route: seq<nat>, p: Place)
    requires Clean(path) && WellNamed(n) && PlaceAt(path, n, route) == Some(p) && p.path == path
    ensures route == []
  {
    RouteLeadsDown(path, n, route, p);
    if route != [] {
      AboveIsShorter(path, path);
    }
  }

  lemma SameFirst(path: string, n: Node, a: seq<nat>, b: seq<nat>, p: Place, q: Place)
    requires Clean(path) && WellNamed(n) && p.path == q.path && a != [] && b != []
    requires PlaceAt(path, n, a) == Some(p) && PlaceAt(path, n, b) == Some(q)
    ensures a[0] == b[0]
  {
    var x, y := n.children[a[0]], n.children[b[0]];
    ParentOfJoin(path, x.name);
    ParentOfJoin(path, y.name);
    RouteLeadsDown(Join(path, x.name), x.node, a[1..], p);
    RouteLeadsDown(Join(path, y.name), y.node, b[1..], q);
    RoundTrip.SiblingsDoNotNest(path, x.name, y.name, p.path);
  }

  lemma {:induction false} RouteIsUnique(path: string, n: Node, a: seq<nat>, b: seq<nat>, p: Place, q: Place)
    requires Clean(path) && WellNamed(n) && p.path == q.path
    requires PlaceAt(path, n, a) == Some(p) && PlaceAt(path, n, b) == Some(q)
    ensures a == b
    decreases |a|
  {
    if a == [] {
      OnlyRootIsAtRoot(path, n, b, q);
    } else if b == [] {
      OnlyRootIsAtRoot(path, n, a, p);
    } else {
      SameFirst(path, n, a, b, p, q);
      var k := n.children[a[0]];
      ParentOfJoin(path, k.name);
      RouteIsUnique(Join(path, k.name), k.node, a[1..], b[1..], p, q);
      assert a == [a[0]] + a[1..] && b == [b[0]] + b[1..];
    }
  }

  /** The place at the end of a route is emitted exactly when everything on that route
      below the root, itself included, is admitted. */
  lemma EmittedIff(c: Config, n: Node, route: seq<nat>, p: Place)
    requires Clean(c.root) && WellNamed(n) && PlaceAt(c.root, n, route) == Some(p)
    ensures p in Visible(c, c.root, n) <==> Open(c, n, route)
  {
    VisibleIff(c, n, p);
    if p in Visible(c, c.root, n) {
      var other: seq<nat> :| OpenTo(c, n, other, p);
      RouteIsUnique(c.root, n, route, other, p, p);
    } else if Open(c, n, route) {
      assert OpenTo(c, n, route, p);
    }
  }

  // ---------- what a scan records of it ----------

  lemma {:induction false} EntriesAre(prev: map<string, Entry>, ps: seq<Place>)
    ensures forall p, e :: p in ps && Engine.EntryOf(prev, p) == [e] ==> e in Engine.EntriesOf(prev, ps)
    ensures forall e :: e in Engine.EntriesOf(prev, ps) ==>
              exists p :: p in ps && Engine.EntryOf(prev, p) == [e]
  {
    if ps != [] {
      EntriesAre(prev, ps[1..]);
      forall e | e in Engine.EntriesOf(prev, ps)
        ensures exists p :: p in ps && Engine.EntryOf(prev, p) == [e]
      {
        if e in Engine.EntryOf(prev, ps[0]) {
          assert Engine.EntryOf(prev, ps[0]) == [e];
        } else {
          var p :| p in ps[1..] && Engine.EntryOf(prev, p) == [e];
          assert p in ps;
        }
      }
    }
  }

  /** The entry records the file, directory or link: its path, kind, size, time and target;
      a hash only if the previous manifest has one for the same size and time. */
  predicate Records(prev: map<string, Entry>, p: Place, e: Entry) {
    && e.path == p.path
    && match p.node
       case File(size, mtime, _) =>
         && e.kind == FileKind && e.size == size && e.mtime == mtime && e.target == ""
         && (e.hash != "" <==> p.path in prev && prev[p.path].hash != ""
                               && prev[p.path].size == size && prev[p.path].mtime == mtime)
         && (e.hash != "" ==> e.hash == prev[p.path].hash)
       case Dir(mtime, _, _, _) => e == Entry(DirKind, p.path, 0, mtime, "", "")
       case Link(mtime, target, readable, _) => readable && e == Entry(LinkKind, p.path, 0, mtime, "", target)
       case Special(_) => false
       case Gone(_) => false
  }

  lemma EntryRecords(prev: map<string, Entry>, p: Place)
    ensures RoundTrip.Recorded(p.node) <==> Engine.EntryOf(prev, p) != []
    ensures forall e :: Engine.EntryOf(prev, p) == [e] ==> Records(prev, p, e)
    ensures |Engine.EntryOf(prev, p)| <= 1
  {
  }

  /** The entries the walk of a root leaves. */
  function Walked(c: Config, n: Node): seq<Entry> {
    UnixWalk(Visiting(c), Scan([], [], 0, 0, 0), c.root, Some(n)).0.entries
  }

  lemma WalkedAre(c: Config, n: Node)
    ensures Walked(c, n) == Engine.EntriesOf(c.prev, Visible(c, c.root, n))
  {
    UnixScanIsPreorder(c, Scan([], [], 0, 0, 0), n);
    Engine.PlacesAddEntries(c, Scan([], [], 0, 0, 0), Visible(c, c.root, n));
  }

  /** None of the patterns excludes anything on the route, and no kernel filesystem is on it. */
  ghost predicate Unmatched(
    glob: (string, string) -> bool, trim: string -> string, patterns: seq<string>, root: string, n: Node,
    route: seq<nat>)
  {
    forall k :: 0 < k <= |route| && PlaceAt(root, n, route[..k]).Some? ==>
      var q := PlaceAt(root, n, route[..k]).value;
      q.node.Gone? || (!Excluded(glob, trim, patterns, root, q.path) && (q.node.Dir? ==> !q.node.pseudo))
  }

  /** A place is in the scan of a job exactly when it is a file, a directory or a link that
      can be read, and neither it nor a directory above it, below the root, is excluded by
      a pattern or a kernel filesystem; and then the scan records it as it is. */
  lemma BackedUpIff(
    glob: (string, string) -> bool, trim: string -> string, patterns: seq<string>,
    c: Config, n: Node, route: seq<nat>, p: Place)
    requires forall path :: c.skip(path) <==> Excluded(glob, trim, patterns, c.root, path)
    requires Clean(c.root) && WellNamed(n) && PlaceAt(c.root, n, route) == Some(p)
    ensures (exists e :: e in Walked(c, n) && e.path == p.path) <==>
            (p.node.File? || p.node.Dir? || (p.node.Link? && p.node.readable))
            && Unmatched(glob, trim, patterns, c.root, n, route)
    ensures forall e :: e in Walked(c, n) && e.path == p.path ==> Records(c.prev, p, e)
  {
    WalkedAre(c, n);
    EntriesAre(c.prev, Visible(c, c.root, n));
    EntryRecords(c.prev, p);
    EmittedIff(c, n, route, p);
    assert Open(c, n, route) <==> Unmatched(glob, trim, patterns, c.root, n, route);
    if p in Visible(c, c.root, n) && RoundTrip.Recorded(p.node) {
      var e := Engine.EntryOf(c.prev, p)[0];
      assert Engine.EntryOf(c.prev, p) == [e];
    }
    forall e | e in Walked(c, n) && e.path == p.path
      ensures p in Visible(c, c.root, n) && Engine.EntryOf(c.prev, p) == [e]
    {
      OnlyPlace(c, n, route, p, e);
    }
  }

  /** An entry with the path of a place is that place's. */
  lemma OnlyPlace(c: Config, n: Node, route: seq<nat>, p: Place, e: Entry)
    requires Clean(c.root) && WellNamed(n) && PlaceAt(c.root, n, route) == Some(p)
    requires e in Engine.EntriesOf(c.prev, Visible(c, c.root, n)) && e.path == p.path
    ensures p in Visible(c, c.root, n) && Engine.EntryOf(c.prev, p) == [e]
  {
    EntriesAre(c.prev, Visible(c, c.root, n));
    var q :| q in Visible(c, c.root, n) && Engine.EntryOf(c.prev, q) == [e];
    EntryRecords(c.prev, q);
    VisibleIff(c, n, q);
    var other: seq<nat> :| OpenTo(c, n, other, q);
    RouteIsUnique(c.root, n, route, other, p, q);
  }

  /** Several patterns exclude what one of them excludes. */
  lemma ExcludedIff(
    glob: (string, string) -> bool, trim: string -> string, patterns: seq<string>, root: string, path: string)
    ensures Excluded(glob, trim, patterns, root, path) <==>
            exists pat :: pat in patterns && Excluded(glob, trim, [pat], root, path)
  {
    if i :| 0 <= i < |patterns| && Matches(glob, trim(patterns[i]), root, path) {
      assert [patterns[i]][0] == patterns[i];
      assert Excluded(glob, trim, [patterns[i]], root, path) && patterns[i] in patterns;
    }
  }
}
