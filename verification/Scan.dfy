/** The agent's scan: one walk per root, then a hash pass over new and changed files. */
module Scan {
  import opened Basics
  import opened FileTree
  import opened Walk
  import opened Entries

  // ---------- exclusion ----------

  /** The exclude patterns of a job, for one root: a pattern without a separator is
      matched against the base name, one with a separator against the relative
      path.  `glob` is filepath.Match; `trim` is strings.TrimSpace. */
  predicate Excluded(
      glob: (string, string) -> bool, trim: string -> string, patterns: seq<string>, root: string, path: string) {
    exists i :: 0 <= i < |patterns| && Matches(glob, trim(patterns[i]), root, path)
  }

  predicate Matches(glob: (string, string) -> bool, pat: string, root: string, path: string) {
    && pat != ""
    && (if '/' in pat || '\\' in pat then Rel(root, path) != "" && glob(pat, Rel(root, path))
        else glob(pat, Base(path)))
  }

  /** filepath.Rel for a path below a clean root. */
  function Rel(root: string, path: string): string {
    var skip := if root == "/" then 1 else |root| + 1;
    if |path| <= skip then "" else path[skip..]
  }

  function Base(path: string): string {
    if path == "" || path[|path| - 1] == '/' then "" else Base(path[..|path| - 1]) + [path[|path| - 1]]
  }

  method IsExcluded(
      glob: (string, string) -> bool, trim: string -> string, patterns: seq<string>, root: string, path: string)
    returns (excluded: bool)
    ensures excluded <==> Excluded(glob, trim, patterns, root, path)
  {
    var base, rel := Base(path), Rel(root, path);
    for i := 0 to |patterns|
      invariant forall j :: 0 <= j < i ==> !Matches(glob, trim(patterns[j]), root, path)
    {
      var pat := trim(patterns[i]);
      if pat == "" {
        continue;
      }
      if !('/' in pat || '\\' in pat) {
        if glob(pat, base) {
          return true;
        }
      } else if rel != "" {
        if glob(pat, rel) {
          return true;
        }
      }
    }
    return false;
  }

  /** A pattern without a separator decides by the name alone, in any directory. */
  lemma NamePatternIff(
      glob: (string, string) -> bool, trim: string -> string, pat: string, root: string, dir: string, name: string)
    requires GoodName(name) && '/' !in trim(pat) && '\\' !in trim(pat)
    ensures Excluded(glob, trim, [pat], root, Join(dir, name)) <==> trim(pat) != "" && glob(trim(pat), name)
  {
    BaseOfJoin(dir, name);
    assert [pat][0] == pat;
  }

  /** A pattern with a separator decides by the path below the root alone. */
  lemma PathPatternIff(glob: (string, string) -> bool, trim: string -> string, pat: string, root: string, rel: string)
    requires rel != "" && ('/' in trim(pat) || '\\' in trim(pat))
    ensures Excluded(glob, trim, [pat], root, Join(root, rel)) <==> glob(trim(pat), rel)
  {
    assert Rel(root, Join(root, rel)) == rel;
    assert [pat][0] == pat;
  }

  // ---------- the callback ----------

  /** scanResult with the indices still to hash. */
  datatype Scan = Scan(entries: seq<Entry>, toHash: seq<nat>, total: int, bytes: int, skipped: int)

  datatype Config = Config(root: string, skip: string -> bool, prev: map<string, Entry>)

  /** The hash the incremental shortcut reuses, or "". */
  function Reused(prev: map<string, Entry>, path: string, size: int, mtime: int): string {
    if path in prev && prev[path].size == size && prev[path].mtime == mtime then prev[path].hash else ""
  }

  function Append(s: Scan, e: Entry): Scan {
    s.(entries := s.entries + [e],
       toHash := if e.kind.FileKind? && e.hash == "" then s.toHash + [|s.entries|] else s.toHash,
       total := s.total + if e.kind.FileKind? then 1 else 0,
       bytes := s.bytes + if e.kind.FileKind? then e.size else 0)
  }

  /** What one visited node adds. */
  function AddNode(c: Config, s: Scan, path: string, n: Node): Scan {
    match n
    case File(size, mtime, _) => Append(s, Entry(FileKind, path, size, mtime, Reused(c.prev, path, size, mtime), ""))
    case Link(mtime, target, readable, _) =>
      if readable then Append(s, Entry(LinkKind, path, 0, mtime, "", target)) else s.(skipped := s.skipped + 1)
    case Dir(mtime, _, _, _) => Append(s, Entry(DirKind, path, 0, mtime, "", ""))
    case Special(_) => s
    case Gone(_) => s
  }

  predicate LeftAside(c: Config, path: string, n: Node) {
    path != c.root && (c.skip(path) || (n.Dir? && n.pseudo))
  }

  /** Excluded or a kernel filesystem, which is asked only of what can be examined. */
  predicate Hidden(c: Config, path: string, n: Node) {
    !n.Gone? && LeftAside(c, path, n)
  }

  function Visit(c: Config, s: Scan, path: string, info: Option<Node>, err: bool): (Scan, Verdict) {
    if err || info.None? then
      (s.(skipped := s.skipped + 1), if info.Some? && IsDir(info.value) then SkipDir else Continue)
    else if LeftAside(c, path, info.value) then (s, if IsDir(info.value) then SkipDir else Continue)
    else (AddNode(c, s, path, info.value), Continue)
  }

  function Visiting(c: Config): Visitor<Scan> {
    (s, path, info, err) => Visit(c, s, path, info, err)
  }

  // ---------- what a walk should visit ----------

  datatype Place = Place(path: string, node: Node)

  /** The pre-order of the tree without hidden nodes and everything below them. */
  function Visible(c: Config, path: string, n: Node): seq<Place>
    decreases n, 1
  {
    if Hidden(c, path, n) then []
    else [Place(path, n)] + if n.Dir? then VisibleAll(c, path, n.children) else []
  }

  function VisibleAll(c: Config, path: string, cs: seq<Child>): seq<Place>
    decreases cs, 0
  {
    if cs == [] then []
    else Visible(c, Join(path, cs[0].name), cs[0].node) + VisibleAll(c, path, cs[1..])
  }

  /** Adding a place; a directory that fails to list is also counted as skipped, and
      what cannot be examined is only counted, a directory twice. */
  function AddPlace(c: Config, s: Scan, p: Place): Scan {
    var s1 := AddNode(c, s, p.path, p.node);
    s1.(skipped := s1.skipped + Skips(p))
  }

  function Skips(p: Place): nat {
    if Failing(p) then 1 else if !p.node.Gone? then 0 else if p.node.dir then 2 else 1
  }

  function AddPlaces(c: Config, s: Scan, ps: seq<Place>): Scan
    decreases |ps|
  {
    if ps == [] then s else AddPlaces(c, AddPlace(c, s, ps[0]), ps[1..])
  }

  predicate Failing(p: Place) {
    p.node.Dir? && p.node.readFails
  }

  /** The places up to and including the first directory that fails to list. */
  function ThroughFailure(ps: seq<Place>): seq<Place> {
    if ps == [] then [] else [ps[0]] + if Failing(ps[0]) then [] else ThroughFailure(ps[1..])
  }

  predicate AnyFailing(ps: seq<Place>) {
    exists i :: 0 <= i < |ps| && Failing(ps[i])
  }

  lemma {:induction false} AddPlacesAppend(c: Config, s: Scan, a: seq<Place>, b: seq<Place>)
    ensures AddPlaces(c, s, a + b) == AddPlaces(c, AddPlaces(c, s, a), b)
    decreases |a|
  {
    if a == [] {
      assert a + b == b;
    } else {
      assert (a + b)[1..] == a[1..] + b;
      AddPlacesAppend(c, AddPlace(c, s, a[0]), a[1..], b);
    }
  }

  lemma AnyFailingCons(x: Place, rest: seq<Place>)
    ensures AnyFailing([x] + rest) <==> Failing(x) || AnyFailing(rest)
    ensures ThroughFailure([x] + rest) == [x] + if Failing(x) then [] else ThroughFailure(rest)
  {
    var ps := [x] + rest;
    assert ps[0] == x && ps[1..] == rest;
    assert forall i :: 0 <= i < |rest| ==> ps[i + 1] == rest[i];
    if AnyFailing(rest) {
      var i :| 0 <= i < |rest| && Failing(rest[i]);
      assert Failing(ps[i + 1]);
    }
  }

  lemma {:induction false} ThroughFailureAppend(a: seq<Place>, b: seq<Place>)
    ensures AnyFailing(a + b) <==> AnyFailing(a) || AnyFailing(b)
    ensures ThroughFailure(a + b) == if AnyFailing(a) then ThroughFailure(a) else a + ThroughFailure(b)
  {
    if a == [] {
      assert a + b == b;
    } else {
      ThroughFailureAppend(a[1..], b);
      ConsAppend(a, b);
      AnyFailingCons(a[0], a[1..] + b);
      assert a == [a[0]] + a[1..];
      AnyFailingCons(a[0], a[1..]);
      ConsAppend(a, ThroughFailure(b));
    }
  }

  /** Following child indices from a node reaches a place, and no node on the way,
      nor the place itself, is hidden. */
  predicate Reaches(c: Config, path: string, n: Node, route: seq<nat>, p: Place)
    decreases |route|
  {
    && !Hidden(c, path, n)
    && if route == [] then p == Place(path, n)
       else n.Dir? && route[0] < |n.children|
            && Reaches(c, Join(path, n.children[route[0]].name), n.children[route[0]].node, route[1..], p)
  }

  lemma {:induction false} ReachedIsVisible(c: Config, path: string, n: Node, route: seq<nat>, p: Place)
    requires Reaches(c, path, n, route, p)
    ensures p in Visible(c, path, n)
    decreases |route|
  {
    if route != [] {
      var k := n.children[route[0]];
      ReachedIsVisible(c, Join(path, k.name), k.node, route[1..], p);
      ChildIsVisible(c, path, n.children, route[0], p);
    }
  }

  lemma {:induction false} ChildIsVisible(c: Config, path: string, cs: seq<Child>, i: nat, p: Place)
    requires i < |cs| && p in Visible(c, Join(path, cs[i].name), cs[i].node)
    ensures p in VisibleAll(c, path, cs)
    decreases i
  {
    if i > 0 {
      ChildIsVisible(c, path, cs[1..], i - 1, p);
    }
  }

  lemma {:induction false} VisibleIsReached(c: Config, path: string, n: Node, p: Place) returns (route: seq<nat>)
    requires p in Visible(c, path, n)
    ensures Reaches(c, path, n, route, p)
    decreases n, 1
  {
    if p == Place(path, n) {
      route := [];
    } else {
      var i, rest := VisibleInChild(c, path, n.children, p);
      route := [i] + rest;
      assert route[1..] == rest;
    }
  }

  lemma {:induction false} VisibleInChild(
      c: Config, path: string, cs: seq<Child>, p: Place) returns (i: nat, route: seq<nat>)
    requires p in VisibleAll(c, path, cs)
    ensures i < |cs| && Reaches(c, Join(path, cs[i].name), cs[i].node, route, p)
    decreases cs, 0
  {
    assert cs[0..] == cs;
    i := ChildOf(c, path, cs, 0, p);
    route := VisibleIsReached(c, Join(path, cs[i].name), cs[i].node, p);
  }

  lemma {:induction false} ChildOf(c: Config, path: string, cs: seq<Child>, from: nat, p: Place) returns (i: nat)
    requires from <= |cs| && p in VisibleAll(c, path, cs[from..])
    ensures i < |cs| && InChild(c, path, cs[i], p)
    decreases |cs| - from
  {
    var rest := cs[from..];
    FirstOrRest(c, path, rest, p);
    assert rest[0] == cs[from] && rest[1..] == cs[from + 1..];
    if InChild(c, path, cs[from], p) {
      i := from;
    } else {
      i := ChildOf(c, path, cs, from + 1, p);
    }
  }

  lemma FirstOrRest(c: Config, path: string, cs: seq<Child>, p: Place)
    requires p in VisibleAll(c, path, cs)
    ensures cs != [] && (InChild(c, path, cs[0], p) || p in VisibleAll(c, path, cs[1..]))
  {
  }

  predicate InChild(c: Config, path: string, k: Child, p: Place) {
    p in Visible(c, Join(path, k.name), k.node)
  }

  /** The place that child indices lead to, from a node on. */
  function PlaceAt(path: string, n: Node, route: seq<nat>): Option<Place>
    decreases |route|
  {
    if route == [] then Some(Place(path, n))
    else if n.Dir? && route[0] < |n.children| then
      PlaceAt(Join(path, n.children[route[0]].name), n.children[route[0]].node, route[1..])
    else None
  }

  /** Neither excluded nor a kernel filesystem; what cannot be examined is never asked. */
  predicate Admitted(c: Config, q: Place) {
    q.node.Gone? || (!c.skip(q.path) && (q.node.Dir? ==> !q.node.pseudo))
  }

  /** Everything on the way from below the root to the end of the route is admitted. */
  ghost predicate Open(c: Config, n: Node, route: seq<nat>) {
    forall k :: 0 < k <= |route| ==>
      PlaceAt(c.root, n, route[..k]).Some? ==> Admitted(c, PlaceAt(c.root, n, route[..k]).value)
  }

  lemma {:induction false} ReachesAdmitted(c: Config, path: string, n: Node, route: seq<nat>, p: Place)
    requires WellNamed(n) && |path| > |c.root|
    ensures Reaches(c, path, n, route, p) <==>
            && PlaceAt(path, n, route) == Some(p)
            && forall k :: 0 <= k <= |route| ==>
                 PlaceAt(path, n, route[..k]).Some? ==> Admitted(c, PlaceAt(path, n, route[..k]).value)
    decreases |route|
  {
    assert PlaceAt(path, n, route[..0]) == Some(Place(path, n));
    if route != [] && n.Dir? && route[0] < |n.children| {
      var k := n.children[route[0]];
      ReachesAdmitted(c, Join(path, k.name), k.node, route[1..], p);
      PlacesBelow(path, n, route);
    }
  }

  /** The places on a route are the node and those on the rest of the route from its child. */
  lemma PlacesBelow(path: string, n: Node, route: seq<nat>)
    requires route != [] && n.Dir? && route[0] < |n.children|
    ensures var k := n.children[route[0]];
            && (forall i :: 0 < i <= |route| ==>
                  PlaceAt(path, n, route[..i]) == PlaceAt(Join(path, k.name), k.node, route[1..][..i - 1]))
            && (forall i :: 0 <= i < |route| ==>
                  PlaceAt(Join(path, k.name), k.node, route[1..][..i]) == PlaceAt(path, n, route[..i + 1]))
  {
    assert forall i :: 0 < i <= |route| ==> route[..i][1..] == route[1..][..i - 1];
    assert forall i :: 0 <= i < |route| ==> route[..i + 1][1..] == route[1..][..i];
  }

  /** From the root, which is never left out. */
  lemma RootReaches(c: Config, n: Node, route: seq<nat>, p: Place)
    requires WellNamed(n)
    ensures Reaches(c, c.root, n, route, p) <==> PlaceAt(c.root, n, route) == Some(p) && Open(c, n, route)
  {
    if route != [] && n.Dir? && route[0] < |n.children| {
      var k := n.children[route[0]];
      ReachesAdmitted(c, Join(c.root, k.name), k.node, route[1..], p);
      PlacesBelow(c.root, n, route);
    }
  }

  ghost predicate OpenTo(c: Config, n: Node, route: seq<nat>, p: Place) {
    PlaceAt(c.root, n, route) == Some(p) && Open(c, n, route)
  }

  /** A place is emitted exactly when child indices lead to it from the root and nothing
      below the root on the way, itself included, is excluded or a kernel filesystem. */
  lemma VisibleIff(c: Config, n: Node, p: Place)
    requires WellNamed(n)
    ensures p in Visible(c, c.root, n) <==> exists route :: OpenTo(c, n, route, p)
  {
    if p in Visible(c, c.root, n) {
      var route := VisibleIsReached(c, c.root, n, p);
      RootReaches(c, n, route, p);
      assert OpenTo(c, n, route, p);
    } else if route :| OpenTo(c, n, route, p) {
      RootReaches(c, n, route, p);
      ReachedIsVisible(c, c.root, n, route, p);
    }
  }

  /** The place is a child of the other, which is a directory. */
  predicate IsChild(parent: Place, p: Place) {
    parent.node.Dir? && Child(Base(p.path), p.node) in parent.node.children && p.path == Join(parent.path, Base(p.path))
  }

  lemma {:induction false} BaseOfJoin(path: string, name: string)
    requires GoodName(name)
    ensures Base(Join(path, name)) == name
  {
    BaseOfSuffix(if path == "/" then "/" else path + "/", name);
    assert Join(path, name) == (if path == "/" then "/" else path + "/") + name;
  }

  lemma {:induction false} BaseOfSuffix(front: string, name: string)
    requires front != "" && front[|front| - 1] == '/' && '/' !in name
    ensures Base(front + name) == name
  {
    if name == "" {
      assert front + name == front;
    } else {
      var k := |name| - 1;
      assert (front + name)[..|front + name| - 1] == front + name[..k];
      BaseOfSuffix(front, name[..k]);
    }
  }

  /** Each place in turn is a child of one seen before it. */
  ghost predicate ParentsFirst(seen: set<Place>, ps: seq<Place>)
    decreases |ps|
  {
    ps == [] || (HasParent(seen, ps[0]) && ParentsFirst(seen + {ps[0]}, ps[1..]))
  }

  ghost predicate HasParent(seen: set<Place>, p: Place) {
    exists q :: q in seen && IsChild(q, p)
  }

  lemma {:induction false} ParentsFirstMore(seen: set<Place>, more: set<Place>, ps: seq<Place>)
    requires seen <= more && ParentsFirst(seen, ps)
    ensures ParentsFirst(more, ps)
    decreases |ps|
  {
    if ps != [] {
      ParentsFirstMore(seen + {ps[0]}, more + {ps[0]}, ps[1..]);
    }
  }

  lemma {:induction false} ParentsFirstAppend(seen: set<Place>, a: seq<Place>, b: seq<Place>)
    requires ParentsFirst(seen, a) && ParentsFirst(seen, b)
    ensures ParentsFirst(seen, a + b)
    decreases |a|
  {
    if a != [] {
      ParentsFirstMore(seen, seen + {a[0]}, b);
      ParentsFirstAppend(seen + {a[0]}, a[1..], b);
      ParentsFirstCons(seen, a[0], a[1..] + b);
      ConsAppend(a, b);
    } else {
      assert a + b == b;
    }
  }

  lemma ParentsFirstCons(seen: set<Place>, p: Place, ps: seq<Place>)
    requires HasParent(seen, p) && ParentsFirst(seen + {p}, ps)
    ensures ParentsFirst(seen, [p] + ps)
  {
    assert ([p] + ps)[1..] == ps;
  }

  /** Every place below the root comes after the directory it is a child of. */
  lemma {:induction false} ParentsComeFirst(c: Config, path: string, n: Node)
    requires WellNamed(n) && !Hidden(c, path, n)
    ensures Visible(c, path, n)[0] == Place(path, n)
    ensures ParentsFirst({Place(path, n)}, Visible(c, path, n)[1..])
    decreases n, 1
  {
    if n.Dir? {
      ChildrenComeAfter(c, Place(path, n), n.children);
      assert Visible(c, path, n)[1..] == VisibleAll(c, path, n.children);
    }
  }

  lemma {:induction false} ChildrenComeAfter(c: Config, parent: Place, cs: seq<Child>)
    requires parent.node.Dir? && WellNamedAll(cs) && forall k :: k in cs ==> k in parent.node.children
    ensures ParentsFirst({parent}, VisibleAll(c, parent.path, cs))
    decreases cs, 0
  {
    if cs != [] {
      var path := Join(parent.path, cs[0].name);
      var first, rest := Visible(c, path, cs[0].node), VisibleAll(c, parent.path, cs[1..]);
      ChildrenComeAfter(c, parent, cs[1..]);
      if first != [] {
        ParentsComeFirst(c, path, cs[0].node);
        BaseOfJoin(parent.path, cs[0].name);
        assert Child(Base(path), cs[0].node) == cs[0];
        assert IsChild(parent, first[0]);
        ParentsFirstMore({first[0]}, {parent} + {first[0]}, first[1..]);
      }
      ParentsFirstAppend({parent}, first, rest);
    }
  }

  // ---------- what the walks visit ----------

  lemma {:induction false} WalkDirVisits(c: Config, s: Scan, path: string, n: Node)
    ensures WalkDir(Visiting(c), s, path, n) == (AddPlaces(c, s, Visible(c, path, n)), Continue)
    decreases n, 1
  {
    if !Hidden(c, path, n) {
      var p := Place(path, n);
      assert AddPlaces(c, s, [p]) == AddPlace(c, s, p);
      if n.Dir? {
        WalkChildrenVisits(c, AddPlace(c, s, p), path, n.children);
        AddPlacesAppend(c, s, [p], VisibleAll(c, path, n.children));
      }
    }
  }

  lemma {:induction false} WalkChildrenVisits(c: Config, s: Scan, path: string, cs: seq<Child>)
    ensures WalkChildren(Visiting(c), s, path, cs) == (AddPlaces(c, s, VisibleAll(c, path, cs)), Continue)
    decreases cs, 0
  {
    if cs != [] {
      var first := Visible(c, Join(path, cs[0].name), cs[0].node);
      WalkDirVisits(c, s, Join(path, cs[0].name), cs[0].node);
      WalkChildrenVisits(c, AddPlaces(c, s, first), path, cs[1..]);
      AddPlacesAppend(c, s, first, VisibleAll(c, path, cs[1..]));
    }
  }

  /** On Unix the scan of a root emits the whole visible pre-order, with whatever a
      failing listing did return, and never stops early. */
  lemma UnixScanIsPreorder(c: Config, s: Scan, n: Node)
    ensures UnixWalk(Visiting(c), s, c.root, Some(n)) == (AddPlaces(c, s, Visible(c, c.root, n)), Continue)
  {
    WalkDirVisits(c, s, c.root, n);
  }

  function Outcome(failed: bool): Verdict {
    if failed then SkipDir else Continue
  }

  lemma {:induction false} WalkEntryVisits(c: Config, s: Scan, path: string, n: Node)
    requires Examined(n)
    ensures WalkEntry(Visiting(c), s, path, n)
         == (AddPlaces(c, s, ThroughFailure(Visible(c, path, n))), Outcome(AnyFailing(Visible(c, path, n))))
    decreases n, 1
  {
    if Hidden(c, path, n) {
      return;
    }
    var p := Place(path, n);
    OnePlace(c, s, p);
    if n.Dir? {
      var below := VisibleAll(c, path, n.children);
      ThroughFailureAppend([p], below);
      if !n.readFails {
        WalkEntriesVisit(c, AddPlace(c, s, p), path, n.children);
        AddPlacesAppend(c, s, [p], ThroughFailure(below));
      }
    }
  }

  lemma OnePlace(c: Config, s: Scan, p: Place)
    ensures AddPlaces(c, s, [p]) == AddPlace(c, s, p)
    ensures ThroughFailure([p]) == [p] && (AnyFailing([p]) <==> Failing(p))
  {
    assert AddPlaces(c, AddPlace(c, s, p), []) == AddPlace(c, s, p);
    assert [p][0] == p;
  }

  lemma {:induction false} WalkEntriesVisit(c: Config, s: Scan, path: string, cs: seq<Child>)
    requires ExaminedAll(cs)
    ensures WalkEntries(Visiting(c), s, path, cs)
         == (AddPlaces(c, s, ThroughFailure(VisibleAll(c, path, cs))), Outcome(AnyFailing(VisibleAll(c, path, cs))))
    decreases cs, 0
  {
    if cs != [] {
      var first := Visible(c, Join(path, cs[0].name), cs[0].node);
      WalkEntryVisits(c, s, Join(path, cs[0].name), cs[0].node);
      ThroughFailureAppend(first, VisibleAll(c, path, cs[1..]));
      if !AnyFailing(first) {
        NoFailure(first);
        WalkEntriesVisit(c, AddPlaces(c, s, first), path, cs[1..]);
        AddPlacesAppend(c, s, first, ThroughFailure(VisibleAll(c, path, cs[1..])));
      }
    }
  }

  lemma {:induction false} NoFailure(ps: seq<Place>)
    requires !AnyFailing(ps)
    ensures ThroughFailure(ps) == ps
  {
    if ps != [] {
      assert !AnyFailing(ps[1..]) by {
        assert forall i :: 0 <= i < |ps| - 1 ==> ps[1..][i] == ps[i + 1];
      }
      NoFailure(ps[1..]);
    }
  }

  /** On Windows the scan of a root emits the visible pre-order only up to and
      including the first directory that fails to list: the SkipDir returned for
      that failure ends the walk of the whole root. */
  lemma WindowsScanStopsAtFailure(c: Config, s: Scan, n: Node)
    requires Examined(n)
    ensures WindowsWalk(Visiting(c), s, c.root, Some(n))
         == (AddPlaces(c, s, ThroughFailure(Visible(c, c.root, n))), Continue)
  {
    WalkEntryVisits(c, s, c.root, n);
  }

  /** Nothing is lost exactly when no failing directory comes before another visible place. */
  lemma {:induction false} NothingLostIff(ps: seq<Place>)
    ensures ThroughFailure(ps) == ps <==> forall i :: 0 <= i < |ps| - 1 ==> !Failing(ps[i])
    ensures |ThroughFailure(ps)| <= |ps| && ThroughFailure(ps) == ps[..|ThroughFailure(ps)|]
  {
    if ps != [] {
      var rest := ps[1..];
      NothingLostIff(rest);
      assert forall i :: 0 <= i < |rest| ==> rest[i] == ps[i + 1];
      if Failing(ps[0]) {
        assert ThroughFailure(ps) == [ps[0]];
      } else {
        assert ThroughFailure(ps) == [ps[0]] + ThroughFailure(rest);
        assert ThroughFailure(ps)[1..] == ThroughFailure(rest);
        if forall i :: 0 <= i < |rest| - 1 ==> !Failing(rest[i]) {
          assert forall i :: 0 < i < |ps| - 1 ==> ps[i] == rest[i - 1] && !Failing(rest[i - 1]);
        } else {
          var i :| 0 <= i < |rest| - 1 && Failing(rest[i]);
          assert Failing(ps[i + 1]);
        }
      }
    }
  }

  /** A tree on which the two scans differ: an unreadable directory before a file. */
  lemma FailureHidesSibling(c: Config, content: Bytes)
    requires c.root == "/r" && !c.skip("/r/a") && !c.skip("/r/b")
    ensures var bad := Dir(0, [], true, false);
            var tree := Dir(0, [Child("a", bad), Child("b", File(1, 0, content))], false, false);
            Visible(c, "/r", tree) == [Place("/r", tree), Place("/r/a", bad), Place("/r/b", File(1, 0, content))]
            && ThroughFailure(Visible(c, "/r", tree)) == [Place("/r", tree), Place("/r/a", bad)]
  {
    var bad, file := Dir(0, [], true, false), File(1, 0, content);
    var kids := [Child("a", bad), Child("b", file)];
    var tree := Dir(0, kids, false, false);
    assert Join("/r", "a") == "/r/a" && Join("/r", "b") == "/r/b";
    assert kids[1..] == [Child("b", file)] && kids[1..][1..] == [];
    assert VisibleAll(c, "/r/a", []) == [];
    assert Visible(c, "/r/a", bad) == [Place("/r/a", bad)];
    assert VisibleAll(c, "/r", kids[1..]) == [Place("/r/b", file)];
    assert VisibleAll(c, "/r", kids) == [Place("/r/a", bad), Place("/r/b", file)];
    var ps := Visible(c, "/r", tree);
    assert ps == [Place("/r", tree), Place("/r/a", bad), Place("/r/b", file)];
    assert ps[1..] == [Place("/r/a", bad), Place("/r/b", file)];
  }
}
