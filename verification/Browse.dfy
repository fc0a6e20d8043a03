/** The snapshot browser, and how its paths select entries. */
module Browse {
  import opened Basics
  import opened Paths
  import opened Sorting
  import Restore

  datatype TreeNode = TreeNode(name: string, path: string, kind: Kind, size: int, mtime: int)

  predicate UnderPrefix(path: string, prefixes: seq<string>) {
    || prefixes == []
    || exists i :: 0 <= i < |prefixes| && Restore.PrefixMatches(TrimLeft(path), TrimSlashes(prefixes[i]))
  }

  /** Integer division that truncates towards zero. */
  function Seconds(nanos: int): int {
    if nanos >= 0 then nanos / 1000000000 else -(-nanos / 1000000000)
  }

  function FirstName(p: string): string {
    if p == "" || p[0] == '/' then "" else [p[0]] + FirstName(p[1..])
  }

  /** What is left of a path strictly below the (trimmed) prefix; "" otherwise. */
  function Rest(prefix: string, path: string): string {
    var p := TrimLeft(path);
    if prefix == "" then p else if prefix + "/" <= p then p[|prefix| + 1..] else ""
  }

  function Full(prefix: string, name: string): string {
    if prefix != "" then prefix + "/" + name else name
  }

  function Leaf(prefix: string, e: Entry): TreeNode {
    var name := Rest(prefix, e.path);
    TreeNode(name, Full(prefix, name), e.kind, e.size, Seconds(e.mtime))
  }

  function Implied(prefix: string, name: string): TreeNode {
    TreeNode(name, Full(prefix, name), DirKind, 0, 0)
  }

  /** One entry: a leaf replaces the node, a deeper path implies a directory only
      when there is none. */
  function AddNode(prefix: string, nodes: map<string, TreeNode>, e: Entry): map<string, TreeNode> {
    var p := Rest(prefix, e.path);
    if p == "" then nodes
    else if '/' !in p then nodes[p := Leaf(prefix, e)]
    else if FirstName(p) in nodes then nodes
    else nodes[FirstName(p) := Implied(prefix, FirstName(p))]
  }

  function Tree(prefix: string, entries: seq<Entry>): map<string, TreeNode> {
    if entries == [] then map[]
    else AddNode(prefix, Tree(prefix, entries[..|entries| - 1]), entries[|entries| - 1])
  }

  lemma TreeNext(prefix: string, entries: seq<Entry>, i: nat)
    requires i < |entries|
    ensures Tree(prefix, entries[..i + 1]) == AddNode(prefix, Tree(prefix, entries[..i]), entries[i])
  {
    assert entries[..i + 1][..i] == entries[..i];
  }

  /** The listing: None when the manifest cannot be read, otherwise each node of the tree
      once, directories first, then by name. */
  method SnapshotTree(raw: string, manifest: Option<seq<Entry>>) returns (out: Option<seq<TreeNode>>)
    ensures out.None? <==> manifest.None?
    ensures out.Some? ==> Sorted(out.value, ListedBefore())
    ensures out.Some? ==> forall i, j :: 0 <= i < j < |out.value| ==> InOrder(out.value[i], out.value[j])
    ensures out.Some? ==> ListsEachOnce(out.value, Tree(TrimSlashes(raw), manifest.value))
  {
    if manifest.None? {
      return None;
    }
    var nodes := CollectNodes(TrimSlashes(raw), manifest.value);
    var list := Values(nodes);
    ListingIsOrdered();
    var sorted := Sort(list, ListedBefore());
    SameListed(sorted, list, nodes);
    forall i, j | 0 <= i < j < |sorted|
      ensures InOrder(sorted[i], sorted[j])
    {
      assert !ListedBefore()(sorted[j], sorted[i]);
    }
    return Some(sorted);
  }

  /** No directory comes after something else, and within each group no name after a
      greater one. */
  predicate InOrder(x: TreeNode, y: TreeNode) {
    && (y.kind.DirKind? ==> x.kind.DirKind?)
    && ((x.kind.DirKind? <==> y.kind.DirKind?) ==> !Less(y.name, x.name))
  }

  /** Every node of the map stands in the list exactly once, and nothing else does. */
  ghost predicate ListsEachOnce(list: seq<TreeNode>, nodes: map<string, TreeNode>) {
    && (forall n :: n in list <==> exists name :: name in nodes && nodes[name] == n)
    && |list| == |nodes|
  }

  lemma SameListed(sorted: seq<TreeNode>, list: seq<TreeNode>, nodes: map<string, TreeNode>)
    requires multiset(sorted) == multiset(list) && ListsEachOnce(list, nodes)
    ensures ListsEachOnce(sorted, nodes)
  {
    assert |sorted| == |multiset(sorted)| && |list| == |multiset(list)|;
    forall n
      ensures n in sorted <==> n in list
    {
      assert n in sorted <==> n in multiset(sorted);
      assert n in list <==> n in multiset(list);
    }
  }

  method Values(nodes: map<string, TreeNode>) returns (list: seq<TreeNode>)
    ensures ListsEachOnce(list, nodes)
  {
    list := [];
    var rest := nodes;
    while rest != map[]
      invariant forall name :: name in rest ==> name in nodes && rest[name] == nodes[name]
      invariant |list| + |rest| == |nodes|
      invariant forall n :: n in list <==> exists name :: name in nodes && name !in rest && nodes[name] == n
      decreases |rest|
    {
      var name :| name in rest;
      list := list + [rest[name]];
      assert |rest - {name}| == |rest| - 1 by {
        assert (rest - {name}).Keys == rest.Keys - {name};
        assert |rest.Keys| == |rest| && |(rest - {name}).Keys| == |rest - {name}|;
      }
      rest := rest - {name};
    }
  }

  function ListedBefore(): (TreeNode, TreeNode) -> bool {
    (x: TreeNode, y: TreeNode) =>
      if x.kind.DirKind? != y.kind.DirKind? then x.kind.DirKind? else Less(x.name, y.name)
  }

  lemma ListingIsOrdered()
    ensures StrictOrder(ListedBefore())
  {
    forall x: TreeNode {
      LessIrreflexive(x.name);
    }
    forall x: TreeNode, y: TreeNode, z: TreeNode | ListedBefore()(x, y) && ListedBefore()(y, z)
      ensures ListedBefore()(x, z)
    {
      if Less(x.name, y.name) && Less(y.name, z.name) {
        LessTransitive(x.name, y.name, z.name);
      }
    }
  }

  method CollectNodes(prefix: string, entries: seq<Entry>) returns (nodes: map<string, TreeNode>)
    ensures nodes == Tree(prefix, entries)
  {
    nodes := map[];
    for i := 0 to |entries|
      invariant nodes == Tree(prefix, entries[..i])
    {
      TreeNext(prefix, entries, i);
      var e := entries[i];
      var p := TrimLeft(e.path);
      if prefix != "" && !(prefix + "/" <= p) {
        continue;
      }
      if prefix != "" {
        p := p[|prefix| + 1..];
      }
      if p == "" {
        continue;
      }
      var name, isLeaf := SplitName(p);
      var full := if prefix != "" then prefix + "/" + name else name;
      if isLeaf {
        nodes := nodes[name := TreeNode(name, full, e.kind, e.size, Seconds(e.mtime))];
      } else if name !in nodes {
        nodes := nodes[name := TreeNode(name, full, DirKind, 0, 0)];
      }
    }
    assert entries[..|entries|] == entries;
  }

  method SplitName(p: string) returns (name: string, isLeaf: bool)
    ensures isLeaf <==> '/' !in p
    ensures name == if isLeaf then p else FirstName(p)
  {
    var i := 0;
    while i < |p| && p[i] != '/'
      invariant 0 <= i <= |p| && '/' !in p[..i]
      invariant FirstName(p) == p[..i] + FirstName(p[i..])
    {
      assert p[i..][1..] == p[i + 1..];
      i := i + 1;
    }
    if i < |p| {
      return p[..i], false;
    }
    assert p[..i] == p;
    return p, true;
  }

  // ---------- what the nodes are ----------

  lemma {:induction false} FirstNameIs(p: string)
    ensures FirstName(p) <= p && '/' !in FirstName(p)
    ensures FirstName(p) == p <==> '/' !in p
    ensures |FirstName(p)| < |p| ==> p[|FirstName(p)|] == '/'
  {
    if p != "" && p[0] != '/' {
      FirstNameIs(p[1..]);
      assert p == [p[0]] + p[1..];
    }
  }

  /** A name is a path's first name exactly when the path is the name or below it. */
  lemma FirstNameIff(p: string, name: string)
    requires '/' !in name
    ensures FirstName(p) == name <==> p == name || name + "/" <= p
  {
    FirstNameIs(p);
    assert forall k :: 0 <= k < |name| ==> name[k] != '/';
    assert forall k :: 0 <= k < |FirstName(p)| ==> FirstName(p)[k] != '/';
    assert name + "/" <= p ==> p[|name|] == (name + "/")[|name|] == '/';
    assert name + "/" <= p ==> name == p[..|name|];
  }

  predicate Shows(prefix: string, e: Entry, name: string) {
    Rest(prefix, e.path) != "" && FirstName(Rest(prefix, e.path)) == name
  }

  predicate IsLeafOf(prefix: string, e: Entry, name: string) {
    Shows(prefix, e, name) && Rest(prefix, e.path) == name
  }

  ghost predicate UniquePaths(entries: seq<Entry>) {
    forall i, j :: 0 <= i < j < |entries| ==> TrimLeft(entries[i].path) != TrimLeft(entries[j].path)
  }

  ghost predicate Listed(prefix: string, entries: seq<Entry>, name: string) {
    exists e :: e in entries && Shows(prefix, e, name)
  }

  ghost predicate HasLeaf(prefix: string, entries: seq<Entry>, name: string) {
    exists e :: e in entries && IsLeafOf(prefix, e, name)
  }

  /** A name is listed exactly when some entry is at or below it; it is that entry's
      own node if there is one, and an implied directory otherwise. */
  ghost predicate NameExplained(prefix: string, entries: seq<Entry>, nodes: map<string, TreeNode>, name: string) {
    && (name in nodes <==> Listed(prefix, entries, name))
    && (name in nodes ==> forall e :: e in entries && IsLeafOf(prefix, e, name) ==> nodes[name] == Leaf(prefix, e))
    && (name in nodes && !HasLeaf(prefix, entries, name) ==> nodes[name] == Implied(prefix, name))
  }

  ghost predicate Explained(prefix: string, entries: seq<Entry>, nodes: map<string, TreeNode>) {
    forall name :: NameExplained(prefix, entries, nodes, name)
  }

  lemma {:induction false} TreeIsExplained(prefix: string, entries: seq<Entry>)
    requires UniquePaths(entries)
    ensures Explained(prefix, entries, Tree(prefix, entries))
  {
    if entries != [] {
      var k := |entries| - 1;
      var rest, e := entries[..k], entries[k];
      TreeIsExplained(prefix, rest);
      assert entries == rest + [e];
      forall x | x in rest && Rest(prefix, x.path) == Rest(prefix, e.path)
        ensures Rest(prefix, e.path) == ""
      {
        if Rest(prefix, e.path) != "" {
          RestIsInjective(prefix, x.path, e.path);
        }
      }
      forall name
        ensures NameExplained(prefix, entries, Tree(prefix, entries), name)
      {
        assert NameExplained(prefix, rest, Tree(prefix, rest), name);
        AddNodeExplains(prefix, rest, Tree(prefix, rest), e, name);
      }
    }
  }

  lemma RestIsInjective(prefix: string, a: string, b: string)
    requires Rest(prefix, a) == Rest(prefix, b) != ""
    ensures TrimLeft(a) == TrimLeft(b)
  {
    if prefix != "" {
      assert TrimLeft(a) == (prefix + "/") + Rest(prefix, a);
      assert TrimLeft(b) == (prefix + "/") + Rest(prefix, b);
    }
  }

  lemma AddNodeExplains(prefix: string, rest: seq<Entry>, nodes: map<string, TreeNode>, e: Entry, name: string)
    requires forall x :: x in rest && Rest(prefix, x.path) == Rest(prefix, e.path) ==> Rest(prefix, e.path) == ""
    requires NameExplained(prefix, rest, nodes, name)
    ensures NameExplained(prefix, rest + [e], AddNode(prefix, nodes, e), name)
  {
    var p, all := Rest(prefix, e.path), rest + [e];
    FirstNameIs(p);
    assert e in all && forall x :: x in all <==> x in rest || x == e;
    assert Listed(prefix, all, name) <==> Listed(prefix, rest, name) || Shows(prefix, e, name);
    assert HasLeaf(prefix, all, name) <==> HasLeaf(prefix, rest, name) || IsLeafOf(prefix, e, name);
  }

  /** An entry directly below the prefix is listed under its name with its own path, kind
      and size, and its time in whole seconds, cut off towards zero. */
  lemma EntryIsShown(prefix: string, entries: seq<Entry>, e: Entry, name: string)
    requires UniquePaths(entries) && e in entries && name != "" && '/' !in name
    requires TrimLeft(e.path) == if prefix == "" then name else prefix + "/" + name
    ensures name in Tree(prefix, entries)
    ensures var n := Tree(prefix, entries)[name];
            && n.name == name && n.path == TrimLeft(e.path) && n.kind == e.kind && n.size == e.size
            && (e.mtime >= 0 ==> 0 <= e.mtime - n.mtime * 1000000000 < 1000000000)
            && (e.mtime <= 0 ==> 0 <= n.mtime * 1000000000 - e.mtime < 1000000000)
  {
    TreeIsExplained(prefix, entries);
    RestIs(prefix, e.path, name);
    SecondsIs(e.mtime);
    FirstNameIs(name);
    assert IsLeafOf(prefix, e, name);
    assert NameExplained(prefix, entries, Tree(prefix, entries), name);
  }

  lemma RestIs(prefix: string, path: string, name: string)
    requires name != ""
    ensures Rest(prefix, path) == name <==>
            TrimLeft(path) == if prefix == "" then name else prefix + "/" + name
  {
    var p, pre := TrimLeft(path), prefix + "/";
    if prefix != "" && pre <= p {
      assert p == pre + p[|pre|..];
    }
    if prefix != "" && p == pre + name {
      assert pre <= p && p[|pre|..] == name;
    }
  }

  lemma SecondsIs(nanos: int)
    ensures nanos >= 0 ==> 0 <= nanos - Seconds(nanos) * 1000000000 < 1000000000
    ensures nanos <= 0 ==> 0 <= Seconds(nanos) * 1000000000 - nanos < 1000000000
  {
  }

  /** A name that only deeper entries have is listed as a directory with no size or time. */
  lemma ImpliedIsShown(prefix: string, entries: seq<Entry>, name: string)
    requires UniquePaths(entries) && name in Tree(prefix, entries) && name != ""
    requires forall e :: e in entries ==> TrimLeft(e.path) != if prefix == "" then name else prefix + "/" + name
    ensures var n := Tree(prefix, entries)[name];
            && n.name == name && n.kind == DirKind && n.size == 0 && n.mtime == 0
            && n.path == if prefix == "" then name else prefix + "/" + name
  {
    TreeIsExplained(prefix, entries);
    assert NameExplained(prefix, entries, Tree(prefix, entries), name);
    forall e | e in entries
      ensures !IsLeafOf(prefix, e, name)
    {
      RestIs(prefix, e.path, name);
    }
  }

  /** With unique paths the listing does not depend on the manifest's order. */
  lemma TreeIgnoresOrder(prefix: string, a: seq<Entry>, b: seq<Entry>)
    requires UniquePaths(a) && UniquePaths(b) && forall e :: e in a <==> e in b
    ensures Tree(prefix, a) == Tree(prefix, b)
  {
    TreeIsExplained(prefix, a);
    TreeIsExplained(prefix, b);
    var x, y := Tree(prefix, a), Tree(prefix, b);
    forall name
      ensures name in x <==> name in y
      ensures name in x ==> x[name] == y[name]
    {
      assert NameExplained(prefix, a, x, name) && NameExplained(prefix, b, y, name);
      SameListing(prefix, a, b, x, y, name);
    }
    assert x.Keys == y.Keys;
    assert x == y;
  }

  lemma SameListing(
      prefix: string, a: seq<Entry>, b: seq<Entry>, x: map<string, TreeNode>, y: map<string, TreeNode>, name: string)
    requires NameExplained(prefix, a, x, name) && NameExplained(prefix, b, y, name)
    requires forall e :: e in a <==> e in b
    ensures (name in x <==> name in y) && (name in x ==> x[name] == y[name])
  {
    assert Listed(prefix, a, name) <==> Listed(prefix, b, name);
    if HasLeaf(prefix, a, name) {
      var e :| e in a && IsLeafOf(prefix, e, name);
      assert e in b;
    }
  }

  // ---------- the children partition what is below ----------

  /** No empty names inside or at the end. */
  predicate Plain(path: string) {
    var p := TrimLeft(path);
    && (p != "" ==> p[|p| - 1] != '/')
    && forall i :: 0 < i < |p| ==> !(p[i - 1] == '/' && p[i] == '/')
  }

  lemma {:induction false} TrimLeftIs(s: string)
    ensures TrimLeft(s) != "" ==> TrimLeft(s)[0] != '/'
    ensures s != "" && s[0] != '/' ==> TrimLeft(s) == s
  {
    if s != "" && s[0] == '/' {
      TrimLeftIs(s[1..]);
    }
  }

  lemma {:induction false} TrimRightIs(s: string)
    ensures TrimRight(s) <= s && (TrimRight(s) != "" ==> TrimRight(s)[|TrimRight(s)| - 1] != '/')
    ensures s != "" && s[|s| - 1] != '/' ==> TrimRight(s) == s
  {
    if s != "" && s[|s| - 1] == '/' {
      TrimRightIs(s[..|s| - 1]);
    }
  }

  lemma TrimmedIs(raw: string)
    ensures var t := TrimSlashes(raw); t != "" ==> t[0] != '/' && t[|t| - 1] != '/'
    ensures TrimSlashes(TrimSlashes(raw)) == TrimSlashes(raw) && TrimLeft(TrimSlashes(raw)) == TrimSlashes(raw)
  {
    TrimLeftIs(raw);
    TrimRightIs(TrimLeft(raw));
    TrimLeftIs(TrimSlashes(raw));
    TrimRightIs(TrimSlashes(raw));
  }

  lemma RestStartsWithName(prefix: string, path: string)
    requires Plain(path)
    ensures Rest(prefix, path) != "" ==> Rest(prefix, path)[0] != '/' && FirstName(Rest(prefix, path)) != ""
  {
    var p := TrimLeft(path);
    TrimLeftIs(path);
    if prefix != "" && prefix + "/" <= p && |p| > |prefix| + 1 {
      assert p[|prefix|] == '/';
      assert p[|prefix| + 1] != '/';
    }
  }

  /** An entry is under a child's path exactly when the child is its first name. */
  lemma UnderChildIff(prefix: string, name: string, path: string)
    requires prefix == TrimSlashes(prefix) && '/' !in name && name != ""
    ensures UnderPrefix(path, [Full(prefix, name)])
       <==> Rest(prefix, path) != "" && FirstName(Rest(prefix, path)) == name
  {
    var full, p, r := Full(prefix, name), TrimLeft(path), Rest(prefix, path);
    TrimmedIs(prefix);
    TrimLeftIs(full);
    TrimRightIs(full);
    assert full[0] != '/' && full[|full| - 1] != '/';
    assert TrimSlashes(full) == full;
    assert [full][0] == full;
    assert UnderPrefix(path, [full]) <==> p == full || full + "/" <= p;
    FirstNameIff(r, name);
    if prefix != "" {
      var pre := prefix + "/";
      assert full == pre + name && full + "/" == pre + (name + "/");
      if pre <= p {
        assert p == pre + r;
        assert p == full <==> r == name;
        assert full + "/" <= p <==> name + "/" <= r;
      }
      assert pre <= full;
    }
  }

  /** Entries strictly below the prefix are each under exactly one listed child, and
      every entry under a listed child is strictly below the prefix. */
  lemma ChildrenPartition(raw: string, entries: seq<Entry>, e: Entry)
    requires UniquePaths(entries) && (forall x :: x in entries ==> Plain(x.path)) && e in entries
    ensures var prefix := TrimSlashes(raw);
            var nodes := Tree(prefix, entries);
            && (Rest(prefix, e.path) != "" ==>
                  && FirstName(Rest(prefix, e.path)) in nodes
                  && forall name :: name in nodes ==>
                       (UnderPrefix(e.path, [nodes[name].path]) <==> name == FirstName(Rest(prefix, e.path))))
            && (Rest(prefix, e.path) == "" ==>
                  forall name :: name in nodes ==> !UnderPrefix(e.path, [nodes[name].path]))
  {
    var prefix := TrimSlashes(raw);
    var nodes := Tree(prefix, entries);
    TrimmedIs(raw);
    TreeIsExplained(prefix, entries);
    if Rest(prefix, e.path) != "" {
      assert Shows(prefix, e, FirstName(Rest(prefix, e.path)));
      assert NameExplained(prefix, entries, nodes, FirstName(Rest(prefix, e.path)));
    }
    forall name | name in nodes
      ensures UnderPrefix(e.path, [nodes[name].path])
         <==> Rest(prefix, e.path) != "" && FirstName(Rest(prefix, e.path)) == name
    {
      NodeHasItsPath(prefix, entries, name);
      UnderChildIff(prefix, name, e.path);
    }
  }

  lemma NodeHasItsPath(prefix: string, entries: seq<Entry>, name: string)
    requires Explained(prefix, entries, Tree(prefix, entries)) && name in Tree(prefix, entries)
    requires forall x :: x in entries ==> Plain(x.path)
    ensures Tree(prefix, entries)[name].path == Full(prefix, name) && '/' !in name && name != ""
  {
    var nodes := Tree(prefix, entries);
    assert NameExplained(prefix, entries, nodes, name);
    var x :| x in entries && Shows(prefix, x, name);
    FirstNameIs(Rest(prefix, x.path));
    RestStartsWithName(prefix, x.path);
    if e :| e in entries && IsLeafOf(prefix, e, name) {
      assert nodes[name] == Leaf(prefix, e);
    }
  }

  // ---------- browsing against restoring ----------

  /** The agent's filter is the server's filter after trimming white space. */
  lemma MatchIsUnderTrimmed(trim: string -> string, path: string, prefixes: seq<string>, trimmed: seq<string>)
    requires |trimmed| == |prefixes| && forall i :: 0 <= i < |prefixes| ==> trimmed[i] == trim(prefixes[i])
    ensures Restore.RestoreMatch(trim, path, prefixes) <==> UnderPrefix(path, trimmed)
  {
    if i :| 0 <= i < |prefixes| && Restore.PrefixMatches(TrimLeft(path), TrimSlashes(trim(prefixes[i]))) {
      assert Restore.PrefixMatches(TrimLeft(path), TrimSlashes(trimmed[i]));
    }
    if i :| 0 <= i < |prefixes| && Restore.PrefixMatches(TrimLeft(path), TrimSlashes(trimmed[i])) {
      assert Restore.PrefixMatches(TrimLeft(path), TrimSlashes(trim(prefixes[i])));
    }
  }

  /** For one prefix the two filters agree on every path exactly when trimming white
      space makes no difference to it, slashes aside. */
  lemma SelectionsAgreeIff(trim: string -> string, pre: string)
    ensures (forall path :: Restore.RestoreMatch(trim, path, [pre]) <==> UnderPrefix(path, [pre]))
        <==> TrimSlashes(trim(pre)) == TrimSlashes(pre)
  {
    var x, y := TrimSlashes(pre), TrimSlashes(trim(pre));
    TrimmedIs(pre);
    TrimmedIs(trim(pre));
    assert [pre][0] == pre;
    forall path
      ensures Restore.RestoreMatch(trim, path, [pre]) <==> Restore.PrefixMatches(TrimLeft(path), y)
      ensures UnderPrefix(path, [pre]) <==> Restore.PrefixMatches(TrimLeft(path), x)
    {
    }
    if x != y {
      var other := if x == "" then y + "0" else if y == "" then x + "0"
                   else if Restore.PrefixMatches(x, y) then y else x;
      TrimLeftIs(other);
      assert (x + "0")[|x|] != (x + "/")[|x|] && (y + "0")[|y|] != (y + "/")[|y|];
      assert Restore.RestoreMatch(trim, other, [pre]) != UnderPrefix(other, [pre]);
    }
  }

  /** A file whose name ends in a space can be picked in the browser, and a restore of
      that pick does not match it. */
  lemma TrailingSpaceIsMissed(trim: string -> string)
    requires trim("r/a ") == "r/a"
    ensures UnderPrefix("/r/a ", ["r/a "]) && !Restore.RestoreMatch(trim, "/r/a ", ["r/a "])
  {
    assert TrimLeft("/r/a ") == TrimLeft("r/a ") == "r/a ";
    assert TrimSlashes("r/a ") == "r/a " && TrimSlashes("r/a") == "r/a";
    assert ["r/a "][0] == "r/a ";
    assert ("r/a" + "/")[3] != "r/a "[3];
  }
}
