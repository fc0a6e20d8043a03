/** Slash paths: parents, ancestors, and re-rooting below a directory. */
module Paths {
  import opened FileTree

  /** A path without its last name: "" or ending in a slash. */
  function Front(path: string): (front: string)
    ensures |front| <= |path|
  {
    if path == "" || path[|path| - 1] == '/' then path else Front(path[..|path| - 1])
  }

  /** Where the chain of parents ends; these always exist. */
  predicate Top(path: string) {
    path == "" || path == "/"
  }

  /** filepath.Dir on clean paths, with "" for the working directory. */
  function Parent(path: string): (parent: string)
    ensures Top(path) || |parent| < |path|
  {
    var front := Front(path);
    if |front| <= 1 then front else front[..|front| - 1]
  }

  predicate Above(a: string, path: string)
    decreases |path|
  {
    !Top(path) && (a == Parent(path) || Above(a, Parent(path)))
  }

  predicate AtOrAbove(a: string, path: string) {
    a == path || Above(a, path)
  }

  lemma {:induction false} AboveIsShorter(a: string, path: string)
    requires Above(a, path)
    ensures |a| < |path|
    decreases |path|
  {
    if a != Parent(path) {
      AboveIsShorter(a, Parent(path));
    }
  }

  lemma {:induction false} AboveTransitive(a: string, b: string, path: string)
    requires AtOrAbove(a, b) && AtOrAbove(b, path)
    ensures AtOrAbove(a, path) && (a != b || b != path ==> Above(a, path))
    decreases |path|
  {
    if b != path {
      AboveTransitive(a, b, Parent(path));
    }
  }

  /** Two ancestors of one path are ordered. */
  lemma {:induction false} AboveIsLinear(a: string, b: string, path: string)
    requires AtOrAbove(a, path) && AtOrAbove(b, path)
    ensures AtOrAbove(a, b) || AtOrAbove(b, a)
    decreases |path|
  {
    if a != path && b != path {
      AboveIsLinear(a, b, Parent(path));
    }
  }

  /** Absolute, without empty names. */
  predicate Clean(path: string) {
    && path != "" && path[0] == '/'
    && (|path| > 1 ==> path[|path| - 1] != '/')
    && forall i :: 0 < i < |path| ==> !(path[i - 1] == '/' && path[i] == '/')
  }

  lemma {:induction false} FrontOf(front: string, name: string)
    requires front != "" && front[|front| - 1] == '/' && '/' !in name
    ensures Front(front + name) == front
  {
    if name == "" {
      assert front + name == front;
    } else {
      assert (front + name)[..|front + name| - 1] == front + name[..|name| - 1];
      FrontOf(front, name[..|name| - 1]);
    }
  }

  lemma ParentOfJoin(path: string, name: string)
    requires Clean(path) && GoodName(name)
    ensures Clean(Join(path, name)) && Parent(Join(path, name)) == path && !Top(Join(path, name))
  {
    var front := if path == "/" then "/" else path + "/";
    FrontOf(front, name);
    assert Join(path, name) == front + name;
    assert name[0] in name && name[|name| - 1] in name;
  }

  /** A clean path moved below a directory ("" moves nothing). */
  function Under(dir: string, path: string): string {
    if dir == "" then path else if path == "/" then dir else dir + path
  }

  lemma {:induction false} FrontIs(dir: string, path: string)
    requires path != "" && path[0] == '/'
    ensures Front(dir + path) == dir + Front(path)
    ensures "/" <= Front(path) <= path && Front(path)[|Front(path)| - 1] == '/'
  {
    assert (dir + path)[|dir + path| - 1] == path[|path| - 1];
    if path[|path| - 1] != '/' {
      assert (dir + path)[..|dir + path| - 1] == dir + path[..|path| - 1];
      FrontIs(dir, path[..|path| - 1]);
    }
  }

  lemma ParentIsClean(path: string)
    requires Clean(path)
    ensures Clean(Parent(path))
  {
    FrontIs("", path);
    var front := Front(path);
    if |front| > 1 {
      assert front[|front| - 2] == path[|front| - 2] && front[|front| - 1] == path[|front| - 1];
    }
  }

  lemma ParentUnder(dir: string, path: string)
    requires Clean(path) && path != "/"
    ensures Parent(Under(dir, path)) == Under(dir, Parent(path)) && Clean(Parent(path))
  {
    ParentIsClean(path);
    FrontIs(dir, path);
    FrontIs("", path);
    var front := Front(path);
    assert dir + path == Under(dir, path) || dir == "";
    if |front| > 1 {
      assert (dir + front)[..|dir + front| - 1] == dir + front[..|front| - 1];
      assert front[..|front| - 1] != "/";
    } else {
      assert front == "/";
      assert (dir + front)[..|dir + front| - 1] == dir;
    }
  }

  /** The ancestors of a moved path are its own ancestors, moved, then those of the
      directory. */
  lemma {:induction false} AboveUnder(dir: string, path: string, a: string) returns (q: string)
    requires Clean(path) && AtOrAbove(a, Under(dir, path))
    ensures (Clean(q) && AtOrAbove(q, path) && a == Under(dir, q)) || (dir != "" && Above(a, dir))
    decreases |path|
  {
    q := path;
    if a != Under(dir, path) && path != "/" {
      ParentUnder(dir, path);
      q := AboveUnder(dir, Parent(path), a);
    }
  }

  lemma {:induction false} UnderKeepsAbove(dir: string, q: string, path: string)
    requires Clean(path) && Above(q, path)
    ensures Above(Under(dir, q), Under(dir, path))
    decreases |path|
  {
    ParentUnder(dir, path);
    if q != Parent(path) {
      UnderKeepsAbove(dir, q, Parent(path));
    }
    assert !Top(Under(dir, path));
  }

  // ---------- trimming ----------

  function TrimLeft(s: string): string {
    if s != "" && s[0] == '/' then TrimLeft(s[1..]) else s
  }

  function TrimRight(s: string): string {
    if s != "" && s[|s| - 1] == '/' then TrimRight(s[..|s| - 1]) else s
  }

  /** strings.Trim(s, "/") */
  function TrimSlashes(s: string): string {
    TrimRight(TrimLeft(s))
  }
}
