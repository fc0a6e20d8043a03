/** Two directory walks over the same tree: Go's filepath.WalkDir, as the Unix
    walkBackup wraps it, and the hand-written walkBackupEntry of the Windows agent. */
module Walk {
  import opened Basics
  import opened FileTree

  /** What a callback may return. */
  datatype Verdict = Continue | SkipDir | SkipAll | Fail

  /** Callback: state, path, info (None when there is none), whether an error is
      being reported; it returns the new state and its verdict. */
  type Visitor<!S> = (S, string, Option<Node>, bool) -> (S, Verdict)

  // ---------- filepath.WalkDir ----------

  function WalkDir<S>(fn: Visitor<S>, s: S, path: string, n: Node): (S, Verdict)
    decreases n, 1
  {
    if n.Gone? then WalkGone(fn, s, path, n)
    else
      var (s1, v) := fn(s, path, Some(n), false);
      if v != Continue || !n.Dir? then (s1, if v == SkipDir && IsDir(n) then Continue else v)
      else
        var (s2, v2) := if n.readFails then fn(s1, path, None, true) else (s1, Continue);
        if v2 != Continue then (s2, if v2 == SkipDir then Continue else v2)
        else WalkChildren(fn, s2, path, n.children)
  }

  /** d.Info fails; what was listed as a directory is then read all the same, which
      fails too. */
  function WalkGone<S>(fn: Visitor<S>, s: S, path: string, n: Node): (S, Verdict) {
    var (s1, v) := fn(s, path, None, true);
    if v != Continue || !IsDir(n) then (s1, if v == SkipDir && IsDir(n) then Continue else v)
    else
      var (s2, v2) := fn(s1, path, None, true);
      (s2, if v2 == SkipDir then Continue else v2)
  }

  /** SkipDir from a non-directory ends its parent's list and nothing more. */
  function WalkChildren<S>(fn: Visitor<S>, s: S, path: string, cs: seq<Child>): (S, Verdict)
    decreases cs, 0
  {
    if cs == [] then (s, Continue)
    else
      var (s1, v) := WalkDir(fn, s, Join(path, cs[0].name), cs[0].node);
      if v == SkipDir then (s1, Continue)
      else if v != Continue then (s1, v)
      else WalkChildren(fn, s1, path, cs[1..])
  }

  /** The Unix walkBackup; None is a root that cannot be examined. */
  function UnixWalk<S>(fn: Visitor<S>, s: S, root: string, n: Option<Node>): (S, Verdict) {
    var (s1, v) := if n.None? then fn(s, root, None, true) else WalkDir(fn, s, root, n.value);
    (s1, if v == SkipDir || v == SkipAll then Continue else v)
  }

  // ---------- walkBackupEntry ----------

  function WalkEntry<S>(fn: Visitor<S>, s: S, path: string, n: Node): (S, Verdict)
    decreases n, 1
  {
    var (s1, v) := fn(s, path, Some(n), false);
    if v != Continue then (s1, if v == SkipDir && IsDir(n) then Continue else v)
    else if !n.Dir? then (s1, Continue)
    else
      var (s2, v2) := if n.readFails then fn(s1, path, Some(n), true) else (s1, Continue);
      if v2 != Continue then (s2, v2) else WalkEntries(fn, s2, path, n.children)
  }

  function WalkEntries<S>(fn: Visitor<S>, s: S, path: string, cs: seq<Child>): (S, Verdict)
    decreases cs, 0
  {
    if cs == [] then (s, Continue)
    else
      var (s1, v) := WalkEntry(fn, s, Join(path, cs[0].name), cs[0].node);
      if v != Continue then (s1, v) else WalkEntries(fn, s1, path, cs[1..])
  }

  /** The Windows walkBackup: the callback's result for an unreadable root is
      returned as it is. */
  function WindowsWalk<S>(fn: Visitor<S>, s: S, root: string, n: Option<Node>): (S, Verdict) {
    if n.None? then fn(s, root, None, true)
    else
      var (s1, v) := WalkEntry(fn, s, root, n.value);
      (s1, if v == SkipDir || v == SkipAll then Continue else v)
  }

  // ---------- what an answer does ----------

  /** What is no directory takes one call, and its answer goes back as it is. */
  lemma LeafIsOneCall<S>(fn: Visitor<S>, s: S, path: string, n: Node)
    requires !IsDir(n)
    ensures WalkDir(fn, s, path, n) == if n.Gone? then fn(s, path, None, true) else fn(s, path, Some(n), false)
    ensures WalkEntry(fn, s, path, n) == fn(s, path, Some(n), false)
  {
  }

  /** An answer about a directory other than to go on: SkipDir leaves out what is in it and
      the walk goes on, anything else is passed up. */
  lemma DirectoryAnswer<S>(fn: Visitor<S>, s: S, path: string, n: Node)
    requires IsDir(n) && !n.Gone? && fn(s, path, Some(n), false).1 != Continue
    ensures var (t, v) := fn(s, path, Some(n), false);
            && WalkDir(fn, s, path, n) == (t, if v == SkipDir then Continue else v)
            && WalkEntry(fn, s, path, n) == (t, if v == SkipDir then Continue else v)
  {
  }

  /** Where the walks part: for a directory that fails to list, SkipDir as the answer to the
      error leaves out what is in it in WalkDir, but is passed up by walkBackupEntry and so
      ends the listing above, and with it the whole walk. */
  lemma ErrorAnswer<S>(fn: Visitor<S>, s: S, path: string, n: Node)
    requires n.Dir? && n.readFails && fn(s, path, Some(n), false).1 == Continue
    ensures var (t, v) := fn(fn(s, path, Some(n), false).0, path, None, true);
            v != Continue ==> WalkDir(fn, s, path, n) == (t, if v == SkipDir then Continue else v)
    ensures var (t, v) := fn(fn(s, path, Some(n), false).0, path, Some(n), true);
            v != Continue ==> WalkEntry(fn, s, path, n) == (t, v)
  {
  }

  // ---------- when they agree ----------

  /** A callback that answers SkipDir only for a directory. */
  ghost predicate SkipsDirsOnly<S(!new)>(fn: Visitor<S>) {
    forall s, path, n, err :: fn(s, path, Some(n), err).1 == SkipDir ==> IsDir(n)
  }

  lemma {:induction false} EntryAgrees<S(!new)>(fn: Visitor<S>, s: S, path: string, n: Node)
    requires SkipsDirsOnly(fn) && ReadsWell(n)
    ensures WalkEntry(fn, s, path, n) == WalkDir(fn, s, path, n)
    ensures WalkDir(fn, s, path, n).1 != SkipDir
    decreases n, 1
  {
    var (s1, v) := fn(s, path, Some(n), false);
    if v == Continue && n.Dir? {
      EntriesAgree(fn, s1, path, n.children);
    }
  }

  lemma {:induction false} EntriesAgree<S(!new)>(fn: Visitor<S>, s: S, path: string, cs: seq<Child>)
    requires SkipsDirsOnly(fn) && ReadsWellAll(cs)
    ensures WalkEntries(fn, s, path, cs) == WalkChildren(fn, s, path, cs)
    ensures WalkChildren(fn, s, path, cs).1 != SkipDir
    decreases cs, 0
  {
    if cs != [] {
      EntryAgrees(fn, s, Join(path, cs[0].name), cs[0].node);
      var (s1, v) := WalkDir(fn, s, Join(path, cs[0].name), cs[0].node);
      if v == Continue {
        EntriesAgree(fn, s1, path, cs[1..]);
      }
    }
  }

  /** For every callback that skips only directories and every tree that can be examined
      and listed throughout, the hand-written walk calls it exactly as WalkDir does. */
  lemma WindowsWalkMatchesWalkDir<S(!new)>(fn: Visitor<S>, s: S, root: string, n: Node)
    requires SkipsDirsOnly(fn) && ReadsWell(n)
    ensures WindowsWalk(fn, s, root, Some(n)) == UnixWalk(fn, s, root, Some(n))
  {
    EntryAgrees(fn, s, root, n);
  }
}
