/** What a whole restore guarantees: under any faults, and when nothing fails. */
module RestoreTheorems {
  import opened Basics
  import opened Paths
  import opened Entries
  import opened Restore

  function TargetOf(dir: string, e: Entry): Option<string> {
    RestoreTarget(e.path, dir)
  }

  // ---------- under any faults ----------

  /** Without the overwrite option nothing that exists is changed. */
  lemma {:induction false} NothingOverwritten(w: World, o: Order, s: Progress, entries: seq<Entry>, a: string)
    requires !o.overwrite && a in s.disk
    ensures var s' := AfterEntries(w, o, s, entries); a in s'.disk && s'.disk[a] == s.disk[a]
  {
    if entries != [] {
      var k := |entries| - 1;
      var e := entries[k];
      NothingOverwritten(w, o, s, entries[..k], a);
      var before := AfterEntries(w, o, s, entries[..k]);
      EntryTouches(w, o, before, e);
      if TargetOf(o.dir, e) == Some(a) && e.kind.DirKind? {
        MkdirAllAdds(w, before.disk, a);
      }
    }
  }

  /** A file with the claimed hash was asked to be put there. */
  ghost predicate AskedFor(w: World, dir: string, entries: seq<Entry>, a: string, content: Bytes) {
    exists e :: e in entries && e.kind.FileKind? && TargetOf(dir, e) == Some(a) && w.sha256(content) == e.hash
  }

  /** Every file on the disk was there before, or its content has the hash of an
      entry restored to that place. */
  lemma {:induction false} OnlyVerifiedContent(w: World, o: Order, s: Progress, entries: seq<Entry>, a: string)
    ensures var d := AfterEntries(w, o, s, entries).disk;
            a in d && d[a].FileAt? ==>
              (a in s.disk && s.disk[a] == d[a]) || AskedFor(w, o.dir, entries, a, d[a].content)
  {
    if entries != [] {
      var k := |entries| - 1;
      var e := entries[k];
      OnlyVerifiedContent(w, o, s, entries[..k], a);
      var before, after := AfterEntries(w, o, s, entries[..k]), AfterEntries(w, o, s, entries);
      assert entries == entries[..k] + [e];
      EntryTouches(w, o, before, e);
      if TargetOf(o.dir, e) == Some(a) && a in after.disk && after.disk[a].FileAt? {
        SameOrWritten(w, o, before, e, a);
        var content := after.disk[a].content;
        if after.disk[a] == FileAt(content, Stamp(w, e)) && e.kind.FileKind? && w.sha256(content) == e.hash {
          assert e in entries;
        }
      }
      if a in before.disk && before.disk[a].FileAt? && AskedFor(w, o.dir, entries[..k], a, before.disk[a].content) {
        assert AskedFor(w, o.dir, entries, a, before.disk[a].content);
      }
    }
  }

  lemma SameOrWritten(w: World, o: Order, s: Progress, e: Entry, a: string)
    requires TargetOf(o.dir, e) == Some(a)
    ensures var d := AfterEntry(w, o, s, e).disk;
            a in d && d[a].FileAt? ==>
              (a in s.disk && d[a] == s.disk[a]) || (e.kind.FileKind? && w.sha256(d[a].content) == e.hash)
  {
    MkdirAllAdds(w, s.disk, if e.kind.DirKind? then a else Parent(a));
    MkdirAllAdds(w, Removed(s.disk, a), Parent(a));
  }

  /** Everything stands in a directory. */
  ghost predicate TreeShaped(disk: Disk) {
    forall a :: a in disk && !Top(a) ==> IsDirectory(disk, Parent(a))
  }

  lemma {:induction false} MkdirKeepsTree(w: World, disk: Disk, path: string)
    requires TreeShaped(disk)
    ensures TreeShaped(MkdirAll(w, disk, path).0)
    decreases |path|
  {
    if !Exists(disk, path) {
      MkdirKeepsTree(w, disk, Parent(path));
      MkdirAllAdds(w, disk, Parent(path));
    }
  }

  lemma RemovedKeepsTree(disk: Disk, path: string)
    requires TreeShaped(disk)
    ensures TreeShaped(Removed(disk, path))
  {
  }

  /** Putting a file or a link where no directory is. */
  lemma PlacedKeepsTree(disk: Disk, t: string, thing: Thing)
    requires TreeShaped(disk) && IsDirectory(disk, Parent(t)) && !IsDirectory(disk, t) && !Top(t)
    ensures TreeShaped(disk[t := thing])
  {
    assert |Parent(t)| < |t|;
  }

  lemma FileKeepsTree(w: World, disk: Disk, e: Entry, t: string, overwrite: bool)
    requires TreeShaped(disk)
    ensures TreeShaped(AfterFile(w, disk, e, t, overwrite).0)
  {
    var (d, ok) := MkdirAll(w, disk, Parent(t));
    MkdirKeepsTree(w, disk, Parent(t));
    MkdirAllAdds(w, disk, Parent(t));
    if ok && w.blob(e.hash).Some? && !IsDirectory(d, t) {
      PlacedKeepsTree(d, t, FileAt(w.blob(e.hash).value, Stamp(w, e)));
    }
  }

  lemma LinkKeepsTree(w: World, disk: Disk, e: Entry, t: string, overwrite: bool)
    requires TreeShaped(disk)
    ensures TreeShaped(AfterLink(w, disk, e, t, overwrite).0)
  {
    var here := if Exists(disk, t) then Removed(disk, t) else disk;
    RemovedKeepsTree(disk, t);
    var (d, ok) := MkdirAll(w, here, Parent(t));
    MkdirKeepsTree(w, here, Parent(t));
    MkdirAllAdds(w, here, Parent(t));
    if ok && !Exists(d, t) {
      PlacedKeepsTree(d, t, LinkAt(e.target));
    }
  }

  lemma EntryKeepsTree(w: World, o: Order, s: Progress, e: Entry)
    requires TreeShaped(s.disk)
    ensures TreeShaped(AfterEntry(w, o, s, e).disk)
  {
    var target := RestoreTarget(e.path, o.dir);
    if target.Some? {
      match e.kind
      case DirKind => MkdirKeepsTree(w, s.disk, target.value);
      case LinkKind => LinkKeepsTree(w, s.disk, e, target.value, o.overwrite);
      case FileKind => FileKeepsTree(w, s.disk, e, target.value, o.overwrite);
    }
  }

  /** Whatever fails, and with or without overwriting: on a disk where everything stands in
      a directory a restore leaves nothing that does not. */
  lemma {:induction false} DiskStaysTree(w: World, o: Order, s: Progress, entries: seq<Entry>)
    requires TreeShaped(s.disk)
    ensures TreeShaped(AfterEntries(w, o, s, entries).disk)
  {
    if entries != [] {
      var k := |entries| - 1;
      DiskStaysTree(w, o, s, entries[..k]);
      EntryKeepsTree(w, o, AfterEntries(w, o, s, entries[..k]), entries[k]);
    }
  }

  /** A file that cannot be restored still gets the directories above it, if nothing is in
      their way and they can be made. */
  lemma FailedFileLeavesDirectories(w: World, o: Order, s: Progress, e: Entry, t: string)
    requires e.kind.FileKind? && TargetOf(o.dir, e) == Some(t) && (t in s.disk ==> o.overwrite) && !Top(t)
    requires forall a :: Above(a, t) ==> !w.fails(a) && (a in s.disk ==> s.disk[a].DirAt?)
    ensures IsDirectory(AfterEntry(w, o, s, e).disk, Parent(t))
    ensures w.blob(e.hash).None? ==> AfterEntry(w, o, s, e).skipped == s.skipped + 1
  {
    MkdirMakes(w, s.disk, Parent(t));
    assert |Parent(t)| < |t|;
  }

  lemma {:induction false} MkdirMakes(w: World, disk: Disk, path: string)
    requires forall a :: AtOrAbove(a, path) ==> !w.fails(a) && (a in disk ==> disk[a].DirAt?)
    ensures MkdirAll(w, disk, path).1 && IsDirectory(MkdirAll(w, disk, path).0, path)
    decreases |path|
  {
    if !Exists(disk, path) {
      MkdirMakes(w, disk, Parent(path));
    }
  }

  ghost predicate DistinctTargets(dir: string, entries: seq<Entry>) {
    forall i, j :: 0 <= i < j < |entries| && TargetOf(dir, entries[i]).Some? ==>
      TargetOf(dir, entries[i]) != TargetOf(dir, entries[j])
  }

  ghost predicate AllInPlace(w: World, dir: string, disk: Disk, entries: seq<Entry>) {
    forall e :: e in entries && TargetOf(dir, e).Some? ==> InPlace(w, disk, TargetOf(dir, e).value, e)
  }

  /** A restore that reports nothing skipped has put every selected entry in place,
      whatever was on the disk before; each file was written exactly once. */
  lemma {:induction false} SuccessMeansRestored(w: World, o: Order, s: Progress, entries: seq<Entry>)
    requires DistinctTargets(o.dir, entries)
    ensures var s' := AfterEntries(w, o, s, entries);
            && s'.skipped >= s.skipped
            && (s'.skipped == s.skipped ==>
                  && (forall e :: e in entries ==> TargetOf(o.dir, e).Some?)
                  && AllInPlace(w, o.dir, s'.disk, entries)
                  && s'.changed == s.changed + CountFiles(entries))
  {
    if entries != [] {
      var k := |entries| - 1;
      var rest, e := entries[..k], entries[k];
      SuccessMeansRestored(w, o, s, rest);
      var before, after := AfterEntries(w, o, s, rest), AfterEntries(w, o, s, entries);
      EntryTouches(w, o, before, e);
      if after.skipped == s.skipped {
        EarlierStay(w, o, before.disk, after.disk, rest, e);
      }
    }
  }

  lemma EarlierStay(w: World, o: Order, before: Disk, after: Disk, rest: seq<Entry>, e: Entry)
    requires DistinctTargets(o.dir, rest + [e]) && AllInPlace(w, o.dir, before, rest)
    requires TargetOf(o.dir, e).Some? && Touches(before, after, TargetOf(o.dir, e).value)
    requires InPlace(w, after, TargetOf(o.dir, e).value, e)
    ensures AllInPlace(w, o.dir, after, rest + [e])
  {
    forall x | x in rest + [e] && TargetOf(o.dir, x).Some?
      ensures InPlace(w, after, TargetOf(o.dir, x).value, x)
    {
      if x in rest {
        var i :| 0 <= i < |rest| && rest[i] == x;
        assert (rest + [e])[i] == x && (rest + [e])[|rest|] == e;
        assert InPlace(w, before, TargetOf(o.dir, x).value, x);
      }
    }
  }

  // ---------- when nothing fails ----------

  ghost predicate Healthy(w: World, entries: seq<Entry>) {
    && (forall p :: !w.fails(p))
    && forall e :: e in entries && e.kind.FileKind? ==> w.blob(e.hash).Some? && w.sha256(w.blob(e.hash).value) == e.hash
  }

  /** Only directories have something below them. */
  ghost predicate TreeLike(dir: string, entries: seq<Entry>) {
    && DistinctTargets(dir, entries)
    && forall x, y :: x in entries && y in entries && !x.kind.DirKind? && TargetOf(dir, x).Some? ==>
         !Top(TargetOf(dir, x).value)
         && (TargetOf(dir, y).Some? ==> !Above(TargetOf(dir, x).value, TargetOf(dir, y).value))
  }

  /** Nothing is where the entries go, and nothing but directories above that. */
  ghost predicate EmptyFor(disk: Disk, dir: string, entries: seq<Entry>) {
    forall e :: e in entries && TargetOf(dir, e).Some? ==>
      TargetOf(dir, e).value !in disk
      && forall a :: a in disk && Above(a, TargetOf(dir, e).value) ==> disk[a].DirAt?
  }

  ghost predicate IsTarget(dir: string, entries: seq<Entry>, a: string) {
    exists e :: e in entries && TargetOf(dir, e) == Some(a)
  }

  predicate LeadsTo(dir: string, a: string, e: Entry) {
    TargetOf(dir, e).Some? && Above(a, TargetOf(dir, e).value)
  }

  ghost predicate OnTheWay(dir: string, entries: seq<Entry>, a: string) {
    exists e :: e in entries && LeadsTo(dir, a, e)
  }

  /** The entries are in place, what was there is untouched, and what is new besides
      the entries are the directories above them. */
  ghost predicate Reproduced(w: World, dir: string, before: Disk, after: Disk, entries: seq<Entry>) {
    && AllInPlace(w, dir, after, entries)
    && (forall a :: a in before ==> a in after && after[a] == before[a])
    && (forall a :: a in after && a !in before ==>
          !Top(a) && (IsTarget(dir, entries, a) || (after[a] == DirAt && OnTheWay(dir, entries, a))))
  }

  function Rejected(dir: string, entries: seq<Entry>): nat {
    if entries == [] then 0
    else Rejected(dir, entries[..|entries| - 1]) + if TargetOf(dir, entries[|entries| - 1]).None? then 1 else 0
  }

  /** When nothing fails, an empty place ends up with exactly the entries whose target
      is acceptable; only the others are counted as skipped. */
  lemma {:induction false} RestoreReproduces(w: World, o: Order, s: Progress, entries: seq<Entry>)
    requires TreeLike(o.dir, entries) && EmptyFor(s.disk, o.dir, entries) && Healthy(w, entries)
    ensures Reproduced(w, o.dir, s.disk, AfterEntries(w, o, s, entries).disk, entries)
    ensures AfterEntries(w, o, s, entries).skipped == s.skipped + Rejected(o.dir, entries)
  {
    if entries != [] {
      var k := |entries| - 1;
      var rest, e := entries[..k], entries[k];
      assert entries == rest + [e];
      Fewer(w, o, s.disk, rest, e);
      RestoreReproduces(w, o, s, rest);
      var before, after := AfterEntries(w, o, s, rest), AfterEntries(w, o, s, entries);
      if TargetOf(o.dir, e).Some? {
        NothingInTheWay(w, o, s.disk, before.disk, rest, e);
        NotSkipped(w, o, before, e);
        EntryTouches(w, o, before, e);
        EarlierStay(w, o, before.disk, after.disk, rest, e);
        OneMoreReproduced(w, o, s.disk, before.disk, after.disk, rest, e);
      } else {
        OneMoreRejected(w, o, s.disk, before.disk, rest, e);
      }
    }
  }

  lemma Fewer(w: World, o: Order, disk: Disk, rest: seq<Entry>, e: Entry)
    requires TreeLike(o.dir, rest + [e]) && EmptyFor(disk, o.dir, rest + [e]) && Healthy(w, rest + [e])
    ensures TreeLike(o.dir, rest) && EmptyFor(disk, o.dir, rest) && Healthy(w, rest)
  {
    assert forall i :: 0 <= i < |rest| ==> (rest + [e])[i] == rest[i];
    assert forall x :: x in rest ==> x in rest + [e];
  }

  lemma NothingInTheWay(w: World, o: Order, start: Disk, disk: Disk, rest: seq<Entry>, e: Entry)
    requires TreeLike(o.dir, rest + [e]) && EmptyFor(start, o.dir, rest + [e])
    requires Reproduced(w, o.dir, start, disk, rest) && TargetOf(o.dir, e).Some?
    ensures forall a :: a in disk && Above(a, TargetOf(o.dir, e).value) ==> disk[a].DirAt?
    ensures var t := TargetOf(o.dir, e).value; if e.kind.DirKind? then t in disk ==> disk[t].DirAt? else t !in disk
  {
    var t := TargetOf(o.dir, e).value;
    var all := rest + [e];
    assert e in all;
    assert all[|rest|] == e;
    forall a | a in disk && AtOrAbove(a, t)
      ensures disk[a].DirAt? && (!e.kind.DirKind? ==> a != t)
    {
      if a !in start {
        if IsTarget(o.dir, rest, a) {
          var x :| x in rest && TargetOf(o.dir, x) == Some(a);
          assert x in all;
          var i :| 0 <= i < |rest| && rest[i] == x;
          assert all[i] == x && a != t;
        } else {
          var x :| x in rest && LeadsTo(o.dir, a, x);
          assert x in all;
        }
      }
    }
  }

  lemma NotSkipped(w: World, o: Order, s: Progress, e: Entry)
    requires TargetOf(o.dir, e).Some? && Healthy(w, [e])
    requires forall a :: a in s.disk && Above(a, TargetOf(o.dir, e).value) ==> s.disk[a].DirAt?
    requires var t := TargetOf(o.dir, e).value;
             if e.kind.DirKind? then t in s.disk ==> s.disk[t].DirAt? else t !in s.disk && !Top(t)
    ensures AfterEntry(w, o, s, e).skipped == s.skipped
  {
    var t := TargetOf(o.dir, e).value;
    assert e in [e];
    AboveSelf(t);
    if e.kind.DirKind? {
      MkdirAllAdds(w, s.disk, t);
    } else {
      MkdirAllAdds(w, s.disk, Parent(t));
      assert !AtOrAbove(t, Parent(t)) by {
        if Above(t, Parent(t)) {
          AboveIsShorter(t, Parent(t));
        }
      }
    }
  }

  lemma OneMoreReproduced(w: World, o: Order, start: Disk, before: Disk, after: Disk, rest: seq<Entry>, e: Entry)
    requires Reproduced(w, o.dir, start, before, rest) && AllInPlace(w, o.dir, after, rest + [e])
    requires TargetOf(o.dir, e).Some? && Touches(before, after, TargetOf(o.dir, e).value)
    requires TargetOf(o.dir, e).value !in start
    ensures Reproduced(w, o.dir, start, after, rest + [e])
  {
    var all := rest + [e];
    assert e in all && forall x :: x in rest ==> x in all;
    forall a | a in after && a !in start
      ensures IsTarget(o.dir, all, a) || (after[a] == DirAt && OnTheWay(o.dir, all, a))
    {
      if a != TargetOf(o.dir, e).value {
        if a !in before {
          assert LeadsTo(o.dir, a, e);
        } else if IsTarget(o.dir, rest, a) {
          var x :| x in rest && TargetOf(o.dir, x) == Some(a);
          assert x in all;
        } else {
          var x :| x in rest && LeadsTo(o.dir, a, x);
          assert x in all;
        }
      }
    }
  }

  // ---------- over what is there ----------

  /** Where the entries go there is nothing, or what the entry can replace: a directory for
      a directory, a file or link for anything else; and only directories above that. */
  ghost predicate ClearFor(disk: Disk, dir: string, entries: seq<Entry>) {
    forall e :: e in entries && TargetOf(dir, e).Some? ==>
      && var t := TargetOf(dir, e).value;
      && (t in disk ==> (disk[t].DirAt? <==> e.kind.DirKind?))
      && (!e.kind.DirKind? ==> forall a :: a in disk ==> !Above(t, a))
      && forall a :: a in disk && Above(a, t) ==> disk[a].DirAt?
  }

  /** The entries are in place; of what was there, directories and everything that is no
      target are untouched; what is new besides the entries are the directories above them. */
  ghost predicate Replaced(w: World, dir: string, before: Disk, after: Disk, entries: seq<Entry>) {
    && AllInPlace(w, dir, after, entries)
    && (forall a :: a in before && (before[a].DirAt? || !IsTarget(dir, entries, a)) ==>
          a in after && after[a] == before[a])
    && (forall a :: a in after && a !in before ==>
          !Top(a) && (IsTarget(dir, entries, a) || (after[a] == DirAt && OnTheWay(dir, entries, a))))
  }

  /** With the overwrite option and when nothing fails, a restore over what is there puts
      every entry with an acceptable target in place, replacing what is in its place, and
      leaves everything else alone. */
  lemma {:induction false} RestoreReplaces(w: World, o: Order, s: Progress, entries: seq<Entry>)
    requires o.overwrite && TreeLike(o.dir, entries) && ClearFor(s.disk, o.dir, entries) && Healthy(w, entries)
    ensures Replaced(w, o.dir, s.disk, AfterEntries(w, o, s, entries).disk, entries)
    ensures AfterEntries(w, o, s, entries).skipped == s.skipped + Rejected(o.dir, entries)
  {
    if entries != [] {
      var k := |entries| - 1;
      var rest, e := entries[..k], entries[k];
      assert entries == rest + [e];
      FewerClear(w, o, s.disk, rest, e);
      RestoreReplaces(w, o, s, rest);
      var before, after := AfterEntries(w, o, s, rest), AfterEntries(w, o, s, entries);
      if TargetOf(o.dir, e).Some? {
        ClearStays(w, o, s.disk, before.disk, rest, e);
        assert e in entries;
        WrittenOver(w, o, before, e);
        EntryTouches(w, o, before, e);
        EarlierStay(w, o, before.disk, after.disk, rest, e);
        OneMoreReplaced(w, o, s.disk, before.disk, after.disk, rest, e);
      } else {
        OneMorePassedOver(w, o, s.disk, before.disk, rest, e);
      }
    }
  }

  lemma FewerClear(w: World, o: Order, disk: Disk, rest: seq<Entry>, e: Entry)
    requires TreeLike(o.dir, rest + [e]) && ClearFor(disk, o.dir, rest + [e]) && Healthy(w, rest + [e])
    ensures TreeLike(o.dir, rest) && ClearFor(disk, o.dir, rest) && Healthy(w, rest) && Healthy(w, [e])
  {
    assert forall i :: 0 <= i < |rest| ==> (rest + [e])[i] == rest[i];
    assert forall x :: x in rest || x == e ==> x in rest + [e];
  }

  /** What came with the entries before does not stand in the way of the next one. */
  lemma ClearStays(w: World, o: Order, start: Disk, disk: Disk, rest: seq<Entry>, e: Entry)
    requires TreeLike(o.dir, rest + [e]) && ClearFor(start, o.dir, rest + [e])
    requires Replaced(w, o.dir, start, disk, rest) && TargetOf(o.dir, e).Some?
    ensures ClearFor(disk, o.dir, [e])
  {
    var t := TargetOf(o.dir, e).value;
    var all := rest + [e];
    assert e in all && all[|rest|] == e;
    NotTargeted(o.dir, rest, e);
    forall a | a in disk
      ensures AtOrAbove(a, t) && a != t ==> disk[a].DirAt?
      ensures a == t ==> (disk[a].DirAt? <==> e.kind.DirKind?)
      ensures Above(t, a) ==> e.kind.DirKind?
    {
      if a !in start {
        if IsTarget(o.dir, rest, a) {
          var x :| x in rest && TargetOf(o.dir, x) == Some(a);
          assert x in all;
        } else {
          var x :| x in rest && LeadsTo(o.dir, a, x);
          assert x in all;
          if Above(t, a) {
            AboveTransitive(t, a, TargetOf(o.dir, x).value);
          }
        }
      } else if IsTarget(o.dir, rest, a) && !start[a].DirAt? {
        var x :| x in rest && TargetOf(o.dir, x) == Some(a);
        assert x in all;
      }
    }
  }

  lemma NotTargeted(dir: string, rest: seq<Entry>, e: Entry)
    requires DistinctTargets(dir, rest + [e]) && TargetOf(dir, e).Some?
    ensures !IsTarget(dir, rest, TargetOf(dir, e).value)
  {
    if x :| x in rest && TargetOf(dir, x) == TargetOf(dir, e) {
      var i :| 0 <= i < |rest| && rest[i] == x;
      assert (rest + [e])[i] == x && (rest + [e])[|rest|] == e;
    }
  }

  lemma WrittenOver(w: World, o: Order, s: Progress, e: Entry)
    requires o.overwrite && TargetOf(o.dir, e).Some? && Healthy(w, [e]) && ClearFor(s.disk, o.dir, [e])
    requires !e.kind.DirKind? ==> !Top(TargetOf(o.dir, e).value)
    ensures AfterEntry(w, o, s, e).skipped == s.skipped
  {
    var t := TargetOf(o.dir, e).value;
    assert e in [e];
    AboveSelf(t);
    if e.kind.DirKind? {
      MkdirAllAdds(w, s.disk, t);
    } else {
      MkdirAllAdds(w, s.disk, Parent(t));
      MkdirAllAdds(w, s.disk - {t}, Parent(t));
      assert !AtOrAbove(t, Parent(t)) by {
        if Above(t, Parent(t)) {
          AboveIsShorter(t, Parent(t));
        }
      }
    }
  }

  lemma OneMoreReplaced(w: World, o: Order, start: Disk, before: Disk, after: Disk, rest: seq<Entry>, e: Entry)
    requires Replaced(w, o.dir, start, before, rest) && AllInPlace(w, o.dir, after, rest + [e])
    requires TargetOf(o.dir, e).Some? && Touches(before, after, TargetOf(o.dir, e).value)
    requires var t := TargetOf(o.dir, e).value; t in start && start[t].DirAt? ==> t in after && after[t].DirAt?
    ensures Replaced(w, o.dir, start, after, rest + [e])
  {
    var all := rest + [e];
    assert e in all && forall x :: x in rest ==> x in all;
    assert IsTarget(o.dir, all, TargetOf(o.dir, e).value);
    forall a | IsTarget(o.dir, rest, a)
      ensures IsTarget(o.dir, all, a)
    {
      var x :| x in rest && TargetOf(o.dir, x) == Some(a);
      assert x in all;
    }
    forall a | a in after && a !in start
      ensures !Top(a) && (IsTarget(o.dir, all, a) || (after[a] == DirAt && OnTheWay(o.dir, all, a)))
    {
      if a !in before {
        assert a != TargetOf(o.dir, e).value ==> LeadsTo(o.dir, a, e);
      } else if a != TargetOf(o.dir, e).value && !IsTarget(o.dir, rest, a) {
        var x :| x in rest && LeadsTo(o.dir, a, x);
        assert x in all;
      }
    }
  }

  lemma OneMorePassedOver(w: World, o: Order, start: Disk, disk: Disk, rest: seq<Entry>, e: Entry)
    requires Replaced(w, o.dir, start, disk, rest) && TargetOf(o.dir, e).None?
    ensures Replaced(w, o.dir, start, disk, rest + [e])
  {
    var all := rest + [e];
    assert forall x :: x in all <==> x in rest || x == e;
    forall a
      ensures IsTarget(o.dir, all, a) <==> IsTarget(o.dir, rest, a)
      ensures OnTheWay(o.dir, rest, a) ==> OnTheWay(o.dir, all, a)
    {
      if x :| x in rest && TargetOf(o.dir, x) == Some(a) {
        assert x in all;
      }
      if x :| x in rest && LeadsTo(o.dir, a, x) {
        assert x in all;
      }
    }
  }

  lemma OneMoreRejected(w: World, o: Order, start: Disk, disk: Disk, rest: seq<Entry>, e: Entry)
    requires Reproduced(w, o.dir, start, disk, rest) && TargetOf(o.dir, e).None?
    ensures Reproduced(w, o.dir, start, disk, rest + [e])
  {
    var all := rest + [e];
    assert forall x :: x in rest ==> x in all;
    forall a | a in disk && a !in start
      ensures IsTarget(o.dir, all, a) || (disk[a] == DirAt && OnTheWay(o.dir, all, a))
    {
      if IsTarget(o.dir, rest, a) {
        var x :| x in rest && TargetOf(o.dir, x) == Some(a);
        assert x in all;
      } else {
        var x :| x in rest && LeadsTo(o.dir, a, x);
        assert x in all;
      }
    }
  }
}
