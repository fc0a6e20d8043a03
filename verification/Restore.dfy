/** Restoring a snapshot: which entries, where to, and what a disk looks like
    afterwards, with or without faults. */
module Restore {
  import opened Basics
  import opened FileTree
  import opened Paths
  import opened Entries

  // ---------- which entries, and where to ----------

  /** `trim` is strings.TrimSpace. */
  predicate RestoreMatch(trim: string -> string, path: string, prefixes: seq<string>) {
    || prefixes == []
    || exists i :: 0 <= i < |prefixes| && PrefixMatches(TrimLeft(path), TrimSlashes(trim(prefixes[i])))
  }

  predicate PrefixMatches(p: string, pre: string) {
    pre == "" || p == pre || pre + "/" <= p
  }

  function WithoutColons(s: string): string {
    if s == "" then ""
    else WithoutColons(s[..|s| - 1]) + if s[|s| - 1] == ':' then "" else [s[|s| - 1]]
  }

  /** The colons go, and nothing else. */
  lemma {:induction false} WithoutColonsIs(a: string, b: string)
    ensures WithoutColons(a + b) == WithoutColons(a) + WithoutColons(b)
  {
    if b == "" {
      assert a + b == a;
    } else {
      var k := |b| - 1;
      WithoutColonsIs(a, b[..k]);
      assert (a + b)[..|a + b| - 1] == a + b[..k];
    }
  }

  lemma OneCharacter(c: char)
    ensures WithoutColons([c]) == if c == ':' then "" else [c]
  {
    assert [c][..0] == "";
  }

  predicate HasDots(s: string) {
    exists i :: 0 < i < |s| && s[i - 1] == '.' && s[i] == '.'
  }

  /** restoreTarget on slash paths; None is "unsafe path in manifest". */
  function RestoreTarget(path: string, dir: string): Option<string> {
    if dir == "" then Some(path)
    else
      var rel := WithoutColons(TrimLeft(path));
      if rel == "" || HasDots(rel) then None else Some(Join(dir, rel))
  }

  // ---------- the disk ----------

  datatype Thing = FileAt(content: Bytes, mtime: int) | DirAt | LinkAt(target: string)
  type Disk = map<string, Thing>

  /** `blob` is getBlob and decompression, `fails(p)` that creating p fails, `now`
      the modification time of a file that is not given one. */
  datatype World = World(blob: string -> Option<Bytes>, sha256: Bytes -> string, fails: string -> bool, now: int)

  datatype Order = Order(dir: string, overwrite: bool)

  datatype Progress = Progress(disk: Disk, changed: int, skipped: int, written: int)

  predicate Exists(disk: Disk, path: string) {
    Top(path) || path in disk
  }

  predicate IsDirectory(disk: Disk, path: string) {
    Top(path) || (path in disk && disk[path].DirAt?)
  }

  /** os.MkdirAll: parents first; what was made stays when a later step fails. */
  function MkdirAll(w: World, disk: Disk, path: string): (Disk, bool)
    decreases |path|
  {
    if Exists(disk, path) then (disk, IsDirectory(disk, path))
    else
      var (d, ok) := MkdirAll(w, disk, Parent(path));
      if !ok || w.fails(path) then (d, false) else (d[path := DirAt], true)
  }

  /** os.Remove: not a directory with something in it. */
  function Removed(disk: Disk, path: string): Disk {
    if exists a :: a in disk && Above(path, a) then disk else disk - {path}
  }

  datatype FileResult = Wrote(bytes: nat) | Kept | Failed

  function Stamp(w: World, e: Entry): int {
    if e.mtime != 0 then e.mtime else w.now
  }

  function AfterFile(w: World, disk: Disk, e: Entry, target: string, overwrite: bool): (Disk, FileResult) {
    if Exists(disk, target) && !overwrite then (disk, Kept)
    else
      var (d, ok) := MkdirAll(w, disk, Parent(target));
      if ok && w.blob(e.hash).Some? && w.sha256(w.blob(e.hash).value) == e.hash
         && !w.fails(target) && !IsDirectory(d, target)
      then (d[target := FileAt(w.blob(e.hash).value, Stamp(w, e))], Wrote(|w.blob(e.hash).value|))
      else (d, Failed)
  }

  function AfterLink(w: World, disk: Disk, e: Entry, target: string, overwrite: bool): (Disk, bool) {
    if Exists(disk, target) && !overwrite then (disk, false)
    else
      var (d, ok) := MkdirAll(w, if Exists(disk, target) then Removed(disk, target) else disk, Parent(target));
      if ok && !Exists(d, target) && !w.fails(target) then (d[target := LinkAt(e.target)], true) else (d, false)
  }

  /** What one entry does. */
  function AfterEntry(w: World, o: Order, s: Progress, e: Entry): Progress {
    var target := RestoreTarget(e.path, o.dir);
    if target.None? then s.(skipped := s.skipped + 1)
    else
      match e.kind
      case DirKind =>
        var (d, ok) := MkdirAll(w, s.disk, target.value);
        s.(disk := d, skipped := s.skipped + if ok then 0 else 1)
      case LinkKind =>
        var (d, ok) := AfterLink(w, s.disk, e, target.value, o.overwrite);
        s.(disk := d, skipped := s.skipped + if ok then 0 else 1)
      case FileKind =>
        var (d, r) := AfterFile(w, s.disk, e, target.value, o.overwrite);
        if r.Wrote? then Progress(d, s.changed + 1, s.skipped, s.written + r.bytes)
        else s.(disk := d, skipped := s.skipped + 1)
  }

  function AfterEntries(w: World, o: Order, s: Progress, entries: seq<Entry>): Progress {
    if entries == [] then s
    else AfterEntry(w, o, AfterEntries(w, o, s, entries[..|entries| - 1]), entries[|entries| - 1])
  }

  // ---------- the code ----------

  datatype RestoreResult =
    | NoManifest
    | NothingMatches
    | Cancelled(total: int, bytes: int)
    | Finished(total: int, bytes: int)

  /** The first pass: the matching entries and their totals. */
  method Collect(trim: string -> string, paths: seq<string>, manifest: seq<Entry>)
    returns (entries: seq<Entry>, total: int, bytes: int)
    ensures entries == Selected(trim, paths, manifest)
    ensures total == CountFiles(entries) && bytes == SumSizes(entries)
  {
    entries, total, bytes := [], 0, 0;
    for i := 0 to |manifest|
      invariant entries == Selected(trim, paths, manifest[..i])
      invariant total == CountFiles(entries) && bytes == SumSizes(entries)
    {
      var e := manifest[i];
      KeepIfNext(manifest, i, Matching(trim, paths));
      KeepIfAppend(entries, e, Matching(trim, paths));
      if RestoreMatch(trim, e.path, paths) {
        entries := entries + [e];
        if e.kind.FileKind? {
          total, bytes := total + 1, bytes + e.size;
        }
      }
    }
    assert manifest[..|manifest|] == manifest;
  }

  lemma AfterOneMore(w: World, o: Order, s: Progress, entries: seq<Entry>, e: Entry)
    ensures AfterEntries(w, o, s, entries + [e]) == AfterEntry(w, o, AfterEntries(w, o, s, entries), e)
  {
    assert (entries + [e])[..|entries|] == entries;
  }

  class Restorer {
    var disk: Disk
    var changed: int
    var skipped: int
    var written: int

    ghost function State(): Progress
      reads this
    {
      Progress(disk, changed, skipped, written)
    }

    method MakeDirs(w: World, path: string) returns (ok: bool)
      modifies this`disk
      ensures (disk, ok) == MkdirAll(w, old(disk), path)
      decreases |path|
    {
      if path == "" || path == "/" {
        return true;
      }
      if path in disk {
        return disk[path].DirAt?;
      }
      ok := MakeDirs(w, Parent(path));
      if ok && !w.fails(path) {
        disk := disk[path := DirAt];
      } else {
        ok := false;
      }
    }

    method RestoreFile(w: World, e: Entry, target: string, overwrite: bool) returns (r: FileResult)
      modifies this`disk
      ensures (disk, r) == AfterFile(w, old(disk), e, target, overwrite)
    {
      if (Top(target) || target in disk) && !overwrite {
        return Kept;
      }
      var ok := MakeDirs(w, Parent(target));
      if !ok {
        return Failed;
      }
      var data := w.blob(e.hash);
      if data.None? {
        return Failed;
      }
      if w.sha256(data.value) != e.hash {
        return Failed;
      }
      if w.fails(target) || Top(target) || (target in disk && disk[target].DirAt?) {
        return Failed;
      }
      disk := disk[target := FileAt(data.value, if e.mtime != 0 then e.mtime else w.now)];
      return Wrote(|data.value|);
    }

    /** doRestore.  `manifest` is None when it cannot be fetched or a line is corrupt, which
        shows before anything is written; `stop` is the number of entries handled when a
        cancellation is noticed, if one is. */
    method DoRestore(
      w: World, o: Order, trim: string -> string, paths: seq<string>, manifest: Option<seq<Entry>>, stop: Option<nat>)
      returns (r: RestoreResult)
      modifies this
      ensures r.NoManifest? <==> manifest.None?
      ensures r.NoManifest? || r.NothingMatches? ==> State() == old(State())
      ensures manifest.Some? ==>
                var selected := Selected(trim, paths, manifest.value);
                && (r.NothingMatches? <==> selected == [])
                && (r.Cancelled? <==> stop.Some? && stop.value < |selected|)
                && (r.Cancelled? ==> State() == AfterEntries(w, o, old(State()), selected[..stop.value]))
                && (r.Finished? ==> State() == AfterEntries(w, o, old(State()), selected))
                && (r.Cancelled? || r.Finished? ==> r.total == CountFiles(selected) && r.bytes == SumSizes(selected))
    {
      if manifest.None? {
        return NoManifest;
      }
      var entries, total, bytes := Collect(trim, paths, manifest.value);
      if |entries| == 0 {
        return NothingMatches;
      }
      if stop.Some? && stop.value < |entries| {
        RestoreEntries(w, o, entries[..stop.value]);
        return Cancelled(total, bytes);
      }
      RestoreEntries(w, o, entries);
      return Finished(total, bytes);
    }

    method RestoreEntries(w: World, o: Order, entries: seq<Entry>)
      modifies this
      ensures State() == AfterEntries(w, o, old(State()), entries)
    {
      for i := 0 to |entries|
        invariant State() == AfterEntries(w, o, old(State()), entries[..i])
      {
        AfterOneMore(w, o, old(State()), entries[..i], entries[i]);
        assert entries[..i + 1] == entries[..i] + [entries[i]];
        RestoreEntry(w, o, entries[i]);
      }
      assert entries[..|entries|] == entries;
    }

    /** One turn of doRestore's loop. */
    method RestoreEntry(w: World, o: Order, e: Entry)
      modifies this
      ensures State() == AfterEntry(w, o, old(State()), e)
    {
      var t := RestoreTarget(e.path, o.dir);
      if t.None? {
        skipped := skipped + 1;
        return;
      }
      var target := t.value;
      match e.kind {
        case DirKind =>
          var ok := MakeDirs(w, target);
          if !ok {
            skipped := skipped + 1;
          }
        case LinkKind =>
          if Top(target) || target in disk {
            if !o.overwrite {
              skipped := skipped + 1;
              return;
            }
            disk := Removed(disk, target);
          }
          var ok := MakeDirs(w, Parent(target));
          if ok && !Top(target) && target !in disk && !w.fails(target) {
            disk := disk[target := LinkAt(e.target)];
          } else {
            skipped := skipped + 1;
          }
        case FileKind =>
          var r := RestoreFile(w, e, target, o.overwrite);
          if r.Wrote? {
            changed, written := changed + 1, written + r.bytes;
          } else {
            skipped := skipped + 1;
          }
      }
    }
  }

  function Matching(trim: string -> string, paths: seq<string>): Entry -> bool {
    (e: Entry) => RestoreMatch(trim, e.path, paths)
  }

  function Selected(trim: string -> string, paths: seq<string>, manifest: seq<Entry>): seq<Entry> {
    KeepIf(manifest, Matching(trim, paths))
  }

  // ---------- what any restore keeps, whatever fails ----------

  /** MkdirAll only adds directories, at the path and above it, and succeeds when
      nothing is in the way and nothing fails. */
  lemma {:induction false} MkdirAllAdds(w: World, disk: Disk, path: string)
    ensures var (d, ok) := MkdirAll(w, disk, path);
            && (forall a :: a in disk ==> a in d && d[a] == disk[a])
            && (forall a :: a in d && a !in disk ==> d[a] == DirAt && AtOrAbove(a, path) && !Top(a))
            && (ok ==> IsDirectory(d, path))
    ensures (forall a :: AtOrAbove(a, path) && a in disk ==> disk[a].DirAt?) && (forall a :: !w.fails(a)) ==>
              MkdirAll(w, disk, path).1
    decreases |path|
  {
    if !Exists(disk, path) {
      MkdirAllAdds(w, disk, Parent(path));
    }
  }

  /** Nothing whose creation fails is made, at the path or above it. */
  lemma {:induction false} MkdirAllMakes(w: World, disk: Disk, path: string, a: string)
    requires w.fails(a) && a !in disk
    ensures a !in MkdirAll(w, disk, path).0
    ensures a == path && !Exists(disk, path) ==> !MkdirAll(w, disk, path).1
    decreases |path|
  {
    if !Exists(disk, path) {
      MkdirAllMakes(w, disk, Parent(path), a);
    }
  }

  /** A path at which nothing can be created never gets anything new from an entry, and an
      entry that should go there is counted as skipped, unless it is a directory that is
      there already. */
  lemma FailingPathStays(w: World, o: Order, s: Progress, e: Entry, a: string)
    requires w.fails(a)
    ensures var s' := AfterEntry(w, o, s, e);
            && (a in s'.disk ==> a in s.disk && s'.disk[a] == s.disk[a])
            && (RestoreTarget(e.path, o.dir) == Some(a) && s'.skipped == s.skipped ==>
                  e.kind.DirKind? && IsDirectory(s.disk, a))
  {
    var t := RestoreTarget(e.path, o.dir);
    if t.Some? {
      var here := if e.kind.LinkKind? && Exists(s.disk, t.value) then Removed(s.disk, t.value) else s.disk;
      var path := if e.kind.DirKind? then t.value else Parent(t.value);
      MkdirAllAdds(w, here, path);
      if a !in here {
        MkdirAllMakes(w, here, path, a);
      }
    }
  }

  /** A file entry is kept back exactly when something is at its target and the overwrite
      option is off; with the option on, a good blob replaces a file or link that is there. */
  lemma ReplacedIff(w: World, disk: Disk, e: Entry, t: string, overwrite: bool)
    requires t in disk && !disk[t].DirAt? && !Top(t) && IsDirectory(disk, Parent(t))
    ensures var (d, r) := AfterFile(w, disk, e, t, overwrite);
            && (r.Kept? <==> !overwrite)
            && (r.Wrote? <==> overwrite && !w.fails(t)
                              && w.blob(e.hash).Some? && w.sha256(w.blob(e.hash).value) == e.hash)
            && d == if r.Wrote? then disk[t := FileAt(w.blob(e.hash).value, Stamp(w, e))] else disk
  {
  }

  /** What processing the target `t` may do to a disk. */
  ghost predicate Touches(before: Disk, after: Disk, t: string) {
    && (forall a :: a in before && a != t ==> a in after && after[a] == before[a])
    && (forall a :: a in after && a !in before ==> !Top(a) && (a == t || (after[a] == DirAt && Above(a, t))))
  }

  lemma FileTouches(w: World, disk: Disk, e: Entry, t: string, overwrite: bool)
    requires e.kind.FileKind?
    ensures var (d, r) := AfterFile(w, disk, e, t, overwrite); Touches(disk, d, t) && (r.Wrote? ==> InPlace(w, d, t, e))
  {
    MkdirAllAdds(w, disk, Parent(t));
    AboveSelf(t);
  }

  lemma LinkTouches(w: World, disk: Disk, e: Entry, t: string, overwrite: bool)
    requires e.kind.LinkKind?
    ensures var (d, ok) := AfterLink(w, disk, e, t, overwrite); Touches(disk, d, t) && (ok ==> InPlace(w, d, t, e))
  {
    MkdirAllAdds(w, if Exists(disk, t) then Removed(disk, t) else disk, Parent(t));
    AboveSelf(t);
  }

  /** One entry touches nothing but its own target, apart from directories it adds
      above that.  If it is not counted as skipped, it is in place. */
  lemma EntryTouches(w: World, o: Order, s: Progress, e: Entry)
    ensures var s', t := AfterEntry(w, o, s, e), RestoreTarget(e.path, o.dir);
            && (if t.None? then s'.disk == s.disk && s'.skipped > s.skipped else Touches(s.disk, s'.disk, t.value))
            && s.skipped <= s'.skipped <= s.skipped + 1
            && (s'.skipped == s.skipped ==> InPlace(w, s'.disk, t.value, e))
            && s'.changed == s.changed + (if e.kind.FileKind? && s'.skipped == s.skipped then 1 else 0)
            && s'.written == s.written + (if e.kind.FileKind? && s'.skipped == s.skipped
                                          then |s'.disk[t.value].content| else 0)
  {
    var t := RestoreTarget(e.path, o.dir);
    if t.Some? {
      match e.kind
      case DirKind => MkdirAllAdds(w, s.disk, t.value);
      case LinkKind => LinkTouches(w, s.disk, e, t.value, o.overwrite);
      case FileKind => FileTouches(w, s.disk, e, t.value, o.overwrite);
    }
  }

  lemma AboveSelf(path: string)
    ensures !Top(path) ==> forall a :: AtOrAbove(a, Parent(path)) ==> Above(a, path)
    ensures Top(path) ==> forall a :: !Above(a, path)
  {
  }

  /** The entry's target holds what the entry describes. */
  predicate InPlace(w: World, disk: Disk, target: string, e: Entry) {
    match e.kind
    case DirKind => IsDirectory(disk, target)
    case LinkKind => target in disk && disk[target] == LinkAt(e.target)
    case FileKind =>
      && target in disk && disk[target].FileAt?
      && w.sha256(disk[target].content) == e.hash && disk[target].mtime == Stamp(w, e)
  }
}
