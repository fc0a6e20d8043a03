/** The scanner as the agent runs it: the walk callback, the Windows walk and the
    hash pass as code over mutable state, and what a whole scan produces. */
module Engine {
  import opened Basics
  import opened FileTree
  import opened Walk
  import opened Entries
  import opened Scan

  // ---------- the hash pass ----------

  predicate NeedsHash(e: Entry) {
    e.kind.FileKind? && e.hash == ""
  }

  predicate Ready(e: Entry) {
    !NeedsHash(e)
  }

  /** The indices the walk leaves to the hash pass. */
  function Pending(entries: seq<Entry>): seq<nat> {
    if entries == [] then []
    else
      var k := |entries| - 1;
      Pending(entries[..k]) + if NeedsHash(entries[k]) then [k] else []
  }

  /** hashFile for one entry; None is a file that cannot be read. */
  function HashOne(read: string -> Option<string>, e: Entry): Entry {
    if NeedsHash(e) && read(e.path).Some? then e.(hash := read(e.path).value) else e
  }

  function HashEach(read: string -> Option<string>, entries: seq<Entry>): (r: seq<Entry>)
    ensures |r| == |entries|
    ensures forall i :: 0 <= i < |entries| ==> r[i] == HashOne(read, entries[i])
  {
    if entries == [] then [] else HashEach(read, entries[..|entries| - 1]) + [HashOne(read, entries[|entries| - 1])]
  }

  /** What the hash pass leaves: unreadable files are dropped. */
  function Hashed(read: string -> Option<string>, entries: seq<Entry>): seq<Entry> {
    KeepIf(HashEach(read, entries), Ready)
  }

  ghost predicate RealHashes(read: string -> Option<string>) {
    forall path :: read(path).Some? ==> read(path).value != ""
  }

  /** The statistics agree with the entries, and nothing to hash is forgotten. */
  ghost predicate ScanSound(s: Scan) {
    s.total == CountFiles(s.entries) && s.bytes == SumSizes(s.entries) && s.toHash == Pending(s.entries)
  }

  lemma AppendKeepsSound(s: Scan, e: Entry)
    requires ScanSound(s)
    ensures ScanSound(Append(s, e))
  {
    assert (s.entries + [e])[..|s.entries|] == s.entries;
  }

  lemma {:induction false} PlacesKeepSound(c: Config, s: Scan, ps: seq<Place>)
    requires ScanSound(s)
    ensures ScanSound(AddPlaces(c, s, ps))
    decreases |ps|
  {
    if ps != [] {
      forall e { AppendKeepsSound(s, e); }
      PlacesKeepSound(c, AddPlace(c, s, ps[0]), ps[1..]);
    }
  }

  /** Nothing is left out silently: the count of skipped items stays as it was exactly when
      every visible link could be read, every directory listed and everything examined. */
  lemma {:induction false} NothingSkippedIff(c: Config, s: Scan, ps: seq<Place>)
    ensures AddPlaces(c, s, ps).skipped >= s.skipped
    ensures AddPlaces(c, s, ps).skipped == s.skipped <==>
            forall i :: 0 <= i < |ps| ==> !ps[i].node.Gone? && (ps[i].node.Link? ==> ps[i].node.readable)
                                          && (ps[i].node.Dir? ==> !ps[i].node.readFails)
    decreases |ps|
  {
    if ps != [] {
      var rest := ps[1..];
      NothingSkippedIff(c, AddPlace(c, s, ps[0]), rest);
      assert forall i :: 0 <= i < |rest| ==> rest[i] == ps[i + 1];
      assert forall i :: 0 < i < |ps| ==> ps[i] == rest[i - 1];
    }
  }

  lemma {:induction false} PendingIs(entries: seq<Entry>)
    ensures forall i :: i in Pending(entries) <==> 0 <= i < |entries| && NeedsHash(entries[i])
  {
    if entries != [] {
      PendingIs(entries[..|entries| - 1]);
    }
  }

  predicate Unreadable(read: string -> Option<string>, entries: seq<Entry>, i: nat) {
    i < |entries| && read(entries[i].path).None?
  }

  /** Unreadable files among some of the pending indices, and their sizes. */
  function Failures(read: string -> Option<string>, entries: seq<Entry>, idx: seq<nat>): nat {
    if idx == [] then 0
    else
      var k := |idx| - 1;
      Failures(read, entries, idx[..k]) + if Unreadable(read, entries, idx[k]) then 1 else 0
  }

  function FailedBytes(read: string -> Option<string>, entries: seq<Entry>, idx: seq<nat>): int {
    if idx == [] then 0
    else
      var k := |idx| - 1;
      FailedBytes(read, entries, idx[..k]) + if Unreadable(read, entries, idx[k]) then entries[idx[k]].size else 0
  }

  lemma {:induction false} FailuresLonger(read: string -> Option<string>, entries: seq<Entry>, e: Entry, idx: seq<nat>)
    requires forall i :: 0 <= i < |idx| ==> idx[i] < |entries|
    ensures Failures(read, entries + [e], idx) == Failures(read, entries, idx)
    ensures FailedBytes(read, entries + [e], idx) == FailedBytes(read, entries, idx)
  {
    if idx != [] {
      FailuresLonger(read, entries, e, idx[..|idx| - 1]);
    }
  }

  lemma FailuresNext(read: string -> Option<string>, entries: seq<Entry>, idx: seq<nat>, i: nat)
    requires i < |entries|
    ensures Failures(read, entries, idx + [i])
         == Failures(read, entries, idx) + if read(entries[i].path).None? then 1 else 0
    ensures FailedBytes(read, entries, idx + [i])
         == FailedBytes(read, entries, idx) + if read(entries[i].path).None? then entries[i].size else 0
  {
    assert (idx + [i])[..|idx|] == idx;
  }

  /** Count and bytes of the failures among the first pending indices. */
  ghost predicate FailedUpTo(
    read: string -> Option<string>, entries: seq<Entry>, idx: seq<nat>, k: nat, gone: int, lost: int)
    requires k <= |idx|
  {
    gone == Failures(read, entries, idx[..k]) && lost == FailedBytes(read, entries, idx[..k])
  }

  lemma FailedNext(read: string -> Option<string>, entries: seq<Entry>, idx: seq<nat>, k: nat, gone: int, lost: int)
    requires k < |idx| && idx[k] < |entries| && FailedUpTo(read, entries, idx, k, gone, lost)
    ensures if read(entries[idx[k]].path).None?
            then FailedUpTo(read, entries, idx, k + 1, gone + 1, lost + entries[idx[k]].size)
            else FailedUpTo(read, entries, idx, k + 1, gone, lost)
  {
    assert idx[..k + 1] == idx[..k] + [idx[k]];
    FailuresNext(read, entries, idx[..k], idx[k]);
  }

  lemma FailedAll(read: string -> Option<string>, entries: seq<Entry>, idx: seq<nat>, gone: int, lost: int)
    requires FailedUpTo(read, entries, idx, |idx|, gone, lost)
    ensures gone == Failures(read, entries, idx) && lost == FailedBytes(read, entries, idx)
  {
    assert idx[..|idx|] == idx;
  }

  /** The walk visits in order, so the pending indices increase. */
  lemma {:induction false} PendingIncreases(entries: seq<Entry>)
    ensures forall i :: 0 <= i < |Pending(entries)| ==> Pending(entries)[i] < |entries|
    ensures forall i, j :: 0 <= i < j < |Pending(entries)| ==> Pending(entries)[i] < Pending(entries)[j]
  {
    if entries != [] {
      PendingIncreases(entries[..|entries| - 1]);
    }
  }

  lemma HashedNext(read: string -> Option<string>, rest: seq<Entry>, e: Entry)
    requires RealHashes(read)
    ensures Pending(rest + [e]) == if NeedsHash(e) then Pending(rest) + [|rest|] else Pending(rest)
    ensures var h := HashOne(read, e);
            && HashEach(read, rest + [e]) == HashEach(read, rest) + [h]
            && Hashed(read, rest + [e]) == (if Ready(h) then Hashed(read, rest) + [h] else Hashed(read, rest))
            && (Ready(h) <==> !NeedsHash(e) || read(e.path).Some?)
            && CountFiles(Hashed(read, rest) + [h])
               == CountFiles(Hashed(read, rest)) + (if e.kind.FileKind? then 1 else 0)
            && SumSizes(Hashed(read, rest) + [h])
               == SumSizes(Hashed(read, rest)) + (if e.kind.FileKind? then e.size else 0)
  {
    assert (rest + [e])[..|rest|] == rest;
    KeepIfAppend(HashEach(read, rest), HashOne(read, e), Ready);
    KeepIfAppend(Hashed(read, rest), HashOne(read, e), Ready);
  }

  lemma FailuresAfter(read: string -> Option<string>, rest: seq<Entry>, e: Entry)
    ensures var all, failed := rest + [e], NeedsHash(e) && read(e.path).None?;
            && Failures(read, all, Pending(all)) == Failures(read, rest, Pending(rest)) + (if failed then 1 else 0)
            && FailedBytes(read, all, Pending(all))
               == FailedBytes(read, rest, Pending(rest)) + (if failed then e.size else 0)
  {
    var all := rest + [e];
    PendingIncreases(rest);
    FailuresLonger(read, rest, e, Pending(rest));
    assert all[..|all| - 1] == rest && all[|all| - 1] == e;
    assert Pending(all) == Pending(rest) + if NeedsHash(e) then [|rest|] else [];
    FailuresNext(read, all, Pending(rest), |rest|);
    assert Pending(rest) + [] == Pending(rest);
  }

  lemma OneMoreCounted(read: string -> Option<string>, rest: seq<Entry>, e: Entry)
    requires RealHashes(read)
    requires CountFiles(Hashed(read, rest)) == CountFiles(rest) - Failures(read, rest, Pending(rest))
    requires SumSizes(Hashed(read, rest)) == SumSizes(rest) - FailedBytes(read, rest, Pending(rest))
    ensures var all := rest + [e];
            && CountFiles(Hashed(read, all)) == CountFiles(all) - Failures(read, all, Pending(all))
            && SumSizes(Hashed(read, all)) == SumSizes(all) - FailedBytes(read, all, Pending(all))
  {
    HashedNext(read, rest, e);
    KeepIfAppend(rest, e, Ready);
    FailuresAfter(read, rest, e);
  }

  /** Subtracting the failures gives the counts of what is left. */
  lemma {:induction false} HashedCounts(read: string -> Option<string>, entries: seq<Entry>)
    requires RealHashes(read)
    ensures CountFiles(Hashed(read, entries)) == CountFiles(entries) - Failures(read, entries, Pending(entries))
    ensures SumSizes(Hashed(read, entries)) == SumSizes(entries) - FailedBytes(read, entries, Pending(entries))
  {
    if entries != [] {
      var rest, e := entries[..|entries| - 1], entries[|entries| - 1];
      assert entries == rest + [e];
      HashedCounts(read, rest);
      OneMoreCounted(read, rest, e);
    }
  }

  /** Between two consecutive pending indices there is nothing to hash. */
  lemma PendingGap(entries: seq<Entry>, pending: seq<nat>, k: nat) returns (lo: nat, hi: nat)
    requires pending == Pending(entries) && k <= |pending|
    ensures lo == if k == 0 then 0 else pending[k - 1] + 1
    ensures hi == if k == |pending| then |entries| else pending[k]
    ensures lo <= hi <= |entries| && forall i :: lo <= i < hi ==> !NeedsHash(entries[i])
    ensures k < |pending| ==> hi < |entries| && NeedsHash(entries[hi])
  {
    PendingIs(entries);
    PendingIncreases(entries);
    lo := if k == 0 then 0 else pending[k - 1] + 1;
    hi := if k == |pending| then |entries| else pending[k];
    assert k < |pending| ==> pending[k] in pending;
    assert forall m :: 0 <= m < |pending| ==> pending[m] < lo || hi <= pending[m];
    assert forall i :: lo <= i < hi ==> i !in pending;
  }

  /** The entries up to some index are done, the rest are untouched. */
  ghost predicate HashedTo(
    read: string -> Option<string>, entries: seq<Entry>, cur: seq<Entry>, lo: nat, drop: set<int>)
    requires |cur| == |entries|
  {
    && (forall i :: 0 <= i < |entries| ==> cur[i] == if i < lo then HashOne(read, entries[i]) else entries[i])
    && (forall i :: i in drop ==> 0 <= i < lo)
    && (forall i :: 0 <= i < |entries| && i < lo ==> (i in drop <==> !Ready(cur[i])))
  }

  lemma GapHashed(
    read: string -> Option<string>, entries: seq<Entry>, cur: seq<Entry>, lo: nat, hi: nat, drop: set<int>)
    requires |cur| == |entries| && lo <= hi <= |entries| && HashedTo(read, entries, cur, lo, drop)
    requires forall i :: lo <= i < hi ==> !NeedsHash(entries[i])
    ensures HashedTo(read, entries, cur, hi, drop)
  {
  }

  lemma OneHashed(read: string -> Option<string>, entries: seq<Entry>, cur: seq<Entry>, i: nat, drop: set<int>)
    requires RealHashes(read)
    requires |cur| == |entries| && i < |entries| && HashedTo(read, entries, cur, i, drop) && NeedsHash(entries[i])
    ensures cur[i] == entries[i]
    ensures HashedTo(read, entries, cur[i := HashOne(read, entries[i])], i + 1,
                     if read(entries[i].path).None? then drop + {i} else drop)
  {
    HashOneReady(read, entries[i]);
  }

  /** Where the hash pass stands after k pending indices. */
  ghost predicate PassAt(
    read: string -> Option<string>, entries: seq<Entry>, pending: seq<nat>, k: nat,
    cur: seq<Entry>, drop: set<int>, gone: int, lost: int)
  {
    && pending == Pending(entries) && k <= |pending| && |cur| == |entries|
    && HashedTo(read, entries, cur, if k == 0 then 0 else pending[k - 1] + 1, drop)
    && FailedUpTo(read, entries, pending, k, gone, lost)
  }

  lemma PassStarts(read: string -> Option<string>, entries: seq<Entry>)
    ensures PassAt(read, entries, Pending(entries), 0, entries, {}, 0, 0)
  {
  }

  lemma PassNext(
    read: string -> Option<string>, entries: seq<Entry>, pending: seq<nat>, k: nat,
    cur: seq<Entry>, drop: set<int>, gone: int, lost: int)
    requires RealHashes(read) && PassAt(read, entries, pending, k, cur, drop, gone, lost) && k < |pending|
    ensures pending[k] < |entries| && NeedsHash(entries[pending[k]]) && cur[pending[k]] == entries[pending[k]]
    ensures var i := pending[k];
            var next := cur[i := HashOne(read, entries[i])];
            if read(entries[i].path).None?
            then PassAt(read, entries, pending, k + 1, next, drop + {i}, gone + 1, lost + entries[i].size)
            else PassAt(read, entries, pending, k + 1, next, drop, gone, lost)
  {
    var lo, hi := PendingGap(entries, pending, k);
    GapHashed(read, entries, cur, lo, hi, drop);
    OneHashed(read, entries, cur, hi, drop);
    FailedNext(read, entries, pending, k, gone, lost);
  }

  lemma PassEnds(
    read: string -> Option<string>, entries: seq<Entry>, pending: seq<nat>,
    cur: seq<Entry>, drop: set<int>, gone: int, lost: int)
    requires PassAt(read, entries, pending, |pending|, cur, drop, gone, lost)
    ensures forall i :: 0 <= i < |entries| ==> cur[i] == HashOne(read, entries[i]) && (i in drop <==> !Ready(cur[i]))
    ensures gone == Failures(read, entries, pending) && lost == FailedBytes(read, entries, pending)
  {
    var lo, hi := PendingGap(entries, pending, |pending|);
    GapHashed(read, entries, cur, lo, hi, drop);
    FailedAll(read, entries, pending, gone, lost);
  }

  lemma HashOneReady(read: string -> Option<string>, e: Entry)
    requires RealHashes(read)
    ensures Ready(HashOne(read, e)) <==> !NeedsHash(e) || read(e.path).Some?
  {
  }

  // ---------- the scanner ----------

  class Scanner {
    var entries: seq<Entry>
    var toHash: seq<nat>
    var total: int
    var bytes: int
    var skipped: int
    var changed: int

    ghost function State(): Scan
      reads this
    {
      Scan(entries, toHash, total, bytes, skipped)
    }

    constructor ()
      ensures State() == Scan([], [], 0, 0, 0) && changed == 0 && ScanSound(State())
    {
      entries, toHash, total, bytes, skipped, changed := [], [], 0, 0, 0, 0;
    }

    /** The walk callback of scan.  What an exclude pattern matches, below the root, leaves
        no trace, and a directory is then not entered. */
    method OnEntry(c: Config, path: string, info: Option<Node>, err: bool) returns (v: Verdict)
      modifies this
      ensures !err && info.Some? && path != c.root && c.skip(path) ==>
                State() == old(State()) && v == if IsDir(info.value) then SkipDir else Continue
      ensures (State(), v) == Visit(c, old(State()), path, info, err) && changed == old(changed)
    {
      if err || info.None? {
        skipped := skipped + 1;
        return if info.Some? && IsDir(info.value) then SkipDir else Continue;
      }
      if path != c.root && c.skip(path) {
        return if IsDir(info.value) then SkipDir else Continue;
      }
      if info.value.Dir? && path != c.root && info.value.pseudo {
        return SkipDir;
      }
      var e: Entry;
      match info.value {
        case Link(mtime, target, readable, _) =>
          if !readable {
            skipped := skipped + 1;
            return Continue;
          }
          e := Entry(LinkKind, path, 0, mtime, "", target);
        case Dir(mtime, _, _, _) =>
          e := Entry(DirKind, path, 0, mtime, "", "");
        case File(size, mtime, _) =>
          e := Entry(FileKind, path, size, mtime, "", "");
          total := total + 1;
          bytes := bytes + size;
          if path in c.prev && c.prev[path].size == size && c.prev[path].mtime == mtime && c.prev[path].hash != "" {
            e := e.(hash := c.prev[path].hash);
          }
        case Special(_) =>
          return Continue;
        case Gone(_) =>
          return Continue;
      }
      entries := entries + [e];
      if e.kind.FileKind? && e.hash == "" {
        toHash := toHash + [|entries| - 1];
      }
      return Continue;
    }

    /** walkBackupEntry with the scan callback. */
    method WalkBackupEntry(c: Config, path: string, n: Node) returns (v: Verdict)
      modifies this
      ensures (State(), v) == WalkEntry(Visiting(c), old(State()), path, n) && changed == old(changed)
      decreases n
    {
      v := OnEntry(c, path, Some(n), false);
      if v != Continue {
        return if v == SkipDir && IsDir(n) then Continue else v;
      }
      if !n.Dir? {
        return Continue;
      }
      if n.readFails {
        v := OnEntry(c, path, Some(n), true);
        if v != Continue {
          return;
        }
      }
      ghost var start := State();
      for i := 0 to |n.children|
        invariant WalkEntries(Visiting(c), State(), path, n.children[i..])
               == WalkEntries(Visiting(c), start, path, n.children)
        invariant changed == old(changed)
      {
        assert n.children[i..][0] == n.children[i] && n.children[i..][1..] == n.children[i + 1..];
        v := WalkBackupEntry(c, Join(path, n.children[i].name), n.children[i].node);
        if v != Continue {
          return;
        }
      }
      return Continue;
    }

    /** One turn of the hash loop. */
    method HashIndex(read: string -> Option<string>, buf: array<Entry>, idx: nat) returns (failed: bool)
      requires idx < buf.Length && NeedsHash(buf[idx])
      modifies this`total, this`bytes, this`skipped, this`changed, buf
      ensures failed <==> read(old(buf[idx]).path).None?
      ensures buf[idx] == HashOne(read, old(buf[idx]))
      ensures forall i :: 0 <= i < buf.Length && i != idx ==> buf[i] == old(buf[i])
      ensures total == old(total) - (if failed then 1 else 0)
      ensures bytes == old(bytes) - (if failed then old(buf[idx]).size else 0)
      ensures skipped == old(skipped) + (if failed then 1 else 0)
      ensures changed == old(changed) + (if failed then 0 else 1)
    {
      var hash := read(buf[idx].path);
      failed := hash.None?;
      if failed {
        skipped := skipped + 1;
        total := total - 1;
        bytes := bytes - buf[idx].size;
      } else {
        buf[idx] := buf[idx].(hash := hash.value);
        changed := changed + 1;
      }
    }

    /** The loop over toHash, updating the entries' array in place. */
    method HashLoop(read: string -> Option<string>, buf: array<Entry>) returns (drop: set<int>)
      requires toHash == Pending(entries) && RealHashes(read)
      requires buf.Length == |entries| && forall i :: 0 <= i < buf.Length ==> buf[i] == entries[i]
      modifies this`total, this`bytes, this`skipped, this`changed, buf
      ensures forall i :: 0 <= i < buf.Length ==> buf[i] == HashOne(read, entries[i])
      ensures forall i :: 0 <= i < buf.Length ==> (i in drop <==> !Ready(buf[i]))
      ensures total == old(total) - Failures(read, entries, toHash)
      ensures bytes == old(bytes) - FailedBytes(read, entries, toHash)
      ensures skipped == old(skipped) + Failures(read, entries, toHash)
      ensures changed == old(changed) + |toHash| - Failures(read, entries, toHash)
    {
      drop := {};
      ghost var gone, lost, cur := 0, 0, entries;
      PassStarts(read, entries);
      for k := 0 to |toHash|
        invariant |cur| == buf.Length && forall i :: 0 <= i < buf.Length ==> buf[i] == cur[i]
        invariant PassAt(read, entries, toHash, k, cur, drop, gone, lost)
        invariant total == old(total) - gone && bytes == old(bytes) - lost
        invariant skipped == old(skipped) + gone && changed == old(changed) + k - gone
      {
        var idx := toHash[k];
        PassNext(read, entries, toHash, k, cur, drop, gone, lost);
        var failed := HashIndex(read, buf, idx);
        cur := cur[idx := HashOne(read, entries[idx])];
        if failed {
          drop := drop + {idx};
          gone, lost := gone + 1, lost + entries[idx].size;
        }
      }
      PassEnds(read, entries, toHash, cur, drop, gone, lost);
    }

    /** The hash pass and the compaction that follows it. */
    method HashPass(read: string -> Option<string>)
      requires ScanSound(State()) && RealHashes(read)
      modifies this
      ensures entries == Hashed(read, old(entries))
      ensures total == CountFiles(entries) && bytes == SumSizes(entries)
      ensures skipped - old(skipped) == old(total) - total
      ensures changed - old(changed) == |Pending(old(entries))| - (old(total) - total)
    {
      HashedCounts(read, entries);
      var all := entries;
      var buf := new Entry[|all|](i requires 0 <= i < |all| => all[i]);
      var drop := HashLoop(read, buf);
      ghost var hashed := HashEach(read, all);
      assert buf[..] == hashed;
      if drop != {} {
        var n := Compact(buf, drop, Ready);
        entries := buf[..n];
      } else {
        KeepIfAll(hashed, Ready);
        entries := buf[..];
      }
    }
  }

  // ---------- incremental scans ----------

  /** What the walk records for one place, with a given previous manifest. */
  function EntryOf(prev: map<string, Entry>, p: Place): seq<Entry> {
    match p.node
    case File(size, mtime, _) => [Entry(FileKind, p.path, size, mtime, Reused(prev, p.path, size, mtime), "")]
    case Link(mtime, target, readable, _) => if readable then [Entry(LinkKind, p.path, 0, mtime, "", target)] else []
    case Dir(mtime, _, _, _) => [Entry(DirKind, p.path, 0, mtime, "", "")]
    case Special(_) => []
    case Gone(_) => []
  }

  /** The same with the hash of the file's content. */
  function FullEntry(sha: Bytes -> string, p: Place): seq<Entry> {
    if p.node.File? then [Entry(FileKind, p.path, p.node.size, p.node.mtime, sha(p.node.content), "")]
    else EntryOf(map[], p)
  }

  function EntriesOf(prev: map<string, Entry>, ps: seq<Place>): seq<Entry> {
    if ps == [] then [] else EntryOf(prev, ps[0]) + EntriesOf(prev, ps[1..])
  }

  function FullEntries(sha: Bytes -> string, ps: seq<Place>): seq<Entry> {
    if ps == [] then [] else FullEntry(sha, ps[0]) + FullEntries(sha, ps[1..])
  }

  lemma {:induction false} PlacesAddEntries(c: Config, s: Scan, ps: seq<Place>)
    ensures AddPlaces(c, s, ps).entries == s.entries + EntriesOf(c.prev, ps)
    decreases |ps|
  {
    if ps != [] {
      PlacesAddEntries(c, AddPlace(c, s, ps[0]), ps[1..]);
      assert AddPlace(c, s, ps[0]).entries == s.entries + EntryOf(c.prev, ps[0]);
    }
  }

  lemma {:induction false} HashedConcat(read: string -> Option<string>, a: seq<Entry>, b: seq<Entry>)
    ensures Hashed(read, a + b) == Hashed(read, a) + Hashed(read, b)
  {
    if b == [] {
      assert a + b == a;
    } else {
      var rest, e := b[..|b| - 1], b[|b| - 1];
      assert a + b == (a + rest) + [e] && b == rest + [e];
      HashedConcat(read, a, rest);
      HashedSnoc(read, a + rest, e);
      HashedSnoc(read, rest, e);
    }
  }

  lemma HashedSnoc(read: string -> Option<string>, rest: seq<Entry>, e: Entry)
    ensures Hashed(read, rest + [e])
         == if Ready(HashOne(read, e)) then Hashed(read, rest) + [HashOne(read, e)] else Hashed(read, rest)
  {
    assert (rest + [e])[..|rest|] == rest;
    KeepIfAppend(HashEach(read, rest), HashOne(read, e), Ready);
  }

  /** Every file can be read, and hashes to its content's hash. */
  ghost predicate Readable(read: string -> Option<string>, sha: Bytes -> string, ps: seq<Place>) {
    forall i :: 0 <= i < |ps| && ps[i].node.File? ==>
      read(ps[i].path) == Some(sha(ps[i].node.content)) && sha(ps[i].node.content) != ""
  }

  /** Wherever size and mtime still match, the previous manifest's hash is the
      hash of the current content. */
  ghost predicate Faithful(sha: Bytes -> string, prev: map<string, Entry>, ps: seq<Place>) {
    forall i :: 0 <= i < |ps| && ps[i].node.File? ==>
      Reused(prev, ps[i].path, ps[i].node.size, ps[i].node.mtime) in {"", sha(ps[i].node.content)}
  }

  lemma HashedAtMostOne(read: string -> Option<string>, es: seq<Entry>)
    requires |es| <= 1
    ensures Hashed(read, es) == if es != [] && Ready(HashOne(read, es[0])) then [HashOne(read, es[0])] else []
  {
    if es != [] {
      HashedSnoc(read, [], es[0]);
      assert [] + [es[0]] == es;
    }
  }

  lemma FaithfulPlaceIsFull(read: string -> Option<string>, sha: Bytes -> string, prev: map<string, Entry>, p: Place)
    requires p.node.File? ==> read(p.path) == Some(sha(p.node.content)) && sha(p.node.content) != ""
    requires p.node.File? ==> Reused(prev, p.path, p.node.size, p.node.mtime) in {"", sha(p.node.content)}
    ensures Hashed(read, EntryOf(prev, p)) == FullEntry(sha, p)
  {
    HashedAtMostOne(read, EntryOf(prev, p));
  }

  lemma {:induction false} FaithfulScanIsFull(
      read: string -> Option<string>, sha: Bytes -> string, prev: map<string, Entry>, ps: seq<Place>)
    requires Readable(read, sha, ps) && Faithful(sha, prev, ps)
    ensures Hashed(read, EntriesOf(prev, ps)) == FullEntries(sha, ps)
  {
    if ps == [] {
      HashedAtMostOne(read, []);
    } else {
      var p, rest := ps[0], ps[1..];
      assert forall i :: 0 <= i < |rest| ==> rest[i] == ps[i + 1];
      FaithfulScanIsFull(read, sha, prev, rest);
      FaithfulPlaceIsFull(read, sha, prev, p);
      HashedConcat(read, EntryOf(prev, p), EntriesOf(prev, rest));
    }
  }

  /** An incremental scan produces the entries of a full scan, which are the visible
      places with the hashes of their contents. */
  lemma IncrementalEqualsFull(c: Config, read: string -> Option<string>, sha: Bytes -> string, ps: seq<Place>)
    requires Readable(read, sha, ps) && Faithful(sha, c.prev, ps)
    ensures var empty := Scan([], [], 0, 0, 0);
            && Hashed(read, AddPlaces(c, empty, ps).entries) == FullEntries(sha, ps)
            && Hashed(read, AddPlaces(c.(prev := map[]), empty, ps).entries) == FullEntries(sha, ps)
  {
    var empty := Scan([], [], 0, 0, 0);
    PlacesAddEntries(c, empty, ps);
    PlacesAddEntries(c.(prev := map[]), empty, ps);
    assert [] + EntriesOf(c.prev, ps) == EntriesOf(c.prev, ps) && [] + EntriesOf(map[], ps) == EntriesOf(map[], ps);
    FaithfulScanIsFull(read, sha, c.prev, ps);
    FaithfulScanIsFull(read, sha, map[], ps);
  }

  /** readManifestStream: entries by path, the last one winning. */
  function ByPath(entries: seq<Entry>): map<string, Entry> {
    if entries == [] then map[]
    else
      var e := entries[|entries| - 1];
      if e.path == "" then ByPath(entries[..|entries| - 1]) else ByPath(entries[..|entries| - 1])[e.path := e]
  }

  lemma {:induction false} ByPathWithin(entries: seq<Entry>)
    ensures forall p :: p in ByPath(entries) ==> ByPath(entries)[p] in entries && ByPath(entries)[p].path == p
  {
    if entries != [] {
      ByPathWithin(entries[..|entries| - 1]);
    }
  }

  /** The last entry with a path is the one found under it; entries without a path are not
      found. */
  lemma {:induction false} ByPathIs(entries: seq<Entry>, i: nat)
    requires i < |entries| && entries[i].path != ""
    requires forall k :: i < k < |entries| ==> entries[k].path != entries[i].path
    ensures entries[i].path in ByPath(entries) && ByPath(entries)[entries[i].path] == entries[i]
    ensures "" !in ByPath(entries)
  {
    var k := |entries| - 1;
    if i < k {
      ByPathIs(entries[..k], i);
    } else {
      NoEmptyPath(entries);
    }
  }

  lemma {:induction false} NoEmptyPath(entries: seq<Entry>)
    ensures "" !in ByPath(entries)
  {
    if entries != [] {
      NoEmptyPath(entries[..|entries| - 1]);
    }
  }

  lemma {:induction false} FullEntriesAre(sha: Bytes -> string, ps: seq<Place>)
    ensures forall e :: e in FullEntries(sha, ps) ==> exists i :: 0 <= i < |ps| && FullEntry(sha, ps[i]) == [e]
  {
    if ps != [] {
      FullEntriesAre(sha, ps[1..]);
      forall e | e in FullEntries(sha, ps)
        ensures exists i :: 0 <= i < |ps| && FullEntry(sha, ps[i]) == [e]
      {
        if e in FullEntry(sha, ps[0]) {
          assert FullEntry(sha, ps[0]) == [e];
        } else {
          var i :| 0 <= i < |ps[1..]| && FullEntry(sha, ps[1..][i]) == [e];
          assert ps[i + 1] == ps[1..][i];
        }
      }
    }
  }

  /** Rewriting a file changes its size or its mtime. */
  ghost predicate StampsHonest(before: seq<Place>, after: seq<Place>) {
    forall i, j :: 0 <= i < |before| && 0 <= j < |after| && before[i].node.File? && after[j].node.File?
                && before[i].path == after[j].path && before[i].node.size == after[j].node.size
                && before[i].node.mtime == after[j].node.mtime
                ==> before[i].node.content == after[j].node.content
  }

  /** The manifest of a run in which no file changed, with any entries dropped, is
      faithful for the next scan. */
  lemma ManifestIsFaithful(sha: Bytes -> string, before: seq<Place>, after: seq<Place>, manifest: seq<Entry>)
    requires StampsHonest(before, after) && forall e :: e in manifest ==> e in FullEntries(sha, before)
    ensures Faithful(sha, ByPath(manifest), after)
  {
    ByPathWithin(manifest);
    FullEntriesAre(sha, before);
    var prev := ByPath(manifest);
    forall j | 0 <= j < |after| && after[j].node.File?
      ensures Reused(prev, after[j].path, after[j].node.size, after[j].node.mtime) in {"", sha(after[j].node.content)}
    {
      if after[j].path in prev {
        var i :| 0 <= i < |before| && FullEntry(sha, before[i]) == [prev[after[j].path]];
        EntryIsFaithful(sha, before, after, i, j, prev);
      }
    }
  }

  /** One reused entry: same path, size and mtime, hence the same content. */
  lemma EntryIsFaithful(
    sha: Bytes -> string, before: seq<Place>, after: seq<Place>, i: nat, j: nat, prev: map<string, Entry>)
    requires StampsHonest(before, after) && i < |before| && j < |after| && after[j].node.File?
    requires after[j].path in prev && prev[after[j].path].path == after[j].path
    requires FullEntry(sha, before[i]) == [prev[after[j].path]]
    ensures Reused(prev, after[j].path, after[j].node.size, after[j].node.mtime) in {"", sha(after[j].node.content)}
  {
    assert prev[after[j].path] == FullEntry(sha, before[i])[0];
    assert before[i].path == after[j].path;
  }
}
