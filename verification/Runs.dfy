/** A job's backup runs one after the other, each scanning against the manifest the
    run before it committed. */
module Runs {
  import opened Basics
  import opened FileTree
  import opened Walk
  import opened Entries
  import opened Scan
  import opened Engine
  import Upload

  /** One committed run in which no file changed: the tree it saw, whether it was a
      full run, and the hashes its final check still missed. */
  datatype Run = Run(config: Config, tree: Node, read: string -> Option<string>, full: bool, still: set<string>)

  function Places(r: Run): seq<Place> {
    Visible(r.config, r.config.root, r.tree)
  }

  /** What a run starts from: nothing, or the cached manifest by path. */
  function Previous(r: Run, cached: seq<Entry>): map<string, Entry> {
    if r.full then map[] else ByPath(cached)
  }

  /** The entries of scan and hash pass. */
  function Scanned(r: Run, cached: seq<Entry>): seq<Entry> {
    var c := r.config.(prev := Previous(r, cached));
    Hashed(r.read, UnixWalk(Visiting(c), Scan([], [], 0, 0, 0), c.root, Some(r.tree)).0.entries)
  }

  /** The manifest of the last run; Upload.UnchangedFilesKeepHashes says what the
      upload of unchanged files leaves of a scan. */
  function Committed(runs: seq<Run>): seq<Entry> {
    if runs == [] then []
    else
      var last := runs[|runs| - 1];
      KeepIf(Scanned(last, Committed(runs[..|runs| - 1])), Upload.StillThere(last.still))
  }

  /** Every file could be read in every run, and between one run and the next a
      rewritten file got another size or mtime. */
  ghost predicate Quiet(sha: Bytes -> string, runs: seq<Run>) {
    && (forall i :: 0 <= i < |runs| ==> Readable(runs[i].read, sha, Places(runs[i])))
    && (forall i :: 0 < i < |runs| ==> StampsHonest(Places(runs[i - 1]), Places(runs[i])))
  }

  /** However long the chain of incremental runs, the last manifest is the one a full
      scan of the last tree gives: every visible place, every file with the hash of
      its content, less what the final check dropped. */
  lemma {:induction false} EveryManifestIsFull(sha: Bytes -> string, runs: seq<Run>)
    requires runs != [] && Quiet(sha, runs)
    ensures var last := runs[|runs| - 1];
            Committed(runs) == KeepIf(FullEntries(sha, Places(last)), Upload.StillThere(last.still))
  {
    var k := |runs| - 1;
    var rest, last := runs[..k], runs[k];
    var cached := Committed(rest);
    assert Readable(last.read, sha, Places(last));
    if k > 0 {
      assert Quiet(sha, rest) by {
        assert forall i :: 0 <= i < k ==> rest[i] == runs[i];
      }
      EveryManifestIsFull(sha, rest);
      var before := runs[k - 1];
      assert rest[k - 1] == before;
      KeepIfMembers(FullEntries(sha, Places(before)), Upload.StillThere(before.still));
      ManifestIsFaithful(sha, Places(before), Places(last), cached);
    }
    ScannedIsFull(sha, last, cached);
  }

  lemma ScannedIsFull(sha: Bytes -> string, r: Run, cached: seq<Entry>)
    requires Readable(r.read, sha, Places(r)) && (cached == [] || Faithful(sha, ByPath(cached), Places(r)))
    ensures Scanned(r, cached) == FullEntries(sha, Places(r))
  {
    var c := r.config.(prev := Previous(r, cached));
    SameVisible(r.config, c.prev, c.root, r.tree);
    assert Faithful(sha, c.prev, Places(r));
    UnixScanIsPreorder(c, Scan([], [], 0, 0, 0), r.tree);
    IncrementalEqualsFull(c, r.read, sha, Places(r));
  }

  /** What is visible does not depend on the previous manifest. */
  lemma {:induction false} SameVisible(c: Config, prev: map<string, Entry>, path: string, n: Node)
    ensures Visible(c.(prev := prev), path, n) == Visible(c, path, n)
    decreases n, 1
  {
    if n.Dir? {
      SameVisibleAll(c, prev, path, n.children);
    }
  }

  lemma {:induction false} SameVisibleAll(c: Config, prev: map<string, Entry>, path: string, cs: seq<Child>)
    ensures VisibleAll(c.(prev := prev), path, cs) == VisibleAll(c, path, cs)
    decreases cs, 0
  {
    if cs != [] {
      SameVisible(c, prev, Join(path, cs[0].name), cs[0].node);
      SameVisibleAll(c, prev, path, cs[1..]);
    }
  }
}
