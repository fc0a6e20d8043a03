/** The whole way: from an upload's answers to a commit the protocol allows, and from
    any history of the server to a disk with the tree that was backed up. */
module EndToEnd {
  import opened Basics
  import opened Entries
  import opened Tables
  import opened Paths
  import opened Restore
  import GcProtocol
  import Upload
  import Vault
  import Engine
  import Scan
  import Runs
  import RoundTrip
  import FileTree

  // ---------- from the final check to the commit ----------

  /** Since the earlier history the run has done nothing but check. */
  predicate OnlyChecks(before: GcProtocol.Trace, after: GcProtocol.Trace, r: string) {
    after == before
    || (after.Then? && OnlyChecks(before, after.before, r)
        && (after.step.OfRun? && after.step.run == r ==> after.step.runStep.FinalCheck?))
  }

  predicate HasFound(s: GcProtocol.State, r: string, h: string) {
    r in s.runs && s.runs[r].phase.Checked? && h in s.runs[r].phase.hashes
  }

  lemma FoundKept(codec: Codec, grace: int, s: GcProtocol.State, step: GcProtocol.Step, r: string, h: string)
    requires GcProtocol.Enabled(codec, grace, s, step) && HasFound(s, r, h)
    requires step.OfRun? && step.run == r ==> step.runStep.FinalCheck?
    ensures HasFound(GcProtocol.Apply(codec, grace, s, step), r, h)
  {
  }

  lemma {:induction false} FoundStays(
    codec: Codec, grace: int, before: GcProtocol.Trace, after: GcProtocol.Trace, r: string, h: string)
    requires GcProtocol.Possible(codec, grace, before) && GcProtocol.Possible(codec, grace, after)
    requires OnlyChecks(before, after, r) && HasFound(GcProtocol.Last(codec, grace, before), r, h)
    ensures HasFound(GcProtocol.Last(codec, grace, after), r, h)
  {
    if after != before {
      FoundStays(codec, grace, before, after.before, r, h);
      FoundKept(codec, grace, GcProtocol.Last(codec, grace, after.before), after.step, r, h);
    }
  }

  /** The k-th batch of the final check was answered from the tables at some point of the
      history, and the run has only checked since. */
  ghost predicate AnsweredAt(
    codec: Codec, grace: int, at: GcProtocol.Trace, tr: GcProtocol.Trace, r: string,
    reply: Upload.Replies, batch: seq<string>, k: nat)
  {
    && GcProtocol.Possible(codec, grace, at) && OnlyChecks(at, tr, r)
    && at.Then? && at.step == GcProtocol.OfRun(r, GcProtocol.FinalCheck(Upload.Members(batch)))
    && reply(k, batch) == Some(Vault.Absent(GcProtocol.Last(codec, grace, at.before).t, batch))
  }

  ghost predicate Answered(
    codec: Codec, grace: int, tr: GcProtocol.Trace, r: string, reply: Upload.Replies, asked: seq<string>, k: nat)
    requires Upload.IsBatch(asked, k)
  {
    exists at :: AnsweredAt(codec, grace, at, tr, r, reply, Upload.Batch(asked, k), k)
  }

  /** A hash reported present at the final check is one the run has found. */
  lemma PresentIsFound(
    codec: Codec, grace: int, tr: GcProtocol.Trace, r: string, reply: Upload.Replies, asked: seq<string>, h: string)
    requires GcProtocol.Possible(codec, grace, tr) && Upload.ReportedPresent(reply, asked, h)
    requires forall k: nat :: Upload.IsBatch(asked, k) ==> Answered(codec, grace, tr, r, reply, asked, k)
    ensures HasFound(GcProtocol.Last(codec, grace, tr), r, h)
  {
    var k: nat :| Upload.IsBatch(asked, k) && h in Upload.Batch(asked, k)
                  && reply(k, Upload.Batch(asked, k)).Some? && h !in reply(k, Upload.Batch(asked, k)).value;
    assert Answered(codec, grace, tr, r, reply, asked, k);
    var batch := Upload.Batch(asked, k);
    var at :| AnsweredAt(codec, grace, at, tr, r, reply, batch, k);
    var s := GcProtocol.Last(codec, grace, at.before);
    assert h in Upload.Members(batch) && BlobId(s.t.active, h) in s.t.blobs;
    assert HasFound(GcProtocol.Last(codec, grace, at), r, h);
    FoundStays(codec, grace, at, tr, r, h);
  }

  /** When uploadMissing returns without an error, and the final check was answered in
      the history, the manifest is one the protocol lets the run store. */
  lemma UploadAllowsCommit(
    codec: Codec, grace: int, tr: GcProtocol.Trace, r: string,
    before: seq<Entry>, after: seq<Entry>, first: Upload.Replies, last: Upload.Replies,
    outcome: string -> Upload.UploadOutcome, sent: seq<string>, asked: seq<string>, still: set<string>)
    requires Upload.UploadedAll(before, after, first, last, outcome, sent, asked, still) && AllFilesHashed(before)
    requires GcProtocol.Possible(codec, grace, tr)
    requires forall k: nat :: Upload.IsBatch(asked, k) ==> Answered(codec, grace, tr, r, last, asked, k)
    ensures AllFilesHashed(after)
    ensures forall h :: h in FileHashes(after) ==> HasFound(GcProtocol.Last(codec, grace, tr), r, h)
  {
    forall i | 0 <= i < |after| && after[i].kind.FileKind?
      ensures after[i].hash != "" && HasFound(GcProtocol.Last(codec, grace, tr), r, after[i].hash)
    {
      Upload.EveryHashReportedPresent(before, after, first, last, outcome, sent, asked, still, after[i]);
      PresentIsFound(codec, grace, tr, r, last, asked, after[i].hash);
    }
  }

  // ---------- from a committed snapshot to a disk ----------

  /** The agent's view of the server while it restores: manifests and blobs come from the
      active backend. */
  ghost predicate Serves(codec: Codec, t: Tables, w: World) {
    && w.sha256 == codec.sha256 && (forall path :: !w.fails(path))
    && forall h :: w.blob(h) == RoundTrip.ServedBlob(codec, t, h)
  }

  lemma SnapshotStoresTree(codec: Codec, t: Tables, sn: Snapshot, ps: seq<Scan.Place>, w: World)
    requires Restorable(codec, t, sn, Engine.FullEntries(codec.sha256, ps)) && sn.backend == t.active
    requires Serves(codec, t, w)
    requires forall p :: p in ps && p.node.File? ==> codec.sha256(p.node.content) != ""
    ensures RoundTrip.StoredWell(w, ps)
  {
    var entries := Engine.FullEntries(codec.sha256, ps);
    RoundTrip.ManifestOf(codec.sha256, ps);
    RoundTrip.RestorableIsHealthy(codec, t, sn, entries, w);
    forall p | p in ps && p.node.File?
      ensures w.blob(w.sha256(p.node.content)).Some?
      ensures w.sha256(w.blob(w.sha256(p.node.content)).value) == w.sha256(p.node.content)
    {
      var e := Engine.FullEntry(codec.sha256, p)[0];
      assert e in entries && e.kind.FileKind? && e.hash == codec.sha256(p.node.content);
    }
  }

  lemma {:induction false} ChainCommitsTree(sha: Bytes -> string, runs: seq<Runs.Run>)
    requires runs != [] && Runs.Quiet(sha, runs) && runs[|runs| - 1].still == {}
    ensures Runs.Committed(runs) == Engine.FullEntries(sha, Runs.Places(runs[|runs| - 1]))
  {
    Runs.EveryManifestIsFull(sha, runs);
    KeepIfAll(Engine.FullEntries(sha, Runs.Places(runs[|runs| - 1])), Upload.StillThere({}));
  }

  /** In every history the protocol's hypotheses allow: a snapshot whose deletion has not
      begun, and whose manifest a chain of incremental runs committed, gives back the tree
      of the last run, restored into an empty place from its own backend. */
  lemma SnapshotRestoresItsTree(
    codec: Codec, grace: int, tr: GcProtocol.Trace, sn: Snapshot, runs: seq<Runs.Run>,
    w: World, o: Order, trim: string -> string, paths: seq<string>, disk: Progress)
    requires GcProtocol.Possible(codec, grace, tr)
    requires GcProtocol.Always(codec, grace, tr, s => GcProtocol.Assumed(grace, s))
    requires var s := GcProtocol.Last(codec, grace, tr);
             && sn in s.t.snapshots && sn.id !in s.deleting && sn.backend == s.t.active
             && sn.id in s.committed && s.committed[sn.id] == Runs.Committed(runs) && Serves(codec, s.t, w)
    requires runs != [] && Runs.Quiet(codec.sha256, runs) && runs[|runs| - 1].still == {}
    requires var last := runs[|runs| - 1];
             && Clean(last.config.root) && FileTree.WellNamed(last.tree)
             && (!last.tree.Dir? ==> last.config.root != "/") && RoundTrip.Injective(codec.sha256)
             && RoundTrip.NoColonsIn(o.dir, Runs.Places(last))
             && RoundTrip.ReadyFor(disk.disk, o.dir, Selected(trim, paths, Runs.Committed(runs)))
    ensures var s, last := GcProtocol.Last(codec, grace, tr), runs[|runs| - 1];
            var manifest := ReadFrom(codec, s.t, sn.id);
            && manifest.Some?
            && var after := AfterEntries(w, o, disk, Selected(trim, paths, manifest.value));
               RoundTrip.Mirrors(w, o, trim, paths, last.config.root, Runs.Places(last), disk.disk, after.disk)
  {
    var s, last := GcProtocol.Last(codec, grace, tr), runs[|runs| - 1];
    GcProtocol.EverySnapshotRestorable(codec, grace, tr);
    ChainCommitsTree(codec.sha256, runs);
    assert Engine.Readable(last.read, codec.sha256, Runs.Places(last));
    SnapshotStoresTree(codec, s.t, sn, Runs.Places(last), w);
    RoundTrip.RestoreFullManifest(last.config, last.tree, w, o, trim, paths, disk);
  }
}
