/** The server's blob and snapshot handlers, each run without interruption:
    blob check, blob put, snapshot commit, snapshot deletion, retention and
    garbage collection, with storage and database operations that may fail. */
module Vault {
  import opened Basics
  import opened StorageKeys
  import opened Tables
  import opened Retention

  // ---------- what a failing operation leaves ----------

  datatype PutOutcome = PutDone | PutFailed(left: Option<Bytes>)
  datatype DeleteOutcome = DeleteDone | DeleteFailed(gone: bool)
  datatype Reply = Accepted | BadRequest | Forbidden | ServerError

  datatype PutFaults = PutFaults(
    lookupFails: bool, put: PutOutcome, delete: DeleteOutcome, addFails: bool)

  /** `refused`: the job or the run named in the request is not the agent's. */
  datatype CommitFaults = CommitFaults(refused: bool, put: PutOutcome, delete: DeleteOutcome, insertFails: bool)

  /** Reading the row, deleting the manifest, deleting the row. */
  datatype DeleteFaults = DeleteFaults(readFails: bool, delete: DeleteOutcome, rowFails: bool)

  /** Listing the snapshots, fetching the manifests of some, reading the index, and, by
      hash, deleting an object and a row. */
  datatype GcFaults = GcFaults(
    listFails: bool, unreachable: set<string>, indexFails: bool,
    delete: string -> DeleteOutcome, rowFails: string -> bool)

  datatype CheckReply = Missing(hashes: seq<string>) | Refused | CheckFailed

  function Stored(t: Tables, key: ObjectKey, data: Bytes, outcome: PutOutcome): Tables {
    match outcome
    case PutDone => t.Put(key, data)
    case PutFailed(left) => t.Settle(key, left)
  }

  function Deleted(t: Tables, key: ObjectKey, outcome: DeleteOutcome): Tables {
    if outcome == DeleteFailed(false) then t else t.Remove(key)
  }

  // ---------- specification of the handlers ----------

  /** The hashes the index lacks, in the order asked. */
  function Absent(t: Tables, hashes: seq<string>): (missing: seq<string>)
    ensures forall h :: h in missing <==> h in hashes && BlobId(t.active, h) !in t.blobs
  {
    if hashes == [] then []
    else
      var k := |hashes| - 1;
      Absent(t, hashes[..k]) + (if BlobId(t.active, hashes[k]) in t.blobs then [] else [hashes[k]])
  }

  function AfterPut(codec: Codec, t: Tables, hash: string, body: Bytes, f: PutFaults): (Tables, Reply) {
    var key := BlobObject(hash);
    if !IsHash(hash) then (t, BadRequest)
    else if !f.lookupFails && BlobId(t.active, hash) in t.blobs then (t, Accepted)
    else
      var t1 := Stored(t, key, body, f.put);
      if f.put.PutFailed? || !Verified(codec, body, hash) then (Deleted(t1, key, f.delete), BadRequest)
      else if f.addFails then (t1, ServerError)
      else (t1.AddBlob(BlobId(t.active, hash)), Accepted)
  }

  function AfterCommit(t: Tables, id: string, job: string, data: Bytes, f: CommitFaults): (Tables, Reply) {
    var key := ManifestObject(id);
    var t1 := Stored(t, key, data, f.put);
    if f.refused then (t, Forbidden)
    else if f.put.PutFailed? then (t1, ServerError)
    else if f.insertFails then (Deleted(t1, key, f.delete), ServerError)
    else (t1.InsertSnapshot(Snapshot(id, t.active, job, t.clock)), Accepted)
  }

  /** A successful deletion; deleting an unknown id is not an error. */
  function AfterDelete(t: Tables, id: string): Tables {
    if HasRow(t, id)
    then t.Remove(ManifestObject(id)).DeleteSnapshotRow(id)
    else t
  }

  predicate HasRow(t: Tables, id: string) {
    exists sn :: sn in t.snapshots && sn.id == id
  }

  predicate DeleteFails(f: DeleteFaults) {
    f.readFails || f.delete.DeleteFailed? || f.rowFails
  }

  /** A deletion that may fail; the row goes last. */
  function AfterDeletion(t: Tables, id: string, f: DeleteFaults): (Tables, bool) {
    if f.readFails then (t, false)
    else if !HasRow(t, id) then (t, true)
    else
      var t1 := Deleted(t, ManifestObject(id), f.delete);
      if f.delete.DeleteFailed? || f.rowFails then (t1, false) else (t1.DeleteSnapshotRow(id), true)
  }

  /** The rows of one backend, in rowid order. */
  function OfBackend(rows: seq<Snapshot>, backend: string): (r: seq<Snapshot>)
    ensures forall sn :: sn in r <==> sn in rows && sn.backend == backend
  {
    if rows == [] then []
    else (if rows[0].backend == backend then [rows[0]] else []) + OfBackend(rows[1..], backend)
  }

  /** What the mark phase collects, or None if some manifest cannot be read. */
  function Marked(codec: Codec, t: Tables, rows: seq<Snapshot>): Option<set<string>> {
    if rows == [] then Some({})
    else
      var k := |rows| - 1;
      var rest, entries := Marked(codec, t, rows[..k]), ReadFrom(codec, t, rows[k].id);
      if rest.None? || entries.None? then None else Some(rest.value + FileHashes(entries.value))
  }

  function MarkedActive(codec: Codec, t: Tables): Option<set<string>> {
    Marked(codec, t, Listed(OfBackend(t.snapshots, t.active)))
  }

  /** AllBlobs: the active backend's index, by hash. */
  function IndexOf(t: Tables): map<string, int> {
    map id | id in t.blobs && id.backend == t.active :: id.hash := t.blobs[id]
  }

  /** The blobs a complete pass removes: the active backend's unreferenced blobs
      created at or before the cutoff; none when a manifest cannot be read. */
  function Doomed(codec: Codec, grace: int, t: Tables): set<string> {
    match MarkedActive(codec, t)
    case None => {}
    case Some(marked) =>
      set id | id in t.blobs && id.backend == t.active && id.hash !in marked && t.blobs[id] <= t.clock - grace
        :: id.hash
  }

  function BlobObjects(backend: string, hashes: set<string>): set<ObjectId> {
    set h | h in hashes :: ObjectId(backend, BlobObject(h))
  }

  function BlobRows(backend: string, hashes: set<string>): set<BlobId> {
    set h | h in hashes :: BlobId(backend, h)
  }

  function Without(t: Tables, objects: set<string>, rows: set<string>): Tables {
    t.(objects := t.objects - BlobObjects(t.active, objects), blobs := t.blobs - BlobRows(t.active, rows))
  }

  function Swept(codec: Codec, grace: int, t: Tables): Tables {
    Without(t, Doomed(codec, grace, t), Doomed(codec, grace, t))
  }

  /** A pass that failed while sweeping: some doomed blobs are gone, and it stopped at one
      more whose deletion failed, in the store or in the index. */
  ghost predicate PartlySwept(codec: Codec, grace: int, was: Tables, t: Tables, f: GcFaults) {
    exists done, stuck :: SweptTo(codec, grace, was, t, f, done, stuck)
  }

  ghost predicate SweptTo(
    codec: Codec, grace: int, was: Tables, t: Tables, f: GcFaults, done: set<string>, stuck: string)
  {
    && SweepFails(f, stuck) && StopsAt(codec, grace, was, done, stuck)
    && t == Stopped(was, done, stuck, LosesObject(f, stuck))
  }

  predicate StopsAt(codec: Codec, grace: int, was: Tables, done: set<string>, stuck: string) {
    done <= Doomed(codec, grace, was) && stuck in Doomed(codec, grace, was) - done
  }

  /** The blobs in `done` are gone, and the one it stopped at has lost its object or not. */
  function Stopped(was: Tables, done: set<string>, stuck: string, loses: bool): Tables {
    Without(was, if loses then done + {stuck} else done, done)
  }

  /** The object goes unless its deletion fails and leaves it. */
  predicate LosesObject(f: GcFaults, h: string) {
    f.delete(h) != DeleteFailed(false)
  }

  /** ListSnapshots(backend, "", job) for the active backend. */
  function JobRows(t: Tables, job: string): seq<Snapshot> {
    Listed(OfJob(t.snapshots, t.active, job))
  }

  // ---------- the handlers ----------

  class Server {
    const codec: Codec
    var active: string
    var clock: int
    var objects: map<ObjectId, Bytes>
    var blobs: map<BlobId, int>
    var snapshots: seq<Snapshot>

    ghost function State(): Tables
      reads this
    {
      Tables(active, clock, objects, blobs, snapshots)
    }

    constructor (codec: Codec, backend: string, now: int)
      ensures this.codec == codec
      ensures State() == Tables(backend, now, map[], map[], [])
    {
      this.codec, active, clock := codec, backend, now;
      objects, blobs, snapshots := map[], map[], [];
    }

    method PutObject(key: ObjectKey, data: Bytes, outcome: PutOutcome)
      modifies this`objects
      ensures State() == Stored(old(State()), key, data, outcome)
    {
      match outcome {
        case PutDone => objects := objects[ObjectId(active, key) := data];
        case PutFailed(Some(left)) => objects := objects[ObjectId(active, key) := left];
        case PutFailed(None) => objects := objects - {ObjectId(active, key)};
      }
    }

    method DeleteObject(key: ObjectKey, outcome: DeleteOutcome)
      modifies this`objects
      ensures State() == Deleted(old(State()), key, outcome)
    {
      if outcome != DeleteFailed(false) {
        objects := objects - {ObjectId(active, key)};
      }
    }

    method MissingBlobs(hashes: seq<string>) returns (missing: seq<string>)
      ensures missing == Absent(State(), hashes)
    {
      missing := [];
      for i := 0 to |hashes|
        invariant missing == Absent(State(), hashes[..i])
      {
        assert hashes[..i + 1][..i] == hashes[..i];
        if BlobId(active, hashes[i]) !in blobs {
          missing := missing + [hashes[i]];
        }
      }
      assert hashes[..|hashes|] == hashes;
    }

    method HandleBlobCheck(hashes: seq<string>, indexFails: bool) returns (reply: CheckReply)
      ensures reply.Refused? <==> exists h :: h in hashes && !IsHash(h)
      ensures reply.CheckFailed? <==> indexFails && forall h :: h in hashes ==> IsHash(h)
      ensures reply.Missing? ==> reply.hashes == Absent(State(), hashes)
    {
      for i := 0 to |hashes|
        invariant forall h :: h in hashes[..i] ==> IsHash(h)
      {
        if !IsHash(hashes[i]) {
          return Refused;
        }
      }
      if indexFails {
        return CheckFailed;
      }
      var found := MissingBlobs(hashes);
      reply := Missing(found);
    }

    method HandleBlobPut(hash: string, body: Bytes, f: PutFaults) returns (reply: Reply)
      modifies this`objects, this`blobs
      ensures (State(), reply) == AfterPut(codec, old(State()), hash, body, f)
    {
      if !IsHash(hash) {
        return BadRequest;
      }
      if !f.lookupFails && BlobId(active, hash) in blobs {
        return Accepted;
      }
      PutObject(BlobObject(hash), body, f.put);
      var raw := codec.unzstd(body);
      if f.put.PutFailed? || raw.None? {
        DeleteObject(BlobObject(hash), f.delete);
        return BadRequest;
      }
      if codec.sha256(raw.value) != hash {
        DeleteObject(BlobObject(hash), f.delete);
        return BadRequest;
      }
      if f.addFails {
        return ServerError;
      }
      if BlobId(active, hash) !in blobs {
        blobs := blobs[BlobId(active, hash) := clock];
      }
      return Accepted;
    }

    method HandleSnapshotCommit(id: string, job: string, data: Bytes, f: CommitFaults) returns (reply: Reply)
      modifies this`objects, this`snapshots
      ensures (State(), reply) == AfterCommit(old(State()), id, job, data, f)
    {
      if f.refused {
        return Forbidden;
      }
      PutObject(ManifestObject(id), data, f.put);
      if f.put.PutFailed? {
        return ServerError;
      }
      if f.insertFails {
        DeleteObject(ManifestObject(id), f.delete);
        return ServerError;
      }
      snapshots := snapshots + [Snapshot(id, active, job, clock)];
      return Accepted;
    }

    /** On failure the row is still there, and only its manifest can have gone. */
    method DeleteSnapshot(id: string, f: DeleteFaults) returns (ok: bool)
      modifies this`objects, this`snapshots
      ensures (State(), ok) == AfterDeletion(old(State()), id, f)
      ensures ok ==> State() == AfterDelete(old(State()), id)
      ensures !ok ==> State() in {old(State()), old(State()).Remove(ManifestObject(id))}
    {
      if f.readFails {
        return false;
      }
      if !exists sn :: sn in snapshots && sn.id == id {
        return true;
      }
      DeleteObject(ManifestObject(id), f.delete);
      if f.delete.DeleteFailed? || f.rowFails {
        return false;
      }
      snapshots := WithoutId(snapshots, id);
      return true;
    }

    /** The mark phase: fails exactly when the snapshots cannot be listed, or some listed
        manifest cannot be fetched or decoded. */
    method Mark(f: GcFaults) returns (referenced: Option<set<string>>)
      ensures referenced.Some? <==> CanMark(codec, State(), f)
      ensures referenced.Some? ==> referenced == MarkedActive(codec, State())
    {
      if f.listFails {
        return None;
      }
      var rows := Listed(OfBackend(snapshots, active));
      var found: set<string> := {};
      ghost var t := State();
      for i := 0 to |rows|
        invariant Marked(codec, t, rows[..i]) == Some(found)
        invariant ReachedUpTo(f, rows, i)
      {
        MarkedNext(codec, t, rows, i);
        var entries := Fetch(rows[i].id);
        if rows[i].id in f.unreachable || entries.None? {
          MarkStops(codec, t, f, i);
          return None;
        }
        found := found + FileHashes(entries.value);
      }
      assert rows[..|rows|] == rows;
      MarkCompletes(codec, t, f);
      return Some(found);
    }

    /** eachManifestEntry over one manifest that can be reached. */
    method Fetch(id: string) returns (entries: Option<seq<Entry>>)
      ensures entries == ReadFrom(codec, State(), id)
    {
      var o := ObjectId(active, ManifestObject(id));
      if o !in objects {
        return None;
      }
      return codec.readManifest(objects[o]);
    }

    method AllBlobs() returns (all: map<string, int>)
      ensures all == IndexOf(State())
    {
      all := IndexOf(Tables(active, clock, objects, blobs, snapshots));
    }

    /** One turn of the sweep loop for a blob to be removed, after `done`. */
    method SweepOne(hash: string, f: GcFaults, ghost grace: int, ghost was: Tables, ghost done: set<string>)
      returns (ok: bool)
      requires State() == Without(was, done, done)
      requires done <= Doomed(codec, grace, was) && hash in Doomed(codec, grace, was) - done
      modifies this`objects, this`blobs
      ensures ok <==> !SweepFails(f, hash)
      ensures ok ==> State() == Without(was, done + {hash}, done + {hash})
      ensures !ok ==> PartlySwept(codec, grace, was, State(), f)
    {
      RemoveOne(was, done, done, hash);
      RemoveRow(was, done + {hash}, done, hash);
      DeleteObject(BlobObject(hash), f.delete(hash));
      ok := f.delete(hash).DeleteDone? && !f.rowFails(hash);
      if ok {
        blobs := blobs - {BlobId(active, hash)};
      } else {
        assert SweptTo(codec, grace, was, State(), f, done, hash);
      }
    }

    /** Mark and sweep.  Completing removes exactly the doomed blobs, object and row;
        failing before the sweep removes nothing; failing while sweeping removes only
        doomed blobs. */
    method GcBlobs(grace: int, f: GcFaults) returns (outcome: GcOutcome)
      modifies this`objects, this`blobs
      ensures outcome == MarkFailed <==> !CanMark(codec, old(State()), f) || f.indexFails
      ensures outcome == MarkFailed ==> State() == old(State())
      ensures outcome == SweepFailed <==>
              && CanMark(codec, old(State()), f) && !f.indexFails
              && exists h :: h in Doomed(codec, grace, old(State())) && (f.delete(h).DeleteFailed? || f.rowFails(h))
      ensures outcome == SweepFailed ==> PartlySwept(codec, grace, old(State()), State(), f)
      ensures outcome == Completed ==> State() == Swept(codec, grace, old(State()))
    {
      ghost var was := State();
      NothingSwept(was);
      var marked := Mark(f);
      if marked.None? || f.indexFails {
        return MarkFailed;
      }
      var all := AllBlobs();
      var cutoff := clock - grace;
      DoomedIsListed(codec, grace, was);
      var todo := all.Keys;
      ghost var done: set<string> := {};
      while todo != {}
        invariant todo <= all.Keys && done <= Doomed(codec, grace, was)
        invariant done !! todo && Doomed(codec, grace, was) <= done + todo
        invariant forall h :: h in done ==> !SweepFails(f, h)
        invariant State() == Without(was, done, done)
        decreases todo
      {
        var hash :| hash in todo;
        todo := todo - {hash};
        if hash !in marked.value && all[hash] <= cutoff {
          var ok := SweepOne(hash, f, grace, was, done);
          if !ok {
            return SweepFailed;
          }
          done := done + {hash};
        }
      }
      assert done == Doomed(codec, grace, was);
      return Completed;
    }

    /** One deletion of the pruning loop. */
    method PruneOne(job: string, sn: Snapshot, f: DeleteFaults) returns (ok: bool)
      requires UniqueIds(snapshots) && sn in snapshots && sn.backend == active && sn.job == job
      modifies this`objects, this`snapshots
      ensures UniqueIds(snapshots) && (ok <==> !DeleteFails(f))
      ensures ok <==> !f.readFails && f.delete == DeleteDone && !f.rowFails
      ensures JobRows(State(), job) ==
              if ok then WithoutId(JobRows(old(State()), job), sn.id) else JobRows(old(State()), job)
      ensures forall j :: j != job ==> JobRows(State(), j) == JobRows(old(State()), j)
      ensures OnlyPruned(old(State()), State(), if ok then None else Some(sn.id))
    {
      RowDeleted(State(), job, sn);
      ok := DeleteSnapshot(sn.id, f);
    }

    /** One job's pass of pruneRetention over its listing.  It completes exactly when the
        listing and the deletion of every expired row succeed. */
    method PruneJob(j: JobPolicy, f: PruneFaults) returns (ok: bool, ghost stuck: Option<string>)
      requires UniqueIds(snapshots)
      modifies this`objects, this`snapshots
      ensures UniqueIds(snapshots)
      ensures ok <==> CanPrune(old(State()), j, f)
      ensures ok ==> JobPruned(old(State()), State(), j) && stuck == None
      ensures !ok ==> PrunedPart(old(State()), State(), j, f, stuck)
      ensures forall other :: other != j.job ==> JobRows(State(), other) == JobRows(old(State()), other)
      ensures OnlyPruned(old(State()), State(), stuck)
    {
      ghost var was := State();
      stuck := None;
      NothingPruned(was);
      if !HasPolicy(j.policy) {
        return true, None;
      }
      if f.listFails(j.job) {
        return false, None;
      }
      var snaps := Listed(OfJob(snapshots, active, j.job));
      UniqueSublists(snapshots, active, j.job, "");
      for i := 0 to |snaps|
        invariant UniqueIds(snapshots) && stuck == None
        invariant JobRows(State(), j.job) == StoppedAt(j.policy, j.cutoff, snaps, i)
        invariant DeletedUpTo(j, snaps, f, i)
        invariant forall other :: other != j.job ==> JobRows(State(), other) == JobRows(was, other)
        invariant OnlyPruned(was, State(), None)
      {
        DeleteAdvances(j.policy, j.cutoff, snaps, i);
        if !Keeps(j.policy, j.cutoff, i, snaps[i].created) {
          ghost var before := State();
          NextIsListed(before, j, snaps, i);
          ok := PruneOne(j.job, snaps[i], f.delete(snaps[i].id));
          stuck := if ok then None else Some(snaps[i].id);
          PrunedTransitive(was, before, State(), stuck);
          if !ok {
            assert StoppedAtRow(snaps, JobRows(State(), j.job), j, f, snaps[i].id, i);
            return;
          }
        }
      }
      EverythingDeleted(was, j, f, snaps);
      return true, None;
    }

    /** pruneRetention: every listed job by its own policy and cutoff, unless the jobs cannot
        be listed.  The first `reached` jobs are pruned; when it stops there, the next one is
        pruned in part, and the others are as they were. */
    method PruneRetention(jobs: seq<JobPolicy>, f: PruneFaults)
      returns (ok: bool, reached: nat, ghost stuck: Option<string>)
      requires UniqueIds(snapshots)
      requires forall i, j :: 0 <= i < j < |jobs| ==> jobs[i].job != jobs[j].job
      modifies this`objects, this`snapshots
      ensures UniqueIds(snapshots) && reached <= |jobs|
      ensures ok <==> !f.jobsFail && forall i :: 0 <= i < |jobs| ==> CanPrune(old(State()), jobs[i], f)
      ensures f.jobsFail ==> State() == old(State()) && reached == 0
      ensures PrunedUpTo(old(State()), State(), jobs, reached)
      ensures ok ==> reached == |jobs| && stuck == None
      ensures !ok && !f.jobsFail ==> reached < |jobs| && PrunedPart(old(State()), State(), jobs[reached], f, stuck)
      ensures OnlyPruned(old(State()), State(), stuck)
    {
      ghost var was := State();
      reached, stuck := 0, None;
      NothingPruned(was);
      if f.jobsFail {
        return false, 0, None;
      }
      while reached < |jobs|
        invariant UniqueIds(snapshots) && stuck == None
        invariant PassAt(was, State(), jobs, f, reached)
        decreases |jobs| - reached
      {
        ghost var before := State();
        ok, stuck := PruneJob(jobs[reached], f);
        PassNext(was, before, State(), jobs, f, reached, stuck);
        if !ok {
          return;
        }
        reached := reached + 1;
      }
      return true, reached, None;
    }
  }

  // ---------- what the collector can and cannot do ----------

  datatype GcOutcome = Completed | MarkFailed | SweepFailed

  /** The mark phase gets through: every manifest of the active backend is readable. */
  predicate CanMark(codec: Codec, t: Tables, f: GcFaults) {
    && !f.listFails && MarkedActive(codec, t).Some?
    && forall sn :: sn in t.snapshots && sn.backend == t.active ==> sn.id !in f.unreachable
  }

  predicate SweepFails(f: GcFaults, h: string) {
    f.delete(h).DeleteFailed? || f.rowFails(h)
  }

  lemma ActiveRows(t: Tables)
    ensures forall sn :: sn in Listed(OfBackend(t.snapshots, t.active)) <==> sn in t.snapshots && sn.backend == t.active
  {
    var rows := OfBackend(t.snapshots, t.active);
    ListedIsSorted(rows);
    assert forall sn :: sn in Listed(rows) <==> sn in multiset(Listed(rows));
    assert forall sn :: sn in rows <==> sn in multiset(rows);
  }

  lemma {:induction false} MarkedPrefix(codec: Codec, t: Tables, rows: seq<Snapshot>, i: nat)
    requires i <= |rows| && Marked(codec, t, rows[..i]).None?
    ensures Marked(codec, t, rows).None?
  {
    if i < |rows| {
      var k := |rows| - 1;
      assert rows[..k][..i] == rows[..i];
      MarkedPrefix(codec, t, rows[..k], i);
    } else {
      assert rows[..i] == rows;
    }
  }

  lemma MarkedNext(codec: Codec, t: Tables, rows: seq<Snapshot>, i: nat)
    requires i < |rows| && Marked(codec, t, rows[..i]).Some?
    ensures match ReadFrom(codec, t, rows[i].id)
            case None => Marked(codec, t, rows).None?
            case Some(entries) =>
              Marked(codec, t, rows[..i + 1]) == Some(Marked(codec, t, rows[..i]).value + FileHashes(entries))
  {
    assert rows[..i + 1][..i] == rows[..i];
    if Marked(codec, t, rows[..i + 1]).None? {
      MarkedPrefix(codec, t, rows, i + 1);
    }
  }

  predicate ReachedUpTo(f: GcFaults, rows: seq<Snapshot>, i: nat) {
    forall k :: 0 <= k < i && k < |rows| ==> rows[k].id !in f.unreachable
  }

  lemma MarkStops(codec: Codec, t: Tables, f: GcFaults, i: nat)
    requires i < |Listed(OfBackend(t.snapshots, t.active))|
    requires Listed(OfBackend(t.snapshots, t.active))[i].id in f.unreachable || MarkedActive(codec, t).None?
    ensures !CanMark(codec, t, f)
  {
    ActiveRows(t);
    assert Listed(OfBackend(t.snapshots, t.active))[i] in Listed(OfBackend(t.snapshots, t.active));
  }

  lemma MarkCompletes(codec: Codec, t: Tables, f: GcFaults)
    requires !f.listFails && MarkedActive(codec, t).Some?
    requires var rows := Listed(OfBackend(t.snapshots, t.active)); ReachedUpTo(f, rows, |rows|)
    ensures CanMark(codec, t, f)
  {
    ActiveRows(t);
    var rows := Listed(OfBackend(t.snapshots, t.active));
    forall sn | sn in rows
      ensures sn.id !in f.unreachable
    {
      var k :| 0 <= k < |rows| && rows[k] == sn;
    }
  }

  // ---------- what pruning can and cannot do ----------

  /** A job with its retention policy and the cutoff of this pass. */
  datatype JobPolicy = JobPolicy(job: string, policy: Policy, cutoff: int)

  /** Listing the jobs, listing a job's snapshots, and deleting each. */
  datatype PruneFaults = PruneFaults(jobsFail: bool, listFails: string -> bool, delete: string -> DeleteFaults)

  predicate Expired(j: JobPolicy, snaps: seq<Snapshot>, i: int) {
    0 <= i < |snaps| && !Keeps(j.policy, j.cutoff, i, snaps[i].created)
  }

  /** Nothing fails that the job's pass needs. */
  ghost predicate CanPrune(t: Tables, j: JobPolicy, f: PruneFaults) {
    HasPolicy(j.policy) ==>
      && !f.listFails(j.job)
      && forall i :: Expired(j, JobRows(t, j.job), i) ==> !DeleteFails(f.delete(JobRows(t, j.job)[i].id))
  }

  predicate DeletedUpTo(j: JobPolicy, snaps: seq<Snapshot>, f: PruneFaults, i: nat) {
    forall k :: 0 <= k < i && Expired(j, snaps, k) ==> !DeleteFails(f.delete(snaps[k].id))
  }

  lemma NextIsListed(t: Tables, j: JobPolicy, snaps: seq<Snapshot>, i: nat)
    requires i < |snaps| && JobRows(t, j.job) == StoppedAt(j.policy, j.cutoff, snaps, i)
    ensures snaps[i] in t.snapshots && snaps[i].backend == t.active && snaps[i].job == j.job
  {
    ListedRows(t, j.job);
    assert StoppedAt(j.policy, j.cutoff, snaps, i)[|KeptFrom(j.policy, j.cutoff, snaps[..i], 0)|] == snaps[i];
  }

  lemma EverythingDeleted(t: Tables, j: JobPolicy, f: PruneFaults, snaps: seq<Snapshot>)
    requires snaps == JobRows(t, j.job) && DeletedUpTo(j, snaps, f, |snaps|) && !f.listFails(j.job)
    ensures CanPrune(t, j, f)
    ensures HasPolicy(j.policy) ==>
              StoppedAt(j.policy, j.cutoff, snaps, |snaps|) == Prune(j.policy, j.cutoff, snaps)
  {
    assert snaps[..|snaps|] == snaps && snaps[|snaps|..] == [];
  }

  ghost predicate JobPruned(was: Tables, t: Tables, j: JobPolicy) {
    JobRows(t, j.job) == Prune(j.policy, j.cutoff, JobRows(was, j.job))
  }

  /** The pass stopped before its first deletion, or at the expired row whose deletion
      failed, all expired rows before it being gone. */
  ghost predicate PrunedPart(was: Tables, t: Tables, j: JobPolicy, f: PruneFaults, stuck: Option<string>) {
    var snaps := JobRows(was, j.job);
    if stuck.None? then f.listFails(j.job) && JobRows(t, j.job) == snaps
    else exists k: nat :: StoppedAtRow(snaps, JobRows(t, j.job), j, f, stuck.value, k)
  }

  predicate StoppedAtRow(
    snaps: seq<Snapshot>, left: seq<Snapshot>, j: JobPolicy, f: PruneFaults, stuck: string, k: nat)
  {
    && Expired(j, snaps, k) && snaps[k].id == stuck && DeleteFails(f.delete(stuck))
    && left == StoppedAt(j.policy, j.cutoff, snaps, k)
  }

  /** The first jobs are pruned; the rows of jobs not listed, and of all but the next of
      the others, have not changed. */
  ghost predicate PrunedUpTo(was: Tables, t: Tables, jobs: seq<JobPolicy>, i: nat)
    requires i <= |jobs|
  {
    && (forall k :: 0 <= k < i ==> JobPruned(was, t, jobs[k]))
    && (forall k :: i < k < |jobs| ==> JobRows(t, jobs[k].job) == JobRows(was, jobs[k].job))
    && (forall job :: NotAmong(jobs, job) ==> JobRows(t, job) == JobRows(was, job))
  }

  predicate NotAmong(jobs: seq<JobPolicy>, job: string) {
    forall k :: 0 <= k < |jobs| ==> jobs[k].job != job
  }

  lemma PrunedNext(was: Tables, before: Tables, after: Tables, jobs: seq<JobPolicy>, i: nat)
    requires i < |jobs| && PrunedUpTo(was, before, jobs, i)
    requires JobRows(before, jobs[i].job) == JobRows(was, jobs[i].job)
    requires forall j, k :: 0 <= j < k < |jobs| ==> jobs[j].job != jobs[k].job
    requires forall job :: job != jobs[i].job ==> JobRows(after, job) == JobRows(before, job)
    ensures PrunedUpTo(was, after, jobs, i)
    ensures JobPruned(before, after, jobs[i]) ==> PrunedUpTo(was, after, jobs, i + 1)
    ensures forall k :: i < k < |jobs| ==> JobRows(after, jobs[k].job) == JobRows(was, jobs[k].job)
  {
    forall k | 0 <= k < i
      ensures JobPruned(was, after, jobs[k])
    {
      assert JobPruned(was, before, jobs[k]);
    }
  }

  /** Where the pass over the jobs stands after the first i. */
  ghost predicate PassAt(was: Tables, t: Tables, jobs: seq<JobPolicy>, f: PruneFaults, i: nat) {
    && i <= |jobs| && PrunedUpTo(was, t, jobs, i) && OnlyPruned(was, t, None)
    && (forall k :: i <= k < |jobs| ==> JobRows(t, jobs[k].job) == JobRows(was, jobs[k].job))
    && (forall k :: 0 <= k < i ==> CanPrune(was, jobs[k], f))
  }

  /** One more job's pass, whether it completes or not. */
  lemma PassNext(
    was: Tables, before: Tables, after: Tables, jobs: seq<JobPolicy>, f: PruneFaults, i: nat, stuck: Option<string>)
    requires PassAt(was, before, jobs, f, i) && i < |jobs| && OnlyPruned(before, after, stuck)
    requires forall j, k :: 0 <= j < k < |jobs| ==> jobs[j].job != jobs[k].job
    requires forall job :: job != jobs[i].job ==> JobRows(after, job) == JobRows(before, job)
    ensures PrunedUpTo(was, after, jobs, i) && OnlyPruned(was, after, stuck)
    ensures CanPrune(before, jobs[i], f) <==> CanPrune(was, jobs[i], f)
    ensures PrunedPart(before, after, jobs[i], f, stuck) ==> PrunedPart(was, after, jobs[i], f, stuck)
    ensures JobPruned(before, after, jobs[i]) && CanPrune(before, jobs[i], f) && stuck == None ==>
              PassAt(was, after, jobs, f, i + 1)
  {
    PrunedTransitive(was, before, after, stuck);
    PrunedNext(was, before, after, jobs, i);
    SameRows(was, before, after, jobs[i], f, stuck);
    if JobPruned(before, after, jobs[i]) && CanPrune(before, jobs[i], f) && stuck == None {
      assert forall k :: 0 <= k < i + 1 ==> CanPrune(was, jobs[k], f);
    }
  }

  lemma SameRows(was: Tables, before: Tables, after: Tables, j: JobPolicy, f: PruneFaults, stuck: Option<string>)
    requires JobRows(before, j.job) == JobRows(was, j.job)
    ensures CanPrune(before, j, f) <==> CanPrune(was, j, f)
    ensures PrunedPart(before, after, j, f, stuck) <==> PrunedPart(was, after, j, f, stuck)
  {
  }

  /** The object is the manifest of a snapshot that had a row in the active backend. */
  ghost predicate IsListedManifest(t: Tables, o: ObjectId) {
    && o.backend == t.active && o.key.ManifestObject?
    && exists sn :: sn in t.snapshots && sn.backend == t.active && sn.id == o.key.id
  }

  /** Rows are only deleted; of the objects only manifests of active rows go, and the row
      of such a manifest is gone as well, save the one where a deletion got stuck. */
  ghost predicate OnlyPruned(was: Tables, t: Tables, stuck: Option<string>) {
    && t.(objects := was.objects, snapshots := was.snapshots) == was
    && (forall o :: o in t.objects ==> o in was.objects && t.objects[o] == was.objects[o])
    && (forall o :: o in was.objects && o !in t.objects ==> IsListedManifest(was, o))
    && (forall sn :: sn in t.snapshots ==> sn in was.snapshots)
    && (forall o, sn :: o in was.objects && o !in t.objects && sn in t.snapshots && sn.id == o.key.id ==>
          stuck == Some(sn.id))
  }

  lemma NothingPruned(t: Tables)
    ensures OnlyPruned(t, t, None)
  {
  }

  lemma PrunedTransitive(a: Tables, b: Tables, c: Tables, stuck: Option<string>)
    requires OnlyPruned(a, b, None) && OnlyPruned(b, c, stuck)
    ensures OnlyPruned(a, c, stuck)
  {
    forall o | o in a.objects && o !in c.objects
      ensures IsListedManifest(a, o)
    {
      if o in b.objects {
        assert IsListedManifest(b, o);
      }
    }
  }

  lemma ListedRows(t: Tables, job: string)
    ensures forall sn :: sn in JobRows(t, job) <==> sn in t.snapshots && sn.backend == t.active && sn.job == job
  {
    ListedIsSorted(OfJob(t.snapshots, t.active, job));
    assert forall sn :: sn in JobRows(t, job) <==> sn in multiset(JobRows(t, job));
    assert forall sn :: sn in OfJob(t.snapshots, t.active, job) <==> sn in multiset(OfJob(t.snapshots, t.active, job));
  }

  /** Deleting a listed row takes it out of its job's listing and no other. */
  lemma RowDeleted(t: Tables, job: string, sn: Snapshot)
    requires UniqueIds(t.snapshots) && sn in t.snapshots && sn.backend == t.active && sn.job == job
    ensures UniqueIds(AfterDelete(t, sn.id).snapshots)
    ensures JobRows(AfterDelete(t, sn.id), job) == WithoutId(JobRows(t, job), sn.id)
    ensures forall j :: j != job ==> JobRows(AfterDelete(t, sn.id), j) == JobRows(t, j)
    ensures OnlyPruned(t, AfterDelete(t, sn.id), None)
    ensures OnlyPruned(t, t, Some(sn.id)) && OnlyPruned(t, t.Remove(ManifestObject(sn.id)), Some(sn.id))
  {
    DeletionPrunes(t, sn);
    RowTakenOut(t, job, sn);
  }

  lemma DeletionPrunes(t: Tables, sn: Snapshot)
    requires UniqueIds(t.snapshots) && sn in t.snapshots && sn.backend == t.active
    ensures OnlyPruned(t, AfterDelete(t, sn.id), None)
    ensures OnlyPruned(t, t, Some(sn.id)) && OnlyPruned(t, t.Remove(ManifestObject(sn.id)), Some(sn.id))
  {
    assert IsListedManifest(t, ObjectId(t.active, ManifestObject(sn.id)));
  }

  lemma RowTakenOut(t: Tables, job: string, sn: Snapshot)
    requires UniqueIds(t.snapshots) && sn in t.snapshots && sn.backend == t.active && sn.job == job
    ensures UniqueIds(AfterDelete(t, sn.id).snapshots)
    ensures JobRows(AfterDelete(t, sn.id), job) == WithoutId(JobRows(t, job), sn.id)
    ensures forall j :: j != job ==> JobRows(AfterDelete(t, sn.id), j) == JobRows(t, j)
  {
    UniqueSublists(t.snapshots, t.active, job, sn.id);
    forall j
      ensures JobRows(AfterDelete(t, sn.id), j) == WithoutId(JobRows(t, j), sn.id)
      ensures j != job ==> JobRows(AfterDelete(t, sn.id), j) == JobRows(t, j)
    {
      WithoutIdOfJob(t.snapshots, t.active, j, sn.id);
      WithoutIdListed(OfJob(t.snapshots, t.active, j), sn.id);
      ListedRows(t, j);
      if j != job {
        WithoutIdAbsent(JobRows(t, j), sn.id);
      }
    }
  }

  // ---------- the algebra of a sweep ----------

  lemma NothingSwept(t: Tables)
    ensures t == Without(t, {}, {})
  {
  }

  lemma RemoveOne(t: Tables, objects: set<string>, rows: set<string>, h: string)
    ensures Without(t, objects, rows).Remove(BlobObject(h)) == Without(t, objects + {h}, rows)
  {
    assert BlobObjects(t.active, objects + {h}) == BlobObjects(t.active, objects) + {ObjectId(t.active, BlobObject(h))};
  }

  lemma RemoveRow(t: Tables, objects: set<string>, rows: set<string>, h: string)
    ensures Without(t, objects, rows).DeleteBlob(BlobId(t.active, h)) == Without(t, objects, rows + {h})
  {
    assert BlobRows(t.active, rows + {h}) == BlobRows(t.active, rows) + {BlobId(t.active, h)};
  }

  lemma DoomedIsListed(codec: Codec, grace: int, t: Tables)
    requires MarkedActive(codec, t).Some?
    ensures var marked, all := MarkedActive(codec, t).value, IndexOf(t);
            forall h :: h in Doomed(codec, grace, t) <==> h in all && h !in marked && all[h] <= t.clock - grace
  {
    assert forall h :: h in IndexOf(t) ==>
             BlobId(t.active, h) in t.blobs && IndexOf(t)[h] == t.blobs[BlobId(t.active, h)];
  }
}
