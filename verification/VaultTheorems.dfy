/** What the handlers of Vault keep, over one call and over whole sequences. */
module VaultTheorems {
  import opened Basics
  import opened StorageKeys
  import opened Tables
  import opened Retention
  import opened Vault

  // ---------- one collection ----------

  lemma {:induction false} MarkedIs(codec: Codec, t: Tables, rows: seq<Snapshot>)
    requires Marked(codec, t, rows).Some?
    ensures forall sn :: sn in rows ==> ReadFrom(codec, t, sn.id).Some?
    ensures forall h :: h in Marked(codec, t, rows).value <==>
              exists sn :: sn in rows && Names(codec, t, sn, h)
  {
    if rows != [] {
      var k := |rows| - 1;
      MarkedIs(codec, t, rows[..k]);
      assert rows == rows[..k] + [rows[k]];
      assert forall h :: h in FileHashes(ReadFrom(codec, t, rows[k].id).value) <==> Names(codec, t, rows[k], h);
    }
  }

  lemma {:induction false} AllReadableIsMarked(codec: Codec, t: Tables, rows: seq<Snapshot>)
    requires forall sn :: sn in rows ==> ReadFrom(codec, t, sn.id).Some?
    ensures Marked(codec, t, rows).Some?
  {
    if rows != [] {
      AllReadableIsMarked(codec, t, rows[..|rows| - 1]);
    }
  }

  /** The mark phase gets through exactly when the snapshots can be listed and every one of
      the active backend has a manifest that can be fetched and decoded. */
  lemma CanMarkIff(codec: Codec, t: Tables, f: GcFaults)
    ensures CanMark(codec, t, f) <==>
            !f.listFails && forall sn :: sn in t.snapshots && sn.backend == t.active ==>
                              sn.id !in f.unreachable && ReadFrom(codec, t, sn.id).Some?
  {
    ActiveRows(t);
    var rows := Listed(OfBackend(t.snapshots, t.active));
    if MarkedActive(codec, t).Some? {
      MarkedIs(codec, t, rows);
    } else if forall sn :: sn in rows ==> ReadFrom(codec, t, sn.id).Some? {
      AllReadableIsMarked(codec, t, rows);
      assert false;
    }
  }

  /** The snapshot's manifest in the active backend lists a file with this hash. */
  predicate Names(codec: Codec, t: Tables, sn: Snapshot, h: string) {
    ReadFrom(codec, t, sn.id).Some? && h in FileHashes(ReadFrom(codec, t, sn.id).value)
  }

  ghost predicate ReferencedIn(codec: Codec, t: Tables, h: string) {
    exists sn :: sn in t.snapshots && sn.backend == t.active && Names(codec, t, sn, h)
  }

  /** A collection that could read every manifest removes a blob, object and row,
      if and only if it belongs to the active backend, no snapshot of that backend
      names it, and it was created at or before the cutoff.  Nothing else changes. */
  lemma SweepIsExact(codec: Codec, grace: int, t: Tables)
    requires MarkedActive(codec, t).Some?
    ensures var s := Swept(codec, grace, t);
            && s.(objects := t.objects, blobs := t.blobs) == t
            && (forall id :: id in s.blobs ==> id in t.blobs && s.blobs[id] == t.blobs[id])
            && (forall id :: id in t.blobs ==>
                  (id !in s.blobs <==> id.backend == t.active && !ReferencedIn(codec, t, id.hash)
                                       && t.blobs[id] <= t.clock - grace))
            && (forall o :: o in s.objects ==> o in t.objects && s.objects[o] == t.objects[o])
            && (forall o :: o in t.objects ==>
                  (o !in s.objects <==> o.key.BlobObject? && BlobId(o.backend, o.key.hash) in t.blobs
                                        && BlobId(o.backend, o.key.hash) !in s.blobs))
  {
    var rows := Listed(OfBackend(t.snapshots, t.active));
    MarkedIs(codec, t, rows);
    ActiveRows(t);
    assert forall id :: id in BlobRows(t.active, Doomed(codec, grace, t)) <==>
                        id.backend == t.active && id.hash in Doomed(codec, grace, t);
    assert forall o :: o in BlobObjects(t.active, Doomed(codec, grace, t)) <==>
                       o.backend == t.active && o.key.BlobObject? && o.key.hash in Doomed(codec, grace, t);
  }

  /** Even a collection that fails part-way leaves every referenced blob alone,
      and every blob that still has its row, save at most one, its object. */
  lemma FailedSweepSparesReferenced(
    codec: Codec, grace: int, was: Tables, t: Tables, f: GcFaults, id: BlobId)
    requires PartlySwept(codec, grace, was, t, f)
    requires id in was.blobs && GoodBlob(codec, was, id)
    requires id.backend != was.active || ReferencedIn(codec, was, id.hash) || was.blobs[id] > was.clock - grace
    ensures id in t.blobs && GoodBlob(codec, t, id)
  {
    if MarkedActive(codec, was).Some? {
      MarkedIs(codec, was, Listed(OfBackend(was.snapshots, was.active)));
      ActiveRows(was);
    }
  }

  /** The missing hashes are reported in the order they were asked, as often as asked. */
  lemma AbsentNext(t: Tables, a: seq<string>, h: string)
    ensures Absent(t, a + [h]) == if BlobId(t.active, h) in t.blobs then Absent(t, a) else Absent(t, a) + [h]
    ensures Absent(t, []) == []
  {
    assert (a + [h])[..|a|] == a;
  }

  // ---------- every indexed blob is stored, with the right content ----------

  ghost predicate Sound(codec: Codec, t: Tables) {
    forall id :: id in t.blobs ==> GoodBlob(codec, t, id)
  }

  /** What the key holds when a put that did not accept its body is over. */
  predicate LeftGood(codec: Codec, hash: string, body: Bytes, f: PutFaults) {
    match f.put
    case PutDone => Verified(codec, body, hash)
    case PutFailed(left) => f.delete == DeleteFailed(false) && left.Some? && Verified(codec, left.value, hash)
  }

  /** A put keeps the index sound unless the index lookup failed (its error is
      ignored) for a blob that is indexed, and the upload then went wrong. */
  lemma PutKeepsSoundIff(codec: Codec, t: Tables, hash: string, body: Bytes, f: PutFaults)
    requires Sound(codec, t)
    ensures Sound(codec, AfterPut(codec, t, hash, body, f).0) <==>
            !(IsHash(hash) && f.lookupFails && BlobId(t.active, hash) in t.blobs && !LeftGood(codec, hash, body, f))
  {
    var id := BlobId(t.active, hash);
    var t' := AfterPut(codec, t, hash, body, f).0;
    assert forall other :: other in t.blobs && other != id ==>
             (GoodBlob(codec, t', other) <==> GoodBlob(codec, t, other));
  }

  /** What a put can do to the tables: index its own hash, with the current time and
      verified content, and only when accepted; touch its own object; and leave no
      object behind when it is rejected and the clean-up works. */
  lemma PutEffects(codec: Codec, t: Tables, hash: string, body: Bytes, f: PutFaults)
    ensures var (t', reply) := AfterPut(codec, t, hash, body, f);
            var id, o := BlobId(t.active, hash), ObjectId(t.active, BlobObject(hash));
            && t'.(objects := t.objects, blobs := t.blobs) == t
            && (forall b :: b in t.blobs ==> b in t'.blobs && t'.blobs[b] == t.blobs[b])
            && (forall b :: b in t'.blobs && b !in t.blobs ==>
                  b == id && reply == Accepted && Verified(codec, body, hash) && t'.blobs[b] == t.clock)
            && (forall p :: p != o ==>
                  (p in t'.objects <==> p in t.objects) && (p in t.objects ==> t'.objects[p] == t.objects[p]))
            && (reply == BadRequest && IsHash(hash) && f.delete == DeleteDone ==> o !in t'.objects)
            && (reply == Accepted ==> IsHash(hash))
  {
  }

  /** The blob was not found indexed, be it that it is not or that the lookup failed, so
      its body is stored and looked at. */
  predicate GoesAhead(t: Tables, hash: string, f: PutFaults) {
    BlobId(t.active, hash) in t.blobs ==> f.lookupFails
  }

  /** Which reply a put gets, and what it leaves of the blob.  A hash found indexed is
      accepted without a look at the body, and nothing changes; otherwise acceptance takes a
      completed upload of content with that hash and a working index. */
  lemma PutReplies(codec: Codec, t: Tables, hash: string, body: Bytes, f: PutFaults)
    ensures var (t', reply) := AfterPut(codec, t, hash, body, f);
            var o := ObjectId(t.active, BlobObject(hash));
            var good := f.put == PutDone && Verified(codec, body, hash);
            && (reply == Accepted <==> IsHash(hash) && (GoesAhead(t, hash, f) ==> good && !f.addFails))
            && (reply == ServerError <==> IsHash(hash) && GoesAhead(t, hash, f) && good && f.addFails)
            && (reply == BadRequest <==> !IsHash(hash) || (GoesAhead(t, hash, f) && !good))
            && (!IsHash(hash) || !GoesAhead(t, hash, f) ==> t' == t)
            && (IsHash(hash) && GoesAhead(t, hash, f) && good ==> o in t'.objects && t'.objects[o] == body)
            && (reply == Accepted ==> BlobId(t.active, hash) in t'.blobs)
  {
  }

  /** What a rejected put leaves at its key: nothing, unless the clean-up fails and leaves
      the body that was stored, or what a failed upload left there. */
  lemma RejectedPutLeaves(codec: Codec, t: Tables, hash: string, body: Bytes, f: PutFaults)
    requires IsHash(hash) && GoesAhead(t, hash, f) && !(f.put == PutDone && Verified(codec, body, hash))
    ensures var o, left := ObjectId(t.active, BlobObject(hash)), AfterPut(codec, t, hash, body, f).0.objects;
            if f.delete != DeleteFailed(false) then o !in left
            else match f.put
              case PutDone => o in left && left[o] == body
              case PutFailed(None) => o !in left
              case PutFailed(Some(part)) => o in left && left[o] == part
  {
  }

  /** Which reply a commit gets: a job or run of another agent is turned down, and nothing
      else but a failing upload or insert keeps it from being accepted. */
  lemma CommitReplies(t: Tables, id: string, job: string, data: Bytes, f: CommitFaults)
    ensures var reply := AfterCommit(t, id, job, data, f).1;
            && (reply == Forbidden <==> f.refused)
            && (reply == Accepted <==> !f.refused && f.put == PutDone && !f.insertFails)
            && (reply == ServerError <==> !f.refused && (f.put != PutDone || f.insertFails))
  {
  }

  /** What deleting a snapshot does: it succeeds when there is no such row, or when nothing
      it needs fails; then manifest and row are gone.  Other rows keep their order, other
      objects their content. */
  lemma DeletionEffects(t: Tables, id: string, f: DeleteFaults)
    ensures var (t', ok) := AfterDeletion(t, id, f);
            var known := exists sn :: sn in t.snapshots && sn.id == id;
            var o := ObjectId(t.active, ManifestObject(id));
            && (ok <==> !f.readFails && (known ==> f.delete == DeleteDone && !f.rowFails))
            && (ok && known ==> o !in t'.objects)
            && (ok && known ==> forall sn :: sn in t'.snapshots <==> sn in t.snapshots && sn.id != id)
            && (!ok || !known ==> t'.snapshots == t.snapshots)
            && (f.readFails || !known ==> t' == t)
            && (!f.readFails && known && f.delete == DeleteFailed(false) ==> t' == t)
            && (!f.readFails && known && f.delete == DeleteFailed(true) ==> o !in t'.objects)
            && t'.(objects := t.objects, snapshots := t.snapshots) == t
            && (forall p :: p != o ==>
                  (p in t'.objects <==> p in t.objects) && (p in t.objects ==> t'.objects[p] == t.objects[p]))
  {
  }

  /** What a commit can do: add one row, of the active backend, with the manifest it
      was sent, and only when accepted; otherwise no row, and no manifest either when
      the clean-up works. */
  lemma CommitEffects(t: Tables, id: string, job: string, data: Bytes, f: CommitFaults)
    ensures var (t', reply) := AfterCommit(t, id, job, data, f);
            var o := ObjectId(t.active, ManifestObject(id));
            && t'.(objects := t.objects, snapshots := t.snapshots) == t
            && t'.snapshots == t.snapshots + (if reply == Accepted then [Snapshot(id, t.active, job, t.clock)] else [])
            && (forall p :: p != o ==>
                  (p in t'.objects <==> p in t.objects) && (p in t.objects ==> t'.objects[p] == t.objects[p]))
            && (reply == Accepted ==> o in t'.objects && t'.objects[o] == data)
            && (reply == Forbidden ==> t' == t)
            && (reply == ServerError && f.put.PutDone? && f.delete != DeleteFailed(false) ==> o !in t'.objects)
            && (reply == ServerError && f.put.PutFailed? ==>
                  if f.put.left.None? then o !in t'.objects else o in t'.objects && t'.objects[o] == f.put.left.value)
  {
  }

  /** An accepted put of a well-formed hash leaves it indexed. */
  lemma AcceptedPutIndexes(codec: Codec, t: Tables, hash: string, body: Bytes, f: PutFaults)
    requires Sound(codec, t) && AfterPut(codec, t, hash, body, f).1 == Accepted
    ensures var t' := AfterPut(codec, t, hash, body, f).0;
            BlobId(t.active, hash) in t'.blobs && GoodBlob(codec, t', BlobId(t.active, hash))
  {
  }

  /** A sweep that stops keeps the index sound exactly when the deletion it stopped at
      failed in the store and left the object.  Otherwise, be it that the object went all
      the same or that the row's deletion failed, a later run is told the blob is present. */
  lemma StoppedSweepSoundIff(
    codec: Codec, grace: int, was: Tables, t: Tables, f: GcFaults, done: set<string>, stuck: string)
    requires Sound(codec, was) && SweptTo(codec, grace, was, t, f, done, stuck)
    ensures Sound(codec, t) <==> f.delete(stuck) == DeleteFailed(false)
  {
    StoppedSoundIff(codec, grace, was, done, stuck, LosesObject(f, stuck));
  }

  lemma StoppedSoundIff(codec: Codec, grace: int, was: Tables, done: set<string>, stuck: string, loses: bool)
    requires Sound(codec, was) && StopsAt(codec, grace, was, done, stuck)
    ensures Sound(codec, Stopped(was, done, stuck, loses)) <==> !loses
  {
    var t, id := Stopped(was, done, stuck, loses), BlobId(was.active, stuck);
    if loses {
      assert id in t.blobs && !GoodBlob(codec, t, id);
    }
  }

  /** The handlers' calls.  A collection completes, or fails before it deletes anything,
      which is no operation, or stops at some doomed blob after some others. */
  datatype Op =
    | PutOp(hash: string, body: Bytes, putFaults: PutFaults)
    | CommitOp(id: string, job: string, data: Bytes, commitFaults: CommitFaults)
    | DeleteOp(id: string, deleteFaults: DeleteFaults)
    | GcOp
    | StoppedGcOp(done: set<string>, stuck: string, loses: bool)
    | TickOp(seconds: nat)
    | SwitchOp(backend: string)

  function After(codec: Codec, grace: int, t: Tables, op: Op): Tables {
    match op
    case PutOp(hash, body, f) => AfterPut(codec, t, hash, body, f).0
    case CommitOp(id, job, data, f) => AfterCommit(t, id, job, data, f).0
    case DeleteOp(id, f) => AfterDeletion(t, id, f).0
    case GcOp => Swept(codec, grace, t)
    case StoppedGcOp(done, stuck, loses) =>
      if StopsAt(codec, grace, t, done, stuck) then Stopped(t, done, stuck, loses) else t
    case TickOp(d) => t.(clock := t.clock + d)
    case SwitchOp(b) => t.(active := b)
  }

  function AfterAll(codec: Codec, grace: int, t: Tables, ops: seq<Op>): Tables {
    if ops == [] then t
    else After(codec, grace, AfterAll(codec, grace, t, ops[..|ops| - 1]), ops[|ops| - 1])
  }

  /** What GcBlobs leaves when it stops is what such an operation leaves. */
  lemma StoppedIsOp(codec: Codec, grace: int, was: Tables, t: Tables, f: GcFaults) returns (op: Op)
    requires PartlySwept(codec, grace, was, t, f)
    ensures op.StoppedGcOp? && SweepFails(f, op.stuck) && op.loses == LosesObject(f, op.stuck)
    ensures After(codec, grace, was, op) == t
  {
    var done, stuck :| SweptTo(codec, grace, was, t, f, done, stuck);
    op := StoppedGcOp(done, stuck, LosesObject(f, stuck));
  }

  /** The guards that fail.  The index lookup errs for a blob that is indexed, the put goes
      ahead all the same, and what it leaves at the key is not good; or a collection stops
      at a blob that has lost its object. */
  predicate Harms(codec: Codec, grace: int, t: Tables, op: Op) {
    match op
    case PutOp(hash, body, f) =>
      IsHash(hash) && f.lookupFails && BlobId(t.active, hash) in t.blobs && !LeftGood(codec, hash, body, f)
    case StoppedGcOp(done, stuck, loses) => StopsAt(codec, grace, t, done, stuck) && loses
    case _ => false
  }

  lemma OpKeepsSoundIff(codec: Codec, grace: int, t: Tables, op: Op)
    requires Sound(codec, t)
    ensures Sound(codec, After(codec, grace, t, op)) <==> !Harms(codec, grace, t, op)
  {
    match op
    case PutOp(hash, body, f) => PutKeepsSoundIff(codec, t, hash, body, f);
    case StoppedGcOp(done, stuck, loses) =>
      if StopsAt(codec, grace, t, done, stuck) {
        StoppedSoundIff(codec, grace, t, done, stuck, loses);
      }
    case _ =>
  }

  ghost predicate AlwaysSound(codec: Codec, grace: int, t: Tables, ops: seq<Op>) {
    && Sound(codec, AfterAll(codec, grace, t, ops))
    && (ops != [] ==> AlwaysSound(codec, grace, t, ops[..|ops| - 1]))
  }

  ghost predicate NeverHarmed(codec: Codec, grace: int, t: Tables, ops: seq<Op>) {
    ops != [] ==>
      && NeverHarmed(codec, grace, t, ops[..|ops| - 1])
      && !Harms(codec, grace, AfterAll(codec, grace, t, ops[..|ops| - 1]), ops[|ops| - 1])
  }

  /** Under any sequence of puts (good, mismatched, failing, repeated, with or without a
      working index lookup), commits, deletions, collections (completed or stopped
      anywhere), clock steps and backend switches, every backend's index stays sound
      throughout if and only if no put went ahead on a failed lookup for an indexed blob and
      then left bad content, and no collection stopped at a blob that had lost its object. */
  lemma {:induction false} AlwaysSoundIff(codec: Codec, grace: int, t: Tables, ops: seq<Op>)
    requires Sound(codec, t)
    ensures AlwaysSound(codec, grace, t, ops) <==> NeverHarmed(codec, grace, t, ops)
  {
    if ops != [] {
      var k := |ops| - 1;
      AlwaysSoundIff(codec, grace, t, ops[..k]);
      if AlwaysSound(codec, grace, t, ops[..k]) {
        OpKeepsSoundIff(codec, grace, AfterAll(codec, grace, t, ops[..k]), ops[k]);
      }
    }
  }

  // ---------- retention ----------

  /** A job's pass completes exactly when it has no policy, or its snapshots can be listed
      and every one that pruning does not keep can be deleted. */
  lemma CanPruneIff(t: Tables, j: JobPolicy, f: PruneFaults)
    requires UniqueIds(t.snapshots)
    ensures var rows := JobRows(t, j.job);
            CanPrune(t, j, f) <==>
            (j.policy.keepLast > 0 || j.policy.keepDays > 0 ==>
               && !f.listFails(j.job)
               && forall sn :: sn in rows && sn !in Prune(j.policy, j.cutoff, rows) ==>
                    var d := f.delete(sn.id); !d.readFails && d.delete == DeleteDone && !d.rowFails)
  {
    var rows := JobRows(t, j.job);
    if j.policy.keepLast > 0 || j.policy.keepDays > 0 {
      UniqueSublists(t.snapshots, t.active, j.job, "");
      ListedIsSorted(OfJob(t.snapshots, t.active, j.job));
      ExpiredAre(j, rows);
    }
  }

  lemma ExpiredAre(j: JobPolicy, rows: seq<Snapshot>)
    requires NewestFirst(rows) && UniqueIds(rows) && HasPolicy(j.policy)
    ensures forall i :: 0 <= i < |rows| ==> (Expired(j, rows, i) <==> rows[i] !in Prune(j.policy, j.cutoff, rows))
  {
    var n := PruneIsPrefix(j.policy, j.cutoff, rows);
    forall i | 0 <= i < |rows|
      ensures rows[i] in rows[..n] <==> i < n
    {
      IdOnlyAt(rows, i);
      if i < n {
        assert rows[..n][i] == rows[i];
      } else {
        assert rows[..n] <= rows[..i];
        assert forall k :: 0 <= k < n ==> rows[..n][k] == rows[..i][k];
      }
    }
  }

  /** Where a stopped pass stands: the snapshot it stopped at is still listed and should go;
      nothing that pruning keeps has gone; and the next complete pass ends where this one
      should have. */
  lemma StoppedPassIsPart(was: Tables, t: Tables, j: JobPolicy, f: PruneFaults, stuck: string)
    requires UniqueIds(was.snapshots) && HasPolicy(j.policy) && PrunedPart(was, t, j, f, Some(stuck))
    ensures var rows, left := JobRows(was, j.job), JobRows(t, j.job);
            && (exists sn :: sn in left && sn.id == stuck && sn !in Prune(j.policy, j.cutoff, rows))
            && (f.delete(stuck).readFails || f.delete(stuck).delete != DeleteDone || f.delete(stuck).rowFails)
            && (forall sn :: sn in left ==> sn in rows)
            && (forall sn :: sn in Prune(j.policy, j.cutoff, rows) ==> sn in left)
            && Prune(j.policy, j.cutoff, left) == Prune(j.policy, j.cutoff, rows)
  {
    var rows, left := JobRows(was, j.job), JobRows(t, j.job);
    UniqueSublists(was.snapshots, was.active, j.job, "");
    ListedIsSorted(OfJob(was.snapshots, was.active, j.job));
    ExpiredAre(j, rows);
    var k: nat :| StoppedAtRow(rows, left, j, f, stuck, k);
    RetryCompletes(j.policy, j.cutoff, rows, k);
    KeptFromWithin(j.policy, j.cutoff, rows[..k], 0);
    assert rows[k..][0] == rows[k] && rows[k] in left;
    assert forall sn :: sn in left ==> sn in rows;
    KeptFromWithin(j.policy, j.cutoff, left, 0);
  }

  // ---------- between a run's final check and its commit ----------

  /** The guard of the sweep: this collection removes the blob. */
  predicate Dooms(codec: Codec, grace: int, t: Tables, op: Op, id: BlobId) {
    && t.active == id.backend && id.hash in Doomed(codec, grace, t)
    && match op
       case GcOp => true
       case StoppedGcOp(done, stuck, _) => StopsAt(codec, grace, t, done, stuck) && id.hash in done
       case _ => false
  }

  /** A put of that blob whose upload, verification and insertion all go well. */
  predicate Stores(codec: Codec, t: Tables, op: Op, id: BlobId) {
    && op.PutOp? && t.active == id.backend && op.hash == id.hash && IsHash(op.hash)
    && op.putFaults.put.PutDone? && Verified(codec, op.body, op.hash) && !op.putFaults.addFails
  }

  lemma OpKeepsBlobIff(codec: Codec, grace: int, t: Tables, op: Op, id: BlobId)
    ensures id in After(codec, grace, t, op).blobs <==>
            Stores(codec, t, op, id) || (id in t.blobs && !Dooms(codec, grace, t, op, id))
  {
  }

  predicate DoomsAt(codec: Codec, grace: int, t: Tables, ops: seq<Op>, i: nat, id: BlobId) {
    i < |ops| && Dooms(codec, grace, AfterAll(codec, grace, t, ops[..i]), ops[i], id)
  }

  predicate StoresAt(codec: Codec, grace: int, t: Tables, ops: seq<Op>, i: nat, id: BlobId) {
    i < |ops| && Stores(codec, AfterAll(codec, grace, t, ops[..i]), ops[i], id)
  }

  ghost predicate StoredAfter(codec: Codec, grace: int, t: Tables, ops: seq<Op>, i: nat, id: BlobId) {
    exists j: nat :: j > i && StoresAt(codec, grace, t, ops, j, id)
  }

  /** Every position at which a collection removes the blob is followed by one at which it
      is put again. */
  ghost predicate Survives(codec: Codec, grace: int, t: Tables, ops: seq<Op>, id: BlobId) {
    forall i: nat :: DoomsAt(codec, grace, t, ops, i, id) ==> StoredAfter(codec, grace, t, ops, i, id)
  }

  lemma SamePosition(codec: Codec, grace: int, t: Tables, ops: seq<Op>, k: nat, i: nat, id: BlobId)
    requires i < k <= |ops|
    ensures DoomsAt(codec, grace, t, ops[..k], i, id) == DoomsAt(codec, grace, t, ops, i, id)
    ensures StoresAt(codec, grace, t, ops[..k], i, id) == StoresAt(codec, grace, t, ops, i, id)
  {
    assert ops[..k][..i] == ops[..i];
  }

  lemma SamePositions(codec: Codec, grace: int, t: Tables, ops: seq<Op>, k: nat, id: BlobId)
    requires k <= |ops|
    ensures forall i: nat :: i < k ==>
              DoomsAt(codec, grace, t, ops[..k], i, id) == DoomsAt(codec, grace, t, ops, i, id)
    ensures forall i: nat :: i < k ==>
              StoresAt(codec, grace, t, ops[..k], i, id) == StoresAt(codec, grace, t, ops, i, id)
  {
    forall i: nat | i < k {
      SamePosition(codec, grace, t, ops, k, i, id);
    }
  }

  lemma SurvivesNext(codec: Codec, grace: int, t: Tables, ops: seq<Op>, id: BlobId)
    requires ops != []
    ensures var k := |ops| - 1;
            Survives(codec, grace, t, ops, id) <==>
            || StoresAt(codec, grace, t, ops, k, id)
            || (Survives(codec, grace, t, ops[..k], id) && !DoomsAt(codec, grace, t, ops, k, id))
  {
    var k := |ops| - 1;
    SamePositions(codec, grace, t, ops, k, id);
    forall i: nat | i < k
      ensures StoredAfter(codec, grace, t, ops, i, id) <==>
              StoredAfter(codec, grace, t, ops[..k], i, id) || StoresAt(codec, grace, t, ops, k, id)
    {
      if StoredAfter(codec, grace, t, ops, i, id) {
        var j: nat :| j > i && StoresAt(codec, grace, t, ops, j, id);
        assert j == k || StoresAt(codec, grace, t, ops[..k], j, id);
      }
      if StoredAfter(codec, grace, t, ops[..k], i, id) {
        var j: nat :| j > i && StoresAt(codec, grace, t, ops[..k], j, id);
        assert StoresAt(codec, grace, t, ops, j, id);
      }
    }
    assert !StoredAfter(codec, grace, t, ops, k, id);
    LastPosition(codec, grace, t, ops, id);
  }

  lemma LastPosition(codec: Codec, grace: int, t: Tables, ops: seq<Op>, id: BlobId)
    requires ops != []
    requires var k := |ops| - 1;
             && (forall i: nat :: i < k ==>
                   DoomsAt(codec, grace, t, ops[..k], i, id) == DoomsAt(codec, grace, t, ops, i, id))
             && (forall i: nat :: i < k ==>
                   (StoredAfter(codec, grace, t, ops, i, id) <==>
                    StoredAfter(codec, grace, t, ops[..k], i, id) || StoresAt(codec, grace, t, ops, k, id)))
             && !StoredAfter(codec, grace, t, ops, k, id)
    ensures var k := |ops| - 1;
            Survives(codec, grace, t, ops, id) <==>
            || StoresAt(codec, grace, t, ops, k, id)
            || (Survives(codec, grace, t, ops[..k], id) && !DoomsAt(codec, grace, t, ops, k, id))
  {
    var k := |ops| - 1;
    assert StoresAt(codec, grace, t, ops, k, id) ==> !DoomsAt(codec, grace, t, ops, k, id);
    assert forall i: nat :: DoomsAt(codec, grace, t, ops, i, id) ==> i < k || i == k;
    assert forall i: nat :: DoomsAt(codec, grace, t, ops[..k], i, id) ==> i < k;
  }

  /** A blob the final check found is still there at the commit exactly when each
      collection in between that removed it was followed by a put of it that went well,
      whatever else ran. */
  lemma {:induction false} SurvivesIff(codec: Codec, grace: int, t: Tables, ops: seq<Op>, id: BlobId)
    requires id in t.blobs
    ensures id in AfterAll(codec, grace, t, ops).blobs <==> Survives(codec, grace, t, ops, id)
  {
    if ops != [] {
      var k := |ops| - 1;
      SurvivesIff(codec, grace, t, ops[..k], id);
      SurvivesNext(codec, grace, t, ops, id);
      OpKeepsBlobIff(codec, grace, AfterAll(codec, grace, t, ops[..k]), ops[k], id);
    }
  }

  /** The new snapshot of an accepted commit is restorable exactly when all its files
      survived since the final check, other runs' puts of the same files included. */
  lemma CommitRestorableIff(
    codec: Codec, grace: int, t: Tables, ops: seq<Op>, id: string, job: string,
    data: Bytes, entries: seq<Entry>, f: CommitFaults)
    requires Sound(codec, t) && NeverHarmed(codec, grace, t, ops)
    requires codec.readManifest(data) == Some(entries) && AllFilesHashed(entries)
    requires forall h :: h in FileHashes(entries) ==> BlobId(t.active, h) in t.blobs
    requires forall i :: 0 <= i < |ops| ==> !ops[i].SwitchOp?
    requires !f.refused && f.put.PutDone? && !f.insertFails
    ensures var before := AfterAll(codec, grace, t, ops);
            var (after, reply) := AfterCommit(before, id, job, data, f);
            var sn := Snapshot(id, t.active, job, before.clock);
            && reply == Accepted && after.snapshots == before.snapshots + [sn]
            && (Restorable(codec, after, sn, entries) <==>
                forall h :: h in FileHashes(entries) ==> Survives(codec, grace, t, ops, BlobId(t.active, h)))
  {
    var before := AfterAll(codec, grace, t, ops);
    var after := AfterCommit(before, id, job, data, f).0;
    SameBackend(codec, grace, t, ops);
    AlwaysSoundIff(codec, grace, t, ops);
    forall h | h in FileHashes(entries)
      ensures BlobId(t.active, h) in after.blobs <==> Survives(codec, grace, t, ops, BlobId(t.active, h))
    {
      SurvivesIff(codec, grace, t, ops, BlobId(t.active, h));
    }
    OpKeepsSoundIff(codec, grace, before, CommitOp(id, job, data, f));
  }

  lemma {:induction false} SameBackend(codec: Codec, grace: int, t: Tables, ops: seq<Op>)
    requires forall i :: 0 <= i < |ops| ==> !ops[i].SwitchOp?
    ensures AfterAll(codec, grace, t, ops).active == t.active
  {
    if ops != [] {
      SameBackend(codec, grace, t, ops[..|ops| - 1]);
    }
  }
}
