/** Exactly when snapshots stay whole and indexes sound, step by step and over whole
    histories of GcProtocol, with none of its hypotheses. */
module GcExact {
  import opened Basics
  import opened Tables
  import opened GcProtocol

  /** Every snapshot whose deletion has not begun can be restored in full. */
  ghost predicate Whole(codec: Codec, s: State) {
    forall sn :: sn in s.t.snapshots && sn.id !in s.deleting ==>
      sn.id in s.committed && Restorable(codec, s.t, sn, s.committed[sn.id])
  }

  predicate Names(s: State, sn: Snapshot, backend: string, h: string) {
    && sn in s.t.snapshots && sn.id !in s.deleting && sn.backend == backend
    && sn.id in s.committed && h in FileHashes(s.committed[sn.id])
  }

  /** A snapshot of that backend whose deletion has not begun names the hash. */
  ghost predicate Named(s: State, backend: string, h: string) {
    exists sn :: Names(s, sn, backend, h)
  }

  /** The check a commit could make before inserting its row: the manifest is in the active
      backend, and every file hash has an index row there. */
  predicate Committable(s: State, r: string) {
    r in s.runs && s.runs[r].phase.Stored? ==>
      var p := s.runs[r].phase;
      && ObjectId(s.t.active, ManifestObject(p.id)) in s.t.objects
      && forall h :: h in FileHashes(p.entries) ==> BlobId(s.t.active, h) in s.t.blobs
  }

  /** The guard of each step that can harm a snapshot, before the step: it does not take
      away, or overwrite with other content, what a snapshot names in the backend it acts
      on, and it commits only what is stored and indexed. */
  ghost predicate Spares(codec: Codec, s: State, step: Step) {
    match step
    case OfPut(n, Write(data)) =>
      n in s.puts && Named(s, s.t.active, s.puts[n].blob.hash) ==> Verified(codec, data, s.puts[n].blob.hash)
    case OfPut(n, Reject) => n in s.puts ==> !Named(s, s.t.active, s.puts[n].blob.hash)
    case OfGc(DeleteObject(h)) => !Named(s, s.t.active, h)
    case OfGc(DeleteIndexRow) =>
      s.gc.Sweeping? && s.gc.dangling.Some? ==> !Named(s, s.gc.backend, s.gc.dangling.value)
    case OfRun(r, CreateRow(job)) => Committable(s, r)
    case _ => true
  }

  /** Removing an object, or replacing it, harms exactly the snapshots that name it. */
  lemma ObjectChangedIff(codec: Codec, s: State, u: State, h: string, content: Option<Bytes>)
    requires Whole(codec, s) && u.t == s.t.Settle(BlobObject(h), content)
    requires u.committed == s.committed && u.deleting == s.deleting
    ensures Whole(codec, u) <==>
            (Named(s, s.t.active, h) ==> content.Some? && Verified(codec, content.value, h))
  {
    var id := BlobId(s.t.active, h);
    assert forall other :: other != id ==> (GoodBlob(codec, u.t, other) <==> GoodBlob(codec, s.t, other));
    if Named(s, s.t.active, h) && !GoodBlob(codec, u.t, id) {
      var sn :| Names(s, sn, s.t.active, h);
      assert !Restorable(codec, u.t, sn, u.committed[sn.id]);
    } else {
      forall sn | sn in u.t.snapshots && sn.id !in u.deleting
        ensures Restorable(codec, u.t, sn, u.committed[sn.id])
      {
        assert Restorable(codec, s.t, sn, s.committed[sn.id]);
        assert sn.backend == s.t.active && h in FileHashes(s.committed[sn.id]) ==> Names(s, sn, s.t.active, h);
      }
    }
  }

  lemma RowDeletedIff(codec: Codec, s: State, u: State, id: BlobId)
    requires Whole(codec, s) && u.t == s.t.DeleteBlob(id) && u.committed == s.committed && u.deleting == s.deleting
    ensures Whole(codec, u) <==> !Named(s, id.backend, id.hash)
  {
    if Named(s, id.backend, id.hash) {
      var sn :| Names(s, sn, id.backend, id.hash);
      assert !Restorable(codec, u.t, sn, u.committed[sn.id]);
    } else {
      forall sn | sn in u.t.snapshots && sn.id !in u.deleting
        ensures Restorable(codec, u.t, sn, u.committed[sn.id])
      {
        assert Restorable(codec, s.t, sn, s.committed[sn.id]);
        assert sn.backend == id.backend && id.hash in FileHashes(s.committed[sn.id]) ==>
                 Names(s, sn, id.backend, id.hash);
      }
    }
  }

  /** Whatever rows, runs and manifests change, what a snapshot needs is still there. */
  lemma StillRestorable(codec: Codec, t: Tables, u: Tables, sn: Snapshot, entries: seq<Entry>)
    requires Restorable(codec, t, sn, entries)
    requires forall id :: id in t.blobs ==> id in u.blobs
    requires forall o :: o in t.objects && (o.key.BlobObject? || o == ObjectId(sn.backend, ManifestObject(sn.id))) ==>
               o in u.objects && u.objects[o] == t.objects[o]
    ensures Restorable(codec, u, sn, entries)
  {
  }

  /** A step that touches neither blob objects nor index rows, nor the manifest of a
      snapshot it leaves undeleted. */
  lemma HarmlessStep(codec: Codec, grace: int, s: State, step: Step)
    requires IdsSound(s) && Whole(codec, s) && Enabled(codec, grace, s, step)
    requires match step
             case OfPut(_, p) => !p.Write? && !p.Reject?
             case OfGc(g) => !g.DeleteObject? && !g.DeleteIndexRow?
             case OfRun(_, r) => !r.CreateRow?
             case _ => true
    ensures Whole(codec, Apply(codec, grace, s, step))
  {
    var u := Apply(codec, grace, s, step);
    forall sn | sn in u.t.snapshots && sn.id !in u.deleting
      ensures sn.id in u.committed && Restorable(codec, u.t, sn, u.committed[sn.id])
    {
      assert sn in s.t.snapshots && sn.id !in s.deleting;
      StillRestorable(codec, s.t, u.t, sn, s.committed[sn.id]);
    }
  }

  /** The objects a commit relies on are good. */
  ghost predicate CommitsGood(codec: Codec, s: State, step: Step) {
    step.OfRun? && step.runStep.CreateRow? && step.run in s.runs && s.runs[step.run].phase.Stored? ==>
      forall h :: h in FileHashes(s.runs[step.run].phase.entries) ==> GoodBlob(codec, s.t, BlobId(s.t.active, h))
  }

  // ---------- what every history keeps, whatever goes wrong ----------

  /** A run that has stored its manifest: wherever an object has that id, it is that
      manifest, and all its files are hashed. */
  ghost predicate ManifestsTrue(codec: Codec, s: State) {
    forall r, o :: r in s.runs && s.runs[r].phase.Stored? && o in s.t.objects
                   && o.key == ManifestObject(s.runs[r].phase.id) ==>
      codec.readManifest(s.t.objects[o]) == Some(s.runs[r].phase.entries)
  }

  ghost predicate ManifestsHashed(s: State) {
    forall r :: r in s.runs && s.runs[r].phase.Stored? ==> AllFilesHashed(s.runs[r].phase.entries)
  }

  /** The commit lock: no collection while a run commits. */
  ghost predicate LockExcludes(s: State) {
    forall r :: r in s.runs && HoldsReadLock(s.runs[r].phase) ==> s.gc.Idle?
  }

  ghost predicate Orderly(codec: Codec, s: State) {
    IdsSound(s) && ManifestsTrue(codec, s) && ManifestsHashed(s) && LockExcludes(s)
  }

  lemma StoreKeepsManifests(codec: Codec, s: State, r: string, id: string, data: Bytes)
    requires ManifestsTrue(codec, s) && RunEnabled(codec, s, r, StoreManifest(id, data))
    ensures ManifestsTrue(codec, AfterRun(codec, s, r, StoreManifest(id, data)))
  {
  }

  lemma StepKeepsManifests(codec: Codec, grace: int, s: State, step: Step)
    requires ManifestsTrue(codec, s) && Enabled(codec, grace, s, step)
    ensures ManifestsTrue(codec, Apply(codec, grace, s, step))
  {
    match step
    case OfRun(r, StoreManifest(id, data)) => StoreKeepsManifests(codec, s, r, id, data);
    case _ =>
  }

  lemma StepKeepsLock(codec: Codec, grace: int, s: State, step: Step)
    requires LockExcludes(s) && ManifestsHashed(s) && Enabled(codec, grace, s, step)
    ensures LockExcludes(Apply(codec, grace, s, step)) && ManifestsHashed(Apply(codec, grace, s, step))
  {
  }

  lemma {:induction false} HistoryIsOrderly(codec: Codec, grace: int, tr: Trace)
    requires Possible(codec, grace, tr)
    ensures Orderly(codec, Last(codec, grace, tr))
  {
    if tr.Then? {
      HistoryIsOrderly(codec, grace, tr.before);
      var s := Last(codec, grace, tr.before);
      StepKeepsIds(codec, grace, s, tr.step);
      StepKeepsManifests(codec, grace, s, tr.step);
      StepKeepsLock(codec, grace, s, tr.step);
    }
  }

  // ---------- one step ----------

  lemma RowIsRestorableIff(codec: Codec, s: State, r: string, job: string)
    requires Orderly(codec, s) && RunEnabled(codec, s, r, CreateRow(job))
    ensures var p := s.runs[r].phase;
            Restorable(codec, s.t, Snapshot(p.id, s.t.active, job, s.t.clock), p.entries) <==>
            Committable(s, r) && CommitsGood(codec, s, OfRun(r, CreateRow(job)))
  {
  }

  lemma NewRowIff(codec: Codec, s: State, r: string, job: string)
    requires Orderly(codec, s) && Whole(codec, s) && RunEnabled(codec, s, r, CreateRow(job))
    ensures Whole(codec, AfterRun(codec, s, r, CreateRow(job))) <==>
            Committable(s, r) && CommitsGood(codec, s, OfRun(r, CreateRow(job)))
  {
    RowIsRestorableIff(codec, s, r, job);
    var p, u := s.runs[r].phase, AfterRun(codec, s, r, CreateRow(job));
    var row := Snapshot(p.id, s.t.active, job, s.t.clock);
    assert row in u.t.snapshots && p.id !in u.deleting && u.committed[p.id] == p.entries;
    if Restorable(codec, s.t, row, p.entries) {
      StillRestorable(codec, s.t, u.t, row, p.entries);
      forall sn | sn in u.t.snapshots && sn.id !in u.deleting && sn != row
        ensures Restorable(codec, u.t, sn, u.committed[sn.id])
      {
        assert sn in s.t.snapshots;
        StillRestorable(codec, s.t, u.t, sn, s.committed[sn.id]);
      }
    } else if Restorable(codec, u.t, row, p.entries) {
      StillRestorable(codec, u.t, s.t, row, p.entries);
    }
  }

  /** One step keeps every snapshot whole if and only if its guard spares them and, for a
      commit, the objects it relies on are good. */
  lemma WholeKeptIff(codec: Codec, grace: int, s: State, step: Step)
    requires Orderly(codec, s) && Whole(codec, s) && Enabled(codec, grace, s, step)
    ensures Whole(codec, Apply(codec, grace, s, step)) <==> Spares(codec, s, step) && CommitsGood(codec, s, step)
  {
    var u := Apply(codec, grace, s, step);
    match step
    case OfPut(n, Write(data)) => ObjectChangedIff(codec, s, u, s.puts[n].blob.hash, Some(data));
    case OfPut(n, Reject) => ObjectChangedIff(codec, s, u, s.puts[n].blob.hash, None);
    case OfGc(DeleteObject(h)) => ObjectChangedIff(codec, s, u, h, None);
    case OfGc(DeleteIndexRow) => RowDeletedIff(codec, s, u, BlobId(s.gc.backend, s.gc.dangling.value));
    case OfRun(r, CreateRow(job)) => NewRowIff(codec, s, r, job);
    case _ => HarmlessStep(codec, grace, s, step);
  }

  // ---------- the index ----------

  /** The blob whose object the collector has deleted and whose row it has not, yet. */
  predicate IsDangling(s: State, id: BlobId) {
    s.gc.Sweeping? && s.gc.dangling == Some(id.hash) && s.gc.backend == id.backend
  }

  /** In every backend, what is indexed is stored with the right content, save the one
      blob the collector is in the middle of. */
  ghost predicate IndexSound(codec: Codec, s: State) {
    forall id :: id in s.t.blobs ==> GoodBlob(codec, s.t, id) || IsDangling(s, id)
  }

  predicate TellsTruth(codec: Codec, s: State, id: BlobId) {
    id in s.t.blobs ==> GoodBlob(codec, s.t, id) || IsDangling(s, id)
  }

  /** The guard of each step that can make the index untrue, before the step. */
  predicate KeepsIndex(codec: Codec, s: State, step: Step) {
    match step
    case OfPut(n, Write(data)) =>
      n in s.puts ==>
        var id := BlobId(s.t.active, s.puts[n].blob.hash);
        id in s.t.blobs && !IsDangling(s, id) ==> Verified(codec, data, id.hash)
    case OfPut(n, Accept) =>
      n in s.puts ==>
        var id := BlobId(s.t.active, s.puts[n].blob.hash);
        id in s.t.blobs || IsDangling(s, id) || GoodBlob(codec, s.t, id)
    case OfPut(n, Reject) =>
      n in s.puts ==>
        var id := BlobId(s.t.active, s.puts[n].blob.hash); id !in s.t.blobs || IsDangling(s, id)
    case OfGc(DeleteObject(h)) =>
      s.gc.Sweeping? && s.gc.backend != s.t.active ==> BlobId(s.t.active, h) !in s.t.blobs
    case OfGc(Abort) =>
      s.gc.Sweeping? && s.gc.dangling.Some? ==>
        var id := BlobId(s.gc.backend, s.gc.dangling.value); id !in s.t.blobs || GoodBlob(codec, s.t, id)
    case _ => true
  }

  lemma OthersUntouched(codec: Codec, s: State, u: State, h: string, content: Option<Bytes>)
    requires u.t.objects == s.t.Settle(BlobObject(h), content).objects
    ensures forall id :: id != BlobId(s.t.active, h) ==> (GoodBlob(codec, u.t, id) <==> GoodBlob(codec, s.t, id))
    ensures GoodBlob(codec, u.t, BlobId(s.t.active, h)) <==> content.Some? && Verified(codec, content.value, h)
  {
  }

  lemma PutKeepsIndexIff(codec: Codec, s: State, n: int, step: PutStep)
    requires IndexSound(codec, s) && PutEnabled(codec, s, n, step)
    ensures IndexSound(codec, AfterPut(codec, s, n, step)) <==> KeepsIndex(codec, s, OfPut(n, step))
  {
    var u := AfterPut(codec, s, n, step);
    match step
    case Begin(_) => SameBlobs(codec, s, u);
    case Write(data) =>
      OthersUntouched(codec, s, u, s.puts[n].blob.hash, Some(data));
      OneBlobIff(codec, s, u, BlobId(s.t.active, s.puts[n].blob.hash));
    case Accept => OneBlobIff(codec, s, u, BlobId(s.t.active, s.puts[n].blob.hash));
    case Reject =>
      OthersUntouched(codec, s, u, s.puts[n].blob.hash, None);
      OneBlobIff(codec, s, u, BlobId(s.t.active, s.puts[n].blob.hash));
    case Lose => SameBlobs(codec, s, u);
  }

  /** When only one blob is concerned, it decides. */
  lemma OneBlobIff(codec: Codec, s: State, u: State, id: BlobId)
    requires IndexSound(codec, s)
    requires forall other :: other != id && other in u.t.blobs ==>
               other in s.t.blobs && (GoodBlob(codec, s.t, other) ==> GoodBlob(codec, u.t, other))
               && (IsDangling(s, other) ==> IsDangling(u, other))
    ensures IndexSound(codec, u) <==> TellsTruth(codec, u, id)
  {
  }

  lemma SameBlobs(codec: Codec, s: State, u: State)
    requires IndexSound(codec, s) && u.gc == s.gc && forall id :: id in u.t.blobs ==> id in s.t.blobs
    requires forall o :: o in s.t.objects && o.key.BlobObject? ==> o in u.t.objects && u.t.objects[o] == s.t.objects[o]
    ensures IndexSound(codec, u)
  {
    forall id | id in u.t.blobs
      ensures GoodBlob(codec, u.t, id) || IsDangling(u, id)
    {
      assert IsDangling(s, id) <==> IsDangling(u, id);
    }
  }

  lemma GcKeepsIndexIff(codec: Codec, grace: int, s: State, step: GcStep)
    requires IndexSound(codec, s) && GcEnabled(codec, grace, s, step)
    ensures IndexSound(codec, AfterGc(codec, grace, s, step)) <==> KeepsIndex(codec, s, OfGc(step))
  {
    var u := AfterGc(codec, grace, s, step);
    match step
    case DeleteObject(h) =>
      OthersUntouched(codec, s, u, h, None);
      OneBlobIff(codec, s, u, BlobId(s.t.active, h));
    case DeleteIndexRow => OneBlobIff(codec, s, u, BlobId(s.gc.backend, s.gc.dangling.value));
    case Abort =>
      if s.gc.Sweeping? && s.gc.dangling.Some? {
        OneBlobIff(codec, s, u, BlobId(s.gc.backend, s.gc.dangling.value));
      }
    case _ =>
  }

  /** One step keeps the index sound if and only if its guard holds. */
  lemma IndexKeptIff(codec: Codec, grace: int, s: State, step: Step)
    requires IndexSound(codec, s) && Enabled(codec, grace, s, step)
    ensures IndexSound(codec, Apply(codec, grace, s, step)) <==> KeepsIndex(codec, s, step)
  {
    match step
    case OfPut(n, p) => PutKeepsIndexIff(codec, s, n, p);
    case OfGc(g) => GcKeepsIndexIff(codec, grace, s, g);
    case _ => SameBlobs(codec, s, Apply(codec, grace, s, step));
  }

  /** With a sound index and the commit lock held, what is indexed is good. */
  lemma IndexedIsGood(codec: Codec, s: State, step: Step)
    requires IndexSound(codec, s) && LockExcludes(s) && Spares(codec, s, step)
    ensures CommitsGood(codec, s, step)
  {
  }

  // ---------- whole histories ----------

  /** Nothing is lost, and the index tells the truth. */
  ghost predicate StoreSound(codec: Codec, s: State) {
    Whole(codec, s) && IndexSound(codec, s)
  }

  ghost predicate AlwaysSound(codec: Codec, grace: int, tr: Trace)
    requires Possible(codec, grace, tr)
  {
    StoreSound(codec, Last(codec, grace, tr)) && (tr.Then? ==> AlwaysSound(codec, grace, tr.before))
  }

  /** Every step was taken when its guards held. */
  ghost predicate AlwaysGuarded(codec: Codec, grace: int, tr: Trace)
    requires Possible(codec, grace, tr)
  {
    tr.Then? ==>
      && AlwaysGuarded(codec, grace, tr.before)
      && Spares(codec, Last(codec, grace, tr.before), tr.step)
      && KeepsIndex(codec, Last(codec, grace, tr.before), tr.step)
  }

  /** With no hypothesis at all: throughout a history every snapshot stays restorable and
      every index stays sound, if and only if every step of it was taken when its guards
      held, all of which can be checked before the step. */
  lemma {:induction false} StoreSoundIff(codec: Codec, grace: int, tr: Trace)
    requires Possible(codec, grace, tr)
    ensures AlwaysSound(codec, grace, tr) <==> AlwaysGuarded(codec, grace, tr)
  {
    if tr.Then? {
      StoreSoundIff(codec, grace, tr.before);
      HistoryIsOrderly(codec, grace, tr.before);
      var s := Last(codec, grace, tr.before);
      if AlwaysSound(codec, grace, tr.before) {
        WholeKeptIff(codec, grace, s, tr.step);
        IndexKeptIff(codec, grace, s, tr.step);
        if Spares(codec, s, tr.step) {
          IndexedIsGood(codec, s, tr.step);
        }
      }
    }
  }

  ghost predicate AlwaysIndexSound(codec: Codec, grace: int, tr: Trace)
    requires Possible(codec, grace, tr)
  {
    IndexSound(codec, Last(codec, grace, tr)) && (tr.Then? ==> AlwaysIndexSound(codec, grace, tr.before))
  }

  ghost predicate AlwaysKeepsIndex(codec: Codec, grace: int, tr: Trace)
    requires Possible(codec, grace, tr)
  {
    tr.Then? ==>
      KeepsIndex(codec, Last(codec, grace, tr.before), tr.step) && AlwaysKeepsIndex(codec, grace, tr.before)
  }

  /** The indexes alone. */
  lemma {:induction false} IndexSoundIff(codec: Codec, grace: int, tr: Trace)
    requires Possible(codec, grace, tr)
    ensures AlwaysIndexSound(codec, grace, tr) <==> AlwaysKeepsIndex(codec, grace, tr)
  {
    if tr.Then? {
      IndexSoundIff(codec, grace, tr.before);
      if AlwaysIndexSound(codec, grace, tr.before) {
        IndexKeptIff(codec, grace, Last(codec, grace, tr.before), tr.step);
      }
    }
  }

  /** The last step that wrote or deleted the blob's object wrote verified content. */
  ghost predicate LastWriteGood(codec: Codec, grace: int, tr: Trace, id: BlobId)
    requires Possible(codec, grace, tr)
  {
    tr.Then? &&
      var s := Last(codec, grace, tr.before);
      match tr.step
      case OfPut(n, Write(data)) =>
        if BlobId(s.t.active, s.puts[n].blob.hash) == id then Verified(codec, data, id.hash)
        else LastWriteGood(codec, grace, tr.before, id)
      case OfPut(n, Reject) =>
        BlobId(s.t.active, s.puts[n].blob.hash) != id && LastWriteGood(codec, grace, tr.before, id)
      case OfGc(DeleteObject(h)) => BlobId(s.t.active, h) != id && LastWriteGood(codec, grace, tr.before, id)
      case _ => LastWriteGood(codec, grace, tr.before, id)
  }

  lemma {:induction false} GoodBlobIff(codec: Codec, grace: int, tr: Trace, id: BlobId)
    requires Possible(codec, grace, tr)
    ensures GoodBlob(codec, Last(codec, grace, tr).t, id) <==> LastWriteGood(codec, grace, tr, id)
  {
    if tr.Then? {
      GoodBlobIff(codec, grace, tr.before, id);
      GoodBlobStep(codec, grace, Last(codec, grace, tr.before), tr.step, id);
    }
  }

  lemma GoodBlobStep(codec: Codec, grace: int, s: State, step: Step, id: BlobId)
    requires Enabled(codec, grace, s, step)
    ensures GoodBlob(codec, Apply(codec, grace, s, step).t, id) <==>
            match step
            case OfPut(n, Write(data)) =>
              if BlobId(s.t.active, s.puts[n].blob.hash) == id then Verified(codec, data, id.hash)
              else GoodBlob(codec, s.t, id)
            case OfPut(n, Reject) => BlobId(s.t.active, s.puts[n].blob.hash) != id && GoodBlob(codec, s.t, id)
            case OfGc(DeleteObject(h)) => BlobId(s.t.active, h) != id && GoodBlob(codec, s.t, id)
            case _ => GoodBlob(codec, s.t, id)
  {
    var u := Apply(codec, grace, s, step);
    match step
    case OfPut(n, Write(data)) => OthersUntouched(codec, s, u, s.puts[n].blob.hash, Some(data));
    case OfPut(n, Reject) => OthersUntouched(codec, s, u, s.puts[n].blob.hash, None);
    case OfGc(DeleteObject(h)) => OthersUntouched(codec, s, u, h, None);
    case _ => SameBlobObjects(codec, grace, s, step);
  }

  lemma SameBlobObjects(codec: Codec, grace: int, s: State, step: Step)
    requires Enabled(codec, grace, s, step)
    requires step.OfPut? ==> !step.putStep.Write? && !step.putStep.Reject?
    requires step.OfGc? ==> !step.gcStep.DeleteObject?
    ensures forall o: ObjectId :: o.key.BlobObject? ==>
              var u := Apply(codec, grace, s, step);
              (o in u.t.objects <==> o in s.t.objects) && (o in s.t.objects ==> u.t.objects[o] == s.t.objects[o])
  {
  }

  /** What a commit relies on was last written with verified content. */
  ghost predicate CommitsWritten(codec: Codec, grace: int, before: Trace, step: Step)
    requires Possible(codec, grace, before)
  {
    var s := Last(codec, grace, before);
    step.OfRun? && step.runStep.CreateRow? && step.run in s.runs && s.runs[step.run].phase.Stored? ==>
      forall h :: h in FileHashes(s.runs[step.run].phase.entries) ==>
        LastWriteGood(codec, grace, before, BlobId(s.t.active, h))
  }

  ghost predicate AlwaysSpares(codec: Codec, grace: int, tr: Trace)
    requires Possible(codec, grace, tr)
  {
    tr.Then? ==>
      && AlwaysSpares(codec, grace, tr.before)
      && Spares(codec, Last(codec, grace, tr.before), tr.step)
      && CommitsWritten(codec, grace, tr.before, tr.step)
  }

  ghost predicate AlwaysWhole(codec: Codec, grace: int, tr: Trace)
    requires Possible(codec, grace, tr)
  {
    Whole(codec, Last(codec, grace, tr)) && (tr.Then? ==> AlwaysWhole(codec, grace, tr.before))
  }

  /** The snapshots alone, in any history, even one in which an index is untrue: they all
      stay restorable if and only if every step spares them and every commit finds its
      hashes indexed, and their objects last written with verified content. */
  lemma {:induction false} SnapshotsWholeIff(codec: Codec, grace: int, tr: Trace)
    requires Possible(codec, grace, tr)
    ensures AlwaysWhole(codec, grace, tr) <==> AlwaysSpares(codec, grace, tr)
  {
    if tr.Then? {
      SnapshotsWholeIff(codec, grace, tr.before);
      HistoryIsOrderly(codec, grace, tr.before);
      forall id {
        GoodBlobIff(codec, grace, tr.before, id);
      }
      if AlwaysWhole(codec, grace, tr.before) {
        WholeKeptIff(codec, grace, Last(codec, grace, tr.before), tr.step);
      }
    }
  }
}
