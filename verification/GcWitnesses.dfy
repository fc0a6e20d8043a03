/** Why each hypothesis of GcProtocol.EverySnapshotRestorable is there: for every one of
    them a history in which all the others hold and a snapshot is broken. */
module GcWitnesses {
  import opened Basics
  import opened Tables
  import opened GcProtocol

  datatype Clause = InTime | Dedup | Sweeps | Puts | Commits | Exclusive | Answered

  /** Every hypothesis but one. */
  ghost predicate AllBut(c: Clause, grace: int, s: State) {
    && (c.InTime? || CommitsInTime(grace, s))
    && (c.Dedup? || DedupReferenced(s))
    && (c.Sweeps? || SweepSteady(s))
    && (c.Puts? || PutsSteady(s))
    && (c.Commits? || RunsSteady(s))
    && (c.Exclusive? || PutsExclusive(s))
    && (c.Answered? || LookupsAnswer(s))
  }

  ghost predicate Allowed(c: Clause, codec: Codec, grace: int, tr: Trace) {
    Possible(codec, grace, tr) && Always(codec, grace, tr, s => AllBut(c, grace, s))
  }

  lemma {:induction false} Extend(c: Clause, codec: Codec, grace: int, tr: Trace, step: Step)
    returns (longer: Trace, s: State)
    requires Allowed(c, codec, grace, tr)
    requires Enabled(codec, grace, Last(codec, grace, tr), step)
    requires AllBut(c, grace, Apply(codec, grace, Last(codec, grace, tr), step))
    ensures Allowed(c, codec, grace, longer)
    ensures s == Last(codec, grace, longer) == Apply(codec, grace, Last(codec, grace, tr), step)
  {
    longer := Then(tr, step);
    s := Apply(codec, grace, Last(codec, grace, tr), step);
  }

  /** A put handler that runs alone, with no run in flight, indexes its blob. */
  lemma StoreBlob(c: Clause, codec: Codec, grace: int, tr: Trace, data: Bytes, h: string)
    returns (longer: Trace, s: State)
    requires Allowed(c, codec, grace, tr) && Verified(codec, data, h)
    requires var s := Last(codec, grace, tr);
             s.puts == map[] && s.runs == map[] && s.gc.Idle? && BlobId(s.t.active, h) !in s.t.blobs
    ensures Allowed(c, codec, grace, longer) && s == Last(codec, grace, longer)
    ensures var was := Last(codec, grace, tr);
            s == was.(t := was.t.Put(BlobObject(h), data).AddBlob(BlobId(was.t.active, h)))
  {
    s := Last(codec, grace, tr);
    longer, s := Extend(c, codec, grace, tr, OfPut(0, Begin(BlobId(s.t.active, h))));
    longer, s := FinishPut(c, codec, grace, longer, data, h);
  }

  lemma FinishPut(c: Clause, codec: Codec, grace: int, tr: Trace, data: Bytes, h: string)
    returns (longer: Trace, s: State)
    requires Allowed(c, codec, grace, tr) && Verified(codec, data, h)
    requires var s := Last(codec, grace, tr);
             && s.puts == map[0 := Putting(BlobId(s.t.active, h), Begun, false)]
             && s.runs == map[] && s.gc.Idle? && BlobId(s.t.active, h) !in s.t.blobs
    ensures Allowed(c, codec, grace, longer) && s == Last(codec, grace, longer)
    ensures var was := Last(codec, grace, tr);
            s == was.(t := was.t.Put(BlobObject(h), data).AddBlob(BlobId(was.t.active, h)), puts := map[])
  {
    longer, s := Extend(c, codec, grace, tr, OfPut(0, Write(data)));
    longer, s := Extend(c, codec, grace, longer, OfPut(0, Accept));
    assert s.puts == map[];
  }

  /** A collection that finds no snapshot row plans to sweep a blob past the grace period. */
  lemma PlanSweep(c: Clause, codec: Codec, grace: int, tr: Trace, h: string)
    returns (longer: Trace, s: State)
    requires Allowed(c, codec, grace, tr)
    requires var s := Last(codec, grace, tr);
             && s.gc.Idle? && (forall r :: r in s.runs ==> !HoldsReadLock(s.runs[r].phase))
             && RowsOf(s.t, s.t.active) == {} && Garbage(s.t, s.t.active, {}, grace, h)
    ensures Allowed(c, codec, grace, longer) && s == Last(codec, grace, longer)
    ensures var was := Last(codec, grace, tr);
            s == was.(gc := Sweeping(was.t.active, {h}, None))
  {
    longer, s := Extend(c, codec, grace, tr, OfGc(Lock));
    longer, s := Extend(c, codec, grace, longer, OfGc(Plan({h})));
  }

  /** ... and sweeps it. */
  lemma SweepBlob(c: Clause, codec: Codec, grace: int, tr: Trace, h: string)
    returns (longer: Trace, s: State)
    requires Allowed(c, codec, grace, tr)
    requires var s := Last(codec, grace, tr); s.gc == Sweeping(s.t.active, {h}, None)
    ensures Allowed(c, codec, grace, longer) && s == Last(codec, grace, longer)
    ensures var was := Last(codec, grace, tr);
            s == was.(gc := Idle, t := was.t.Remove(BlobObject(h)).DeleteBlob(BlobId(was.t.active, h)))
  {
    longer, s := Extend(c, codec, grace, tr, OfGc(DeleteObject(h)));
    longer, s := SweepRow(c, codec, grace, longer, h);
  }

  lemma SweepRow(c: Clause, codec: Codec, grace: int, tr: Trace, h: string)
    returns (longer: Trace, s: State)
    requires Allowed(c, codec, grace, tr)
    requires var s := Last(codec, grace, tr); s.gc == Sweeping(s.t.active, {h}, Some(h))
    ensures Allowed(c, codec, grace, longer) && s == Last(codec, grace, longer)
    ensures var was := Last(codec, grace, tr);
            s == was.(gc := Idle, t := was.t.DeleteBlob(BlobId(was.t.active, h)))
  {
    longer, s := Extend(c, codec, grace, tr, OfGc(DeleteIndexRow));
    longer, s := Extend(c, codec, grace, longer, OfGc(Finish));
  }

  /** The only run in flight commits its checked hashes. */
  lemma CommitRun(c: Clause, codec: Codec, grace: int, tr: Trace, id: string, data: Bytes, entries: seq<Entry>)
    returns (longer: Trace, s: State)
    requires Allowed(c, codec, grace, tr)
    requires var s := Last(codec, grace, tr);
             && s.gc.Idle? && s.runs.Keys == {"r"} && s.runs["r"].phase.Checked? && id !in s.committed
             && NoManifest(s.t, id)
             && codec.readManifest(data) == Some(entries)
             && AllFilesHashed(entries) && FileHashes(entries) <= s.runs["r"].phase.hashes
    ensures Allowed(c, codec, grace, longer) && s == Last(codec, grace, longer)
    ensures var was := Last(codec, grace, tr);
            s == was.(t := was.t.Put(ManifestObject(id), data)
                             .InsertSnapshot(Snapshot(id, was.t.active, "job", was.t.clock)),
                      runs := map[], committed := was.committed[id := entries])
  {
    longer, s := Extend(c, codec, grace, tr, OfRun("r", BeginCommit));
    longer, s := FinishCommit(c, codec, grace, longer, id, data, entries);
  }

  lemma FinishCommit(c: Clause, codec: Codec, grace: int, tr: Trace, id: string, data: Bytes, entries: seq<Entry>)
    returns (longer: Trace, s: State)
    requires Allowed(c, codec, grace, tr)
    requires var s := Last(codec, grace, tr);
             && s.gc.Idle? && s.runs.Keys == {"r"} && s.runs["r"].phase.Committing? && id !in s.committed
             && NoManifest(s.t, id)
             && codec.readManifest(data) == Some(entries)
             && AllFilesHashed(entries) && FileHashes(entries) <= s.runs["r"].phase.hashes
    ensures Allowed(c, codec, grace, longer) && s == Last(codec, grace, longer)
    ensures var was := Last(codec, grace, tr);
            s == was.(t := was.t.Put(ManifestObject(id), data)
                             .InsertSnapshot(Snapshot(id, was.t.active, "job", was.t.clock)),
                      runs := map[], committed := was.committed[id := entries])
  {
    longer, s := Extend(c, codec, grace, tr, OfRun("r", StoreManifest(id, data)));
    longer, s := Extend(c, codec, grace, longer, OfRun("r", CreateRow("job")));
    assert s.runs == map[];
  }

  /** A run starts and finds one blob present. */
  lemma CheckRun(c: Clause, codec: Codec, grace: int, tr: Trace, h: string)
    returns (longer: Trace, s: State)
    requires Allowed(c, codec, grace, tr) && (grace > 0 || c.InTime?)
    requires var s := Last(codec, grace, tr);
             && s.runs == map[] && BlobId(s.t.active, h) in s.t.blobs
             && (s.t.blobs[BlobId(s.t.active, h)] == s.t.clock || c.Dedup?)
    ensures Allowed(c, codec, grace, longer) && s == Last(codec, grace, longer)
    ensures var was := Last(codec, grace, tr);
            s == was.(runs := map["r" := BackupRun(was.t.clock, Checked(was.t.active, {h}))])
  {
    longer, s := Extend(c, codec, grace, tr, OfRun("r", Start));
    longer, s := CheckStarted(c, codec, grace, longer, h);
  }

  lemma CheckStarted(c: Clause, codec: Codec, grace: int, tr: Trace, h: string)
    returns (longer: Trace, s: State)
    requires Allowed(c, codec, grace, tr) && (grace > 0 || c.InTime?)
    requires var s := Last(codec, grace, tr);
             && s.runs == map["r" := BackupRun(s.t.clock, Working)] && BlobId(s.t.active, h) in s.t.blobs
             && (s.t.blobs[BlobId(s.t.active, h)] == s.t.clock || c.Dedup?)
    ensures Allowed(c, codec, grace, longer) && s == Last(codec, grace, longer)
    ensures var was := Last(codec, grace, tr);
            s == was.(runs := map["r" := BackupRun(was.t.clock, Checked(was.t.active, {h}))])
  {
    longer, s := Extend(c, codec, grace, tr, OfRun("r", FinalCheck({h})));
    assert s.runs["r"].phase.hashes == {h};
    assert s.runs.Keys == {"r"};
  }

  /** With no other run in flight, a run checks one just-indexed blob and commits. */
  lemma CommitFresh(c: Clause, codec: Codec, grace: int, tr: Trace, h: string, data: Bytes, entries: seq<Entry>)
    returns (longer: Trace, s: State)
    requires Allowed(c, codec, grace, tr) && grace > 0
    requires var s := Last(codec, grace, tr);
             && s.gc.Idle? && s.runs == map[] && s.committed == map[] && NoManifest(s.t, "snap")
             && BlobId(s.t.active, h) in s.t.blobs && s.t.blobs[BlobId(s.t.active, h)] == s.t.clock
             && codec.readManifest(data) == Some(entries)
             && AllFilesHashed(entries) && FileHashes(entries) == {h}
    ensures Allowed(c, codec, grace, longer) && s == Last(codec, grace, longer)
    ensures var was := Last(codec, grace, tr);
            s == was.(t := was.t.Put(ManifestObject("snap"), data)
                             .InsertSnapshot(Snapshot("snap", was.t.active, "job", was.t.clock)),
                      committed := map["snap" := entries])
  {
    longer, s := CheckRun(c, codec, grace, tr, h);
    longer, s := CommitRun(c, codec, grace, longer, "snap", data, entries);
  }

  /** Any stored content, and any manifest naming just its hash. */
  ghost predicate Sample(codec: Codec, data: Bytes, h: string, manifest: Bytes, entries: seq<Entry>) {
    && Verified(codec, data, h)
    && codec.readManifest(manifest) == Some(entries)
    && AllFilesHashed(entries) && FileHashes(entries) == {h}
  }

  ghost predicate SomeSnapshotBroken(codec: Codec, s: State) {
    exists sn :: sn in s.t.snapshots && sn.id !in s.deleting && sn.id in s.committed
              && !Restorable(codec, s.t, sn, s.committed[sn.id])
  }

  function Empty(backend: string): State {
    State(Tables(backend, 0, map[], map[], []), map[], map[], {}, Idle, map[])
  }

  /** A whole collection between a run's final check and its commit, when the run
      relies on a blob the collection may sweep. */
  lemma SweepThenCommit(c: Clause, codec: Codec, grace: int, tr: Trace, h: string, data: Bytes, entries: seq<Entry>)
    returns (longer: Trace)
    requires Allowed(c, codec, grace, tr)
    requires codec.readManifest(data) == Some(entries) && AllFilesHashed(entries) && FileHashes(entries) == {h}
    requires var s := Last(codec, grace, tr);
             && s.gc.Idle? && s.t.snapshots == [] && s.deleting == {} && s.committed == map[]
             && NoManifest(s.t, "snap")
             && s.runs.Keys == {"r"} && s.runs["r"].phase == Checked(s.t.active, {h})
             && Garbage(s.t, s.t.active, {}, grace, h)
    ensures Allowed(c, codec, grace, longer) && SomeSnapshotBroken(codec, Last(codec, grace, longer))
  {
    var s: State;
    longer, s := PlanSweep(c, codec, grace, tr, h);
    longer, s := SweepBlob(c, codec, grace, longer, h);
    longer, s := CommitRun(c, codec, grace, longer, "snap", data, entries);
    assert h in FileHashes(s.committed["snap"]) && BlobId(s.t.active, h) !in s.t.blobs;
    assert s.t.snapshots[0] in s.t.snapshots;
  }

  /** Without DedupReferenced: a run deduplicates against an old unreferenced blob,
      which is swept between its final check and its commit. */
  lemma DedupNeeded(codec: Codec, grace: nat, data: Bytes, h: string, manifest: Bytes, entries: seq<Entry>)
    returns (tr: Trace)
    requires Sample(codec, data, h, manifest, entries) && grace > 0
    ensures Allowed(Dedup, codec, grace, tr) && SomeSnapshotBroken(codec, Last(codec, grace, tr))
  {
    var s: State;
    tr, s := StoreBlob(Dedup, codec, grace, First(Empty("local")), data, h);
    tr, s := Extend(Dedup, codec, grace, tr, Tick(grace));
    tr, s := CheckRun(Dedup, codec, grace, tr, h);
    tr := SweepThenCommit(Dedup, codec, grace, tr, h, manifest, entries);
  }

  /** Without CommitsInTime: the run's own upload outlives the grace period. */
  lemma InTimeNeeded(codec: Codec, grace: nat, data: Bytes, h: string, manifest: Bytes, entries: seq<Entry>)
    returns (tr: Trace)
    requires Sample(codec, data, h, manifest, entries)
    ensures Allowed(InTime, codec, grace, tr) && SomeSnapshotBroken(codec, Last(codec, grace, tr))
  {
    var s: State;
    tr, s := StoreBlob(InTime, codec, grace, First(Empty("local")), data, h);
    tr, s := CheckRun(InTime, codec, grace, tr, h);
    tr, s := Extend(InTime, codec, grace, tr, Tick(grace));
    tr := SweepThenCommit(InTime, codec, grace, tr, h, manifest, entries);
  }

  /** After a switch to another backend, the same blob is stored there and its sweep
      planned. */
  lemma PlanInOther(codec: Codec, grace: nat, before: Trace, data: Bytes, h: string) returns (tr: Trace, s: State)
    requires Allowed(Sweeps, codec, grace, before) && Verified(codec, data, h)
    requires var s := Last(codec, grace, before);
             && s.puts == map[] && s.runs == map[] && s.gc.Idle?
             && BlobId("old", h) !in s.t.blobs && RowsOf(s.t, "old") == {}
    ensures Allowed(Sweeps, codec, grace, tr) && s == Last(codec, grace, tr)
    ensures var was := Last(codec, grace, before);
            var t := was.t.(active := "old").Put(BlobObject(h), data).AddBlob(BlobId("old", h));
            s == was.(t := t.(clock := t.clock + grace), gc := Sweeping("old", {h}, None))
  {
    tr, s := Extend(Sweeps, codec, grace, before, Switch("old"));
    tr, s := StoreBlob(Sweeps, codec, grace, tr, data, h);
    tr, s := Extend(Sweeps, codec, grace, tr, Tick(grace));
    tr, s := PlanSweep(Sweeps, codec, grace, tr, h);
  }

  /** Without SweepSteady: the sweep of one backend deletes, after a switch, the
      object of a blob that a snapshot of the other backend references. */
  lemma SweepSteadyNeeded(codec: Codec, grace: nat, data: Bytes, h: string, manifest: Bytes, entries: seq<Entry>)
    returns (tr: Trace)
    requires Sample(codec, data, h, manifest, entries) && grace > 0
    ensures Allowed(Sweeps, codec, grace, tr) && SomeSnapshotBroken(codec, Last(codec, grace, tr))
  {
    var s: State;
    tr, s := StoreBlob(Sweeps, codec, grace, First(Empty("new")), data, h);
    tr, s := CommitFresh(Sweeps, codec, grace, tr, h, manifest, entries);
    tr, s := PlanInOther(codec, grace, tr, data, h);
    tr := SweepAfterSwitch(codec, grace, tr, h, entries);
  }

  lemma SweepAfterSwitch(codec: Codec, grace: nat, before: Trace, h: string, entries: seq<Entry>) returns (tr: Trace)
    requires Allowed(Sweeps, codec, grace, before) && h in FileHashes(entries)
    requires var s := Last(codec, grace, before);
             && s.gc == Sweeping("old", {h}, None) && s.puts == map[] && s.runs == map[] && s.deleting == {}
             && s.committed == map["snap" := entries] && |s.t.snapshots| == 1
             && s.t.snapshots[0].id == "snap" && s.t.snapshots[0].backend == "new"
    ensures Allowed(Sweeps, codec, grace, tr) && SomeSnapshotBroken(codec, Last(codec, grace, tr))
  {
    var s: State;
    tr, s := Extend(Sweeps, codec, grace, before, Switch("new"));
    tr, s := Extend(Sweeps, codec, grace, tr, OfGc(DeleteObject(h)));
    assert h in FileHashes(s.committed["snap"]) && !GoodBlob(codec, s.t, BlobId("new", h));
    assert s.t.snapshots[0] in s.t.snapshots;
  }

  function Overlapping(data: Bytes, h: string): State {
    var id := BlobId("local", h);
    Empty("local").(t := Empty("local").t.Put(BlobObject(h), data),
                    puts := map[1 := Putting(id, Written(data), false), 2 := Putting(id, Begun, false)])
  }

  /** Two handlers find the hash missing, and one of them stores it. */
  lemma BothBegin(codec: Codec, grace: int, data: Bytes, h: string) returns (tr: Trace, s: State)
    ensures Allowed(Exclusive, codec, grace, tr) && s == Last(codec, grace, tr) == Overlapping(data, h)
  {
    tr, s := Extend(Exclusive, codec, grace, First(Empty("local")), OfPut(1, Begin(BlobId("local", h))));
    tr, s := Extend(Exclusive, codec, grace, tr, OfPut(2, Begin(BlobId("local", h))));
    tr, s := Extend(Exclusive, codec, grace, tr, OfPut(1, Write(data)));
    assert s.puts == Overlapping(data, h).puts;
  }

  /** The first is accepted; the second, whose upload then fails, deletes the object. */
  lemma OverlappingPuts(codec: Codec, grace: int, data: Bytes, h: string) returns (tr: Trace, s: State)
    requires Verified(codec, data, h)
    ensures Allowed(Exclusive, codec, grace, tr) && s == Last(codec, grace, tr)
    ensures s == Empty("local").(t := Tables("local", 0, map[], map[BlobId("local", h) := 0], []))
  {
    tr, s := BothBegin(codec, grace, data, h);
    tr, s := Extend(Exclusive, codec, grace, tr, OfPut(1, Accept));
    tr, s := Extend(Exclusive, codec, grace, tr, OfPut(2, Reject));
    assert s.t.objects == map[] && s.puts == map[];
  }

  /** Without PutsExclusive: a rejected put deletes the object that an overlapping
      put of the same hash has just indexed, and a run commits against it. */
  lemma ExclusiveNeeded(codec: Codec, grace: nat, data: Bytes, h: string, manifest: Bytes, entries: seq<Entry>)
    returns (tr: Trace)
    requires Sample(codec, data, h, manifest, entries) && grace > 0
    ensures Allowed(Exclusive, codec, grace, tr) && SomeSnapshotBroken(codec, Last(codec, grace, tr))
  {
    var s: State;
    tr, s := OverlappingPuts(codec, grace, data, h);
    tr, s := CommitFresh(Exclusive, codec, grace, tr, h, manifest, entries);
    assert h in FileHashes(s.committed["snap"]) && !GoodBlob(codec, s.t, BlobId("local", h));
    assert s.t.snapshots[0] in s.t.snapshots;
  }

  /** Without LookupsAnswer: the index cannot be read, so a put goes ahead for a blob that
      a snapshot references, is rejected, and takes the stored object with it. */
  lemma LookupNeeded(codec: Codec, grace: nat, data: Bytes, h: string, manifest: Bytes, entries: seq<Entry>)
    returns (tr: Trace)
    requires Sample(codec, data, h, manifest, entries) && grace > 0
    ensures Allowed(Answered, codec, grace, tr) && SomeSnapshotBroken(codec, Last(codec, grace, tr))
  {
    var s: State;
    tr, s := StoreBlob(Answered, codec, grace, First(Empty("local")), data, h);
    tr, s := CommitFresh(Answered, codec, grace, tr, h, manifest, entries);
    tr := RejectMisled(codec, grace, tr, h, entries);
  }

  lemma RejectMisled(codec: Codec, grace: nat, before: Trace, h: string, entries: seq<Entry>) returns (tr: Trace)
    requires Allowed(Answered, codec, grace, before) && h in FileHashes(entries)
    requires var s := Last(codec, grace, before);
             && s.t.active == "local" && s.gc.Idle? && s.puts == map[] && s.runs == map[] && s.deleting == {}
             && s.committed == map["snap" := entries] && |s.t.snapshots| == 1
             && s.t.snapshots[0].id == "snap" && s.t.snapshots[0].backend == "local"
    ensures Allowed(Answered, codec, grace, tr) && SomeSnapshotBroken(codec, Last(codec, grace, tr))
  {
    var s: State;
    tr, s := Extend(Answered, codec, grace, before, OfPut(1, Begin(BlobId("local", h))));
    tr, s := Extend(Answered, codec, grace, tr, OfPut(1, Reject));
    assert h in FileHashes(s.committed["snap"]) && !GoodBlob(codec, s.t, BlobId("local", h));
    assert s.t.snapshots[0] in s.t.snapshots;
  }

  /** Without PutsSteady: a put begun in one backend is rejected after a switch, and takes
      the stored object of the other backend with it. */
  lemma PutsSteadyNeeded(codec: Codec, grace: nat, data: Bytes, h: string, manifest: Bytes, entries: seq<Entry>)
    returns (tr: Trace)
    requires Sample(codec, data, h, manifest, entries) && grace > 0
    ensures Allowed(Puts, codec, grace, tr) && SomeSnapshotBroken(codec, Last(codec, grace, tr))
  {
    var s: State;
    tr, s := StoreBlob(Puts, codec, grace, First(Empty("old")), data, h);
    tr, s := CommitFresh(Puts, codec, grace, tr, h, manifest, entries);
    tr := RejectAfterSwitch(codec, grace, tr, h, entries);
  }

  lemma RejectAfterSwitch(codec: Codec, grace: nat, before: Trace, h: string, entries: seq<Entry>) returns (tr: Trace)
    requires Allowed(Puts, codec, grace, before) && h in FileHashes(entries)
    requires var s := Last(codec, grace, before);
             && s.t.active == "old" && s.gc.Idle? && s.puts == map[] && s.runs == map[] && s.deleting == {}
             && BlobId("new", h) !in s.t.blobs
             && s.committed == map["snap" := entries] && |s.t.snapshots| == 1
             && s.t.snapshots[0].id == "snap" && s.t.snapshots[0].backend == "old"
    ensures Allowed(Puts, codec, grace, tr) && SomeSnapshotBroken(codec, Last(codec, grace, tr))
  {
    var s: State;
    tr, s := Extend(Puts, codec, grace, before, Switch("new"));
    tr, s := Extend(Puts, codec, grace, tr, OfPut(1, Begin(BlobId("new", h))));
    tr, s := Extend(Puts, codec, grace, tr, Switch("old"));
    tr, s := Extend(Puts, codec, grace, tr, OfPut(1, Reject));
    assert h in FileHashes(s.committed["snap"]) && !GoodBlob(codec, s.t, BlobId("old", h));
    assert s.t.snapshots[0] in s.t.snapshots;
  }

  /** Without RunsSteady: a run finds its blob in one backend and commits to another. */
  lemma RunsSteadyNeeded(codec: Codec, grace: nat, data: Bytes, h: string, manifest: Bytes, entries: seq<Entry>)
    returns (tr: Trace)
    requires Sample(codec, data, h, manifest, entries) && grace > 0
    ensures Allowed(Commits, codec, grace, tr) && SomeSnapshotBroken(codec, Last(codec, grace, tr))
  {
    var s: State;
    tr, s := StoreBlob(Commits, codec, grace, First(Empty("old")), data, h);
    tr, s := CheckRun(Commits, codec, grace, tr, h);
    tr := CommitAfterSwitch(codec, grace, tr, h, manifest, entries);
  }

  lemma CommitAfterSwitch(codec: Codec, grace: nat, before: Trace, h: string, manifest: Bytes, entries: seq<Entry>)
    returns (tr: Trace)
    requires Allowed(Commits, codec, grace, before) && grace > 0
    requires codec.readManifest(manifest) == Some(entries) && AllFilesHashed(entries) && FileHashes(entries) == {h}
    requires var s := Last(codec, grace, before);
             && s.t.active == "old" && s.gc.Idle? && s.puts == map[] && s.deleting == {} && s.committed == map[]
             && s.t.snapshots == [] && BlobId("new", h) !in s.t.blobs && NoManifest(s.t, "snap")
             && s.runs == map["r" := BackupRun(s.t.clock, Checked("old", {h}))]
    ensures Allowed(Commits, codec, grace, tr) && SomeSnapshotBroken(codec, Last(codec, grace, tr))
  {
    var s: State;
    tr, s := Extend(Commits, codec, grace, before, Switch("new"));
    tr, s := CommitRun(Commits, codec, grace, tr, "snap", manifest, entries);
    assert h in FileHashes(s.committed["snap"]) && BlobId("new", h) !in s.t.blobs;
    assert s.t.snapshots[0] in s.t.snapshots;
  }
}
