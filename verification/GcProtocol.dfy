/** Backup runs, blob puts, snapshot deletion, garbage collection, the clock and
    backend switches as one interleaved system.  A step is one database
    statement, one storage operation, or taking the commit lock. */
module GcProtocol {
  import opened Basics
  import opened Tables

  // ---------- state ----------

  /** What an agent's run knows: after its final check, the hashes the server
      reported present; after its manifest is stored, the snapshot it will become. */
  datatype Phase =
    | Working
    | Checked(backend: string, hashes: set<string>)
    | Committing(backend: string, hashes: set<string>)
    | Stored(backend: string, hashes: set<string>, id: string, entries: seq<Entry>)

  /** `start` may be any moment before the final check, such as the first upload:
      nothing a run does before that is a step of its own. */
  datatype BackupRun = BackupRun(start: int, phase: Phase)

  /** A put handler that was not told its hash is indexed.  `misled`: it is indexed all
      the same, and the lookup failed, which the handler takes for "not indexed". */
  datatype PutPhase = Begun | Written(data: Bytes)
  datatype Putting = Putting(blob: BlobId, phase: PutPhase, misled: bool)

  /** The collector holds the commit lock unless Idle.  `dangling` is a blob whose
      object is deleted and whose index row is not, yet. */
  datatype Gc =
    | Idle
    | Marking(backend: string, pending: set<Snapshot>, referenced: set<string>)
    | Sweeping(backend: string, todo: set<string>, dangling: Option<string>)

  /** `deleting` holds the snapshots whose manifest has been removed;
      `committed` remembers what every snapshot id was committed with. */
  datatype State = State(
    t: Tables,
    runs: map<string, BackupRun>,
    puts: map<int, Putting>,
    deleting: set<string>,
    gc: Gc,
    committed: map<string, seq<Entry>>)

  /** The steps of one run: its start, its final check, batch by batch, its commit in
      three statements under the read lock, or giving up (cancelled, or a failed
      statement). */
  datatype RunStep =
    | Start
    | FinalCheck(asked: set<string>)
    | BeginCommit
    | StoreManifest(id: string, data: Bytes)
    | CreateRow(job: string)
    | Abandon(cleaned: bool)

  /** The steps of one put handler once HasBlob has said no, or has failed. */
  datatype PutStep = Begin(blob: BlobId) | Write(data: Bytes) | Accept | Reject | Lose

  /** The steps of gcBlobs.  `Abort` is any failing read, delete or statement. */
  datatype GcStep =
    | Lock
    | Mark(sn: Snapshot)
    | Plan(chosen: set<string>)
    | DeleteObject(hash: string)
    | DeleteIndexRow
    | Finish
    | Abort

  datatype Step =
    | OfRun(run: string, runStep: RunStep)
    | OfPut(handler: int, putStep: PutStep)
    | OfGc(gcStep: GcStep)
    | DeleteManifest(id: string)
    | DeleteRow(id: string)
    | Tick(seconds: nat)
    | Switch(backend: string)

  predicate HoldsReadLock(p: Phase) {
    p.Committing? || p.Stored?
  }

  predicate NoManifest(t: Tables, id: string) {
    forall o :: o in t.objects ==> o.key != ManifestObject(id)
  }

  /** What NewID returns: an id no run, row, snapshot or object has. */
  predicate FreshId(s: State, id: string) {
    && id !in s.committed && NoManifest(s.t, id)
    && forall r :: r in s.runs && s.runs[r].phase.Stored? ==> s.runs[r].phase.id != id
  }

  /** What the sweep may delete: indexed, unreferenced and past the grace period. */
  predicate Garbage(t: Tables, backend: string, referenced: set<string>, grace: int, h: string) {
    var id := BlobId(backend, h);
    id in t.blobs && h !in referenced && t.blobs[id] <= t.clock - grace
  }

  /** Rows listed by one backend's ListSnapshots. */
  function RowsOf(t: Tables, backend: string): set<Snapshot> {
    set sn | sn in t.snapshots && sn.backend == backend
  }

  predicate RunEnabled(codec: Codec, s: State, r: string, step: RunStep) {
    match step
    case Start => r !in s.runs
    case FinalCheck(asked) => r in s.runs && (s.runs[r].phase.Working? || s.runs[r].phase.Checked?)
    case BeginCommit => r in s.runs && s.runs[r].phase.Checked? && s.gc.Idle?
    case StoreManifest(id, data) =>
      && r in s.runs && s.runs[r].phase.Committing? && FreshId(s, id)
      && codec.readManifest(data).Some?
      && AllFilesHashed(codec.readManifest(data).value)
      && FileHashes(codec.readManifest(data).value) <= s.runs[r].phase.hashes
    case CreateRow(job) => r in s.runs && s.runs[r].phase.Stored?
    case Abandon(cleaned) => r in s.runs
  }

  function AfterRun(codec: Codec, s: State, r: string, step: RunStep): State
    requires RunEnabled(codec, s, r, step)
  {
    match step
    case Start => s.(runs := s.runs[r := BackupRun(s.t.clock, Working)])
    case FinalCheck(asked) =>
      var p := s.runs[r].phase;
      var present := set h | h in asked && BlobId(s.t.active, h) in s.t.blobs;
      var found := if p.Checked? then p.hashes + present else present;
      s.(runs := s.runs[r := s.runs[r].(phase := Checked(s.t.active, found))])
    case BeginCommit =>
      var p := s.runs[r].phase;
      s.(runs := s.runs[r := s.runs[r].(phase := Committing(p.backend, p.hashes))])
    case StoreManifest(id, data) =>
      var p := s.runs[r].phase;
      var entries := codec.readManifest(data).value;
      s.(t := s.t.Put(ManifestObject(id), data),
         runs := s.runs[r := s.runs[r].(phase := Stored(p.backend, p.hashes, id, entries))])
    case CreateRow(job) =>
      var p := s.runs[r].phase;
      s.(t := s.t.InsertSnapshot(Snapshot(p.id, s.t.active, job, s.t.clock)),
         runs := s.runs - {r},
         committed := s.committed[p.id := p.entries])
    case Abandon(cleaned) =>
      var p := s.runs[r].phase;
      s.(t := if cleaned && p.Stored? then s.t.Remove(ManifestObject(p.id)) else s.t, runs := s.runs - {r})
  }

  predicate PutEnabled(codec: Codec, s: State, n: int, step: PutStep) {
    match step
    case Begin(id) => n !in s.puts && id.backend == s.t.active
    case Write(data) => n in s.puts && s.puts[n].phase.Begun?
    case Accept =>
      && n in s.puts && s.puts[n].phase.Written?
      && Verified(codec, s.puts[n].phase.data, s.puts[n].blob.hash)
    case Reject => n in s.puts
    case Lose => n in s.puts
  }

  function AfterPut(codec: Codec, s: State, n: int, step: PutStep): State
    requires PutEnabled(codec, s, n, step)
  {
    match step
    case Begin(id) => s.(puts := s.puts[n := Putting(id, Begun, id in s.t.blobs)])
    case Write(data) =>
      var id := s.puts[n].blob;
      s.(t := s.t.Put(BlobObject(id.hash), data), puts := s.puts[n := s.puts[n].(phase := Written(data))])
    case Accept =>
      s.(t := s.t.AddBlob(BlobId(s.t.active, s.puts[n].blob.hash)), puts := s.puts - {n})
    case Reject =>
      s.(t := s.t.Remove(BlobObject(s.puts[n].blob.hash)), puts := s.puts - {n})
    case Lose => s.(puts := s.puts - {n})
  }

  predicate GcEnabled(codec: Codec, grace: int, s: State, step: GcStep) {
    match step
    case Lock => s.gc.Idle? && forall r :: r in s.runs ==> !HoldsReadLock(s.runs[r].phase)
    case Mark(sn) => s.gc.Marking? && sn in s.gc.pending && ReadFrom(codec, s.t, sn.id).Some?
    case Plan(chosen) =>
      && s.gc.Marking? && s.gc.pending == {}
      && forall h :: h in chosen ==> Garbage(s.t, s.gc.backend, s.gc.referenced, grace, h)
    case DeleteObject(h) => s.gc.Sweeping? && s.gc.dangling.None? && h in s.gc.todo
    case DeleteIndexRow => s.gc.Sweeping? && s.gc.dangling.Some?
    case Finish => s.gc.Sweeping? && s.gc.dangling.None?
    case Abort => !s.gc.Idle?
  }

  function AfterGc(codec: Codec, grace: int, s: State, step: GcStep): State
    requires GcEnabled(codec, grace, s, step)
  {
    match step
    case Lock => s.(gc := Marking(s.t.active, RowsOf(s.t, s.t.active), {}))
    case Mark(sn) =>
      var found := FileHashes(ReadFrom(codec, s.t, sn.id).value);
      s.(gc := Marking(s.gc.backend, s.gc.pending - {sn}, s.gc.referenced + found))
    case Plan(chosen) => s.(gc := Sweeping(s.gc.backend, chosen, None))
    case DeleteObject(h) => s.(t := s.t.Remove(BlobObject(h)), gc := s.gc.(dangling := Some(h)))
    case DeleteIndexRow =>
      var h := s.gc.dangling.value;
      s.(t := s.t.DeleteBlob(BlobId(s.gc.backend, h)), gc := Sweeping(s.gc.backend, s.gc.todo - {h}, None))
    case Finish => s.(gc := Idle)
    case Abort => s.(gc := Idle)
  }

  predicate Enabled(codec: Codec, grace: int, s: State, step: Step) {
    match step
    case OfRun(r, runStep) => RunEnabled(codec, s, r, runStep)
    case OfPut(n, putStep) => PutEnabled(codec, s, n, putStep)
    case OfGc(gcStep) => GcEnabled(codec, grace, s, gcStep)
    case DeleteManifest(id) => exists sn :: sn in s.t.snapshots && sn.id == id
    case DeleteRow(id) => id in s.deleting
    case Tick(_) => true
    case Switch(_) => true
  }

  function Apply(codec: Codec, grace: int, s: State, step: Step): State
    requires Enabled(codec, grace, s, step)
  {
    match step
    case OfRun(r, runStep) => AfterRun(codec, s, r, runStep)
    case OfPut(n, putStep) => AfterPut(codec, s, n, putStep)
    case OfGc(gcStep) => AfterGc(codec, grace, s, gcStep)
    case DeleteManifest(id) => s.(t := s.t.Remove(ManifestObject(id)), deleting := s.deleting + {id})
    case DeleteRow(id) => s.(t := s.t.DeleteSnapshotRow(id))
    case Tick(d) => s.(t := s.t.(clock := s.t.clock + d))
    case Switch(b) => s.(t := s.t.(active := b))
  }

  // ---------- runs of the system ----------

  predicate Initial(s: State) {
    && s.t.objects == map[] && s.t.blobs == map[] && s.t.snapshots == []
    && s.runs == map[] && s.puts == map[] && s.deleting == {} && s.gc == Idle && s.committed == map[]
  }

  /** A history: an initial state and the steps taken since. */
  datatype Trace = First(state: State) | Then(before: Trace, step: Step)

  ghost predicate Possible(codec: Codec, grace: int, tr: Trace)
    decreases tr, 0
  {
    match tr
    case First(s) => Initial(s)
    case Then(before, step) =>
      Possible(codec, grace, before) && Enabled(codec, grace, Last(codec, grace, before), step)
  }

  ghost function Last(codec: Codec, grace: int, tr: Trace): State
    requires Possible(codec, grace, tr)
    decreases tr, 1
  {
    match tr
    case First(s) => s
    case Then(before, step) => Apply(codec, grace, Last(codec, grace, before), step)
  }

  /** The predicate holds in every state of the history. */
  ghost predicate Always(codec: Codec, grace: int, tr: Trace, p: State -> bool)
    requires Possible(codec, grace, tr)
  {
    p(Last(codec, grace, tr)) && (tr.Then? ==> Always(codec, grace, tr.before, p))
  }

  // ---------- hypotheses ----------

  /** A row of that backend, not yet deleted, whose manifest names the hash. */
  ghost predicate Referenced(s: State, backend: string, h: string) {
    exists sn :: sn in s.t.snapshots && sn.backend == backend
              && sn.id in s.committed && h in FileHashes(s.committed[sn.id])
  }

  /** A run that has done its final check is inside the grace period of its start. */
  ghost predicate CommitsInTime(grace: int, s: State) {
    forall r :: r in s.runs && !s.runs[r].phase.Working? ==> s.t.clock < s.runs[r].start + grace
  }

  /** A hash the run relies on that was indexed before the run started is still
      referenced by some snapshot. */
  ghost predicate DedupReferenced(s: State) {
    forall r, h :: r in s.runs && !s.runs[r].phase.Working? && h in s.runs[r].phase.hashes ==>
      var id := BlobId(s.runs[r].phase.backend, h);
      id in s.t.blobs && s.t.blobs[id] < s.runs[r].start ==> Referenced(s, id.backend, h)
  }

  /** No backend switch falls inside a collection, ... */
  ghost predicate SweepSteady(s: State) {
    !s.gc.Idle? ==> s.gc.backend == s.t.active
  }

  /** ... inside a put, ... */
  ghost predicate PutsSteady(s: State) {
    forall n :: n in s.puts ==> s.puts[n].blob.backend == s.t.active
  }

  /** ... or between a run's final check and the end of its commit. */
  ghost predicate RunsSteady(s: State) {
    forall r :: r in s.runs && !s.runs[r].phase.Working? ==> s.runs[r].phase.backend == s.t.active
  }

  /** Two put handlers never work on the same blob at once. */
  ghost predicate PutsExclusive(s: State) {
    forall m, n :: m in s.puts && n in s.puts && s.puts[m].blob == s.puts[n].blob ==> m == n
  }

  /** No put was misled about its blob by a failed lookup. */
  ghost predicate LookupsAnswer(s: State) {
    forall n :: n in s.puts ==> !s.puts[n].misled
  }

  ghost predicate Assumed(grace: int, s: State) {
    && CommitsInTime(grace, s) && DedupReferenced(s)
    && SweepSteady(s) && PutsSteady(s) && RunsSteady(s)
    && PutsExclusive(s) && LookupsAnswer(s)
  }

  // ---------- invariant ----------

  /** A blob whose object a sweep has already deleted: nothing refers to it and it
      is past the grace period. */
  ghost predicate Lost(grace: int, s: State, id: BlobId) {
    id in s.t.blobs && s.t.blobs[id] <= s.t.clock - grace && !Referenced(s, id.backend, id.hash)
  }

  ghost predicate BlobsStored(codec: Codec, grace: int, s: State) {
    forall id :: id in s.t.blobs ==>
      s.t.blobs[id] <= s.t.clock && (GoodBlob(codec, s.t, id) || Lost(grace, s, id))
  }

  ghost predicate PutsSound(s: State) {
    forall n :: n in s.puts ==>
      var id := s.puts[n].blob;
      && id !in s.t.blobs
      && (s.puts[n].phase.Written? ==>
            var o := ObjectId(id.backend, BlobObject(id.hash));
            o in s.t.objects && s.t.objects[o] == s.puts[n].phase.data)
  }

  ghost predicate RowSound(codec: Codec, s: State, sn: Snapshot) {
    && sn.id in s.committed
    && AllFilesHashed(s.committed[sn.id])
    && (ObjectId(sn.backend, ManifestObject(sn.id)) in s.t.objects ==>
          HoldsManifest(codec, s.t, sn, s.committed[sn.id]))
    && (sn.id !in s.deleting ==> HoldsManifest(codec, s.t, sn, s.committed[sn.id]))
    && Available(codec, s.t, sn.backend, FileHashes(s.committed[sn.id]))
  }

  ghost predicate RowsSound(codec: Codec, s: State) {
    forall sn :: sn in s.t.snapshots ==> RowSound(codec, s, sn)
  }

  ghost predicate GcSound(grace: int, s: State) {
    match s.gc
    case Idle => true
    case Marking(b, pending, referenced) =>
      forall sn :: sn in s.t.snapshots && sn.backend == b && sn !in pending ==>
        sn.id in s.committed && FileHashes(s.committed[sn.id]) <= referenced
    case Sweeping(b, todo, dangling) =>
      && (forall h :: h in todo ==> Lost(grace, s, BlobId(b, h)))
      && (dangling.Some? ==> dangling.value in todo)
  }

  ghost predicate RunSound(codec: Codec, s: State, run: BackupRun) {
    && run.start <= s.t.clock
    && (!run.phase.Working? ==> Available(codec, s.t, run.phase.backend, run.phase.hashes))
    && (HoldsReadLock(run.phase) ==> s.gc.Idle?)
    && (run.phase.Stored? ==>
          && run.phase.id !in s.committed
          && HoldsManifest(codec, s.t, Snapshot(run.phase.id, run.phase.backend, "", 0), run.phase.entries)
          && AllFilesHashed(run.phase.entries)
          && FileHashes(run.phase.entries) <= run.phase.hashes)
  }

  ghost predicate RunsSound(codec: Codec, s: State) {
    forall r :: r in s.runs ==> RunSound(codec, s, s.runs[r])
  }

  /** Snapshot ids (NewID) are never reused, so a deletion never hits a new one. */
  ghost predicate IdsUnique(s: State) {
    && (forall r, q | r in s.runs && q in s.runs && s.runs[r].phase.Stored? && s.runs[q].phase.Stored? ::
          s.runs[r].phase.id == s.runs[q].phase.id ==> r == q)
    && (forall id :: id in s.deleting ==> id in s.committed)
  }

  ghost predicate Inv(codec: Codec, grace: int, s: State) {
    && BlobsStored(codec, grace, s)
    && PutsSound(s)
    && RowsSound(codec, s)
    && GcSound(grace, s)
    && RunsSound(codec, s)
    && IdsUnique(s)
  }

  // ---------- every step keeps the invariant ----------

  /** NewID never returns an id twice, and rows are rows of committed snapshots. */
  ghost predicate IdsSound(s: State) {
    && IdsUnique(s)
    && (forall sn :: sn in s.t.snapshots ==> sn.id in s.committed)
    && (forall r :: r in s.runs && s.runs[r].phase.Stored? ==> s.runs[r].phase.id !in s.committed)
  }

  lemma StoreKeepsIds(codec: Codec, s: State, r: string, id: string, data: Bytes)
    requires IdsSound(s) && RunEnabled(codec, s, r, StoreManifest(id, data))
    ensures IdsSound(AfterRun(codec, s, r, StoreManifest(id, data)))
  {
  }

  lemma RowKeepsIds(codec: Codec, s: State, r: string, job: string)
    requires IdsSound(s) && RunEnabled(codec, s, r, CreateRow(job))
    ensures IdsSound(AfterRun(codec, s, r, CreateRow(job)))
  {
  }

  lemma RunKeepsIds(codec: Codec, s: State, r: string, step: RunStep)
    requires IdsSound(s) && RunEnabled(codec, s, r, step) && !step.StoreManifest? && !step.CreateRow?
    ensures IdsSound(AfterRun(codec, s, r, step))
  {
  }

  lemma SameIds(s: State, u: State)
    requires IdsSound(s) && u.runs == s.runs && u.committed == s.committed
    requires forall id :: id in u.deleting ==> id in u.committed
    requires forall sn :: sn in u.t.snapshots ==> sn in s.t.snapshots
    ensures IdsSound(u)
  {
  }

  lemma StepKeepsIds(codec: Codec, grace: int, s: State, step: Step)
    requires IdsSound(s) && Enabled(codec, grace, s, step)
    ensures IdsSound(Apply(codec, grace, s, step))
  {
    match step
    case OfRun(r, StoreManifest(id, data)) => StoreKeepsIds(codec, s, r, id, data);
    case OfRun(r, CreateRow(job)) => RowKeepsIds(codec, s, r, job);
    case OfRun(r, runStep) => RunKeepsIds(codec, s, r, runStep);
    case _ => SameIds(s, Apply(codec, grace, s, step));
  }

  lemma RunKeepsBlobs(codec: Codec, grace: int, s: State, r: string, step: RunStep)
    requires Inv(codec, grace, s) && Assumed(grace, s) && RunEnabled(codec, s, r, step)
    requires Assumed(grace, AfterRun(codec, s, r, step))
    ensures BlobsStored(codec, grace, AfterRun(codec, s, r, step))
  {
    match step
    case Start =>
    case FinalCheck(asked) =>
    case BeginCommit =>
    case StoreManifest(id, data) =>
    case CreateRow(job) =>
    case Abandon(cleaned) =>
  }

  lemma RunKeepsPutsAndGc(codec: Codec, grace: int, s: State, r: string, step: RunStep)
    requires Inv(codec, grace, s) && Assumed(grace, s) && RunEnabled(codec, s, r, step)
    requires Assumed(grace, AfterRun(codec, s, r, step))
    ensures PutsSound(AfterRun(codec, s, r, step))
    ensures GcSound(grace, AfterRun(codec, s, r, step))
  {
    match step
    case Start =>
    case FinalCheck(asked) =>
    case BeginCommit =>
    case StoreManifest(id, data) =>
    case CreateRow(job) =>
    case Abandon(cleaned) =>
  }

  lemma RunKeepsRows(codec: Codec, grace: int, s: State, r: string, step: RunStep)
    requires Inv(codec, grace, s) && Assumed(grace, s) && RunEnabled(codec, s, r, step)
    requires Assumed(grace, AfterRun(codec, s, r, step))
    ensures RowsSound(codec, AfterRun(codec, s, r, step))
  {
    match step
    case Start =>
    case FinalCheck(asked) =>
    case BeginCommit =>
    case StoreManifest(id, data) =>
    case CreateRow(job) =>
    case Abandon(cleaned) =>
  }

  lemma StoreKeepsRuns(codec: Codec, grace: int, s: State, r: string, step: RunStep)
    requires Inv(codec, grace, s) && Assumed(grace, s) && RunEnabled(codec, s, r, step) && step.StoreManifest?
    requires Assumed(grace, AfterRun(codec, s, r, step))
    ensures RunsSound(codec, AfterRun(codec, s, r, step))
  {
  }

  lemma RunKeepsRuns(codec: Codec, grace: int, s: State, r: string, step: RunStep)
    requires Inv(codec, grace, s) && Assumed(grace, s) && RunEnabled(codec, s, r, step)
    requires Assumed(grace, AfterRun(codec, s, r, step))
    ensures RunsSound(codec, AfterRun(codec, s, r, step))
  {
    match step
    case Start =>
    case FinalCheck(asked) =>
    case BeginCommit =>
    case StoreManifest(id, data) => StoreKeepsRuns(codec, grace, s, r, step);
    case CreateRow(job) =>
    case Abandon(cleaned) =>
  }

  lemma PutKeepsStores(codec: Codec, grace: int, s: State, n: int, step: PutStep)
    requires Inv(codec, grace, s) && Assumed(grace, s) && PutEnabled(codec, s, n, step)
    requires Assumed(grace, AfterPut(codec, s, n, step))
    ensures BlobsStored(codec, grace, AfterPut(codec, s, n, step))
    ensures PutsSound(AfterPut(codec, s, n, step))
    ensures GcSound(grace, AfterPut(codec, s, n, step))
  {
    match step
    case Begin(id) =>
    case Write(data) =>
    case Accept =>
    case Reject =>
    case Lose =>
  }

  lemma PutKeepsSnapshots(codec: Codec, grace: int, s: State, n: int, step: PutStep)
    requires Inv(codec, grace, s) && Assumed(grace, s) && PutEnabled(codec, s, n, step)
    requires Assumed(grace, AfterPut(codec, s, n, step))
    ensures RowsSound(codec, AfterPut(codec, s, n, step))
    ensures RunsSound(codec, AfterPut(codec, s, n, step))
  {
    match step
    case Begin(id) =>
    case Write(data) =>
    case Accept =>
    case Reject =>
    case Lose =>
  }

  lemma GcKeepsStores(codec: Codec, grace: int, s: State, step: GcStep)
    requires Inv(codec, grace, s) && Assumed(grace, s) && GcEnabled(codec, grace, s, step)
    requires Assumed(grace, AfterGc(codec, grace, s, step))
    ensures BlobsStored(codec, grace, AfterGc(codec, grace, s, step))
    ensures PutsSound(AfterGc(codec, grace, s, step))
    ensures GcSound(grace, AfterGc(codec, grace, s, step))
  {
    match step
    case Lock =>
    case Mark(sn) =>
    case Plan(chosen) =>
    case DeleteObject(h) =>
    case DeleteIndexRow =>
    case Finish =>
    case Abort =>
  }

  lemma GcKeepsSnapshots(codec: Codec, grace: int, s: State, step: GcStep)
    requires Inv(codec, grace, s) && Assumed(grace, s) && GcEnabled(codec, grace, s, step)
    requires Assumed(grace, AfterGc(codec, grace, s, step))
    ensures RowsSound(codec, AfterGc(codec, grace, s, step))
    ensures RunsSound(codec, AfterGc(codec, grace, s, step))
  {
    match step
    case Lock =>
    case Mark(sn) =>
    case Plan(chosen) =>
    case DeleteObject(h) =>
    case DeleteIndexRow =>
    case Finish =>
    case Abort =>
  }

  lemma OtherKeepsStores(codec: Codec, grace: int, s: State, step: Step)
    requires Inv(codec, grace, s) && Assumed(grace, s) && Enabled(codec, grace, s, step)
    requires step.DeleteManifest? || step.DeleteRow? || step.Tick? || step.Switch?
    requires Assumed(grace, Apply(codec, grace, s, step))
    ensures BlobsStored(codec, grace, Apply(codec, grace, s, step))
    ensures PutsSound(Apply(codec, grace, s, step))
    ensures GcSound(grace, Apply(codec, grace, s, step))
  {
    match step
    case DeleteManifest(id) =>
    case DeleteRow(id) =>
    case Tick(d) =>
    case Switch(b) =>
  }

  lemma OtherKeepsSnapshots(codec: Codec, grace: int, s: State, step: Step)
    requires Inv(codec, grace, s) && Assumed(grace, s) && Enabled(codec, grace, s, step)
    requires step.DeleteManifest? || step.DeleteRow? || step.Tick? || step.Switch?
    requires Assumed(grace, Apply(codec, grace, s, step))
    ensures RowsSound(codec, Apply(codec, grace, s, step))
    ensures RunsSound(codec, Apply(codec, grace, s, step))
  {
    match step
    case DeleteManifest(id) =>
    case DeleteRow(id) =>
    case Tick(d) =>
    case Switch(b) =>
  }

  lemma StepKeepsInv(codec: Codec, grace: int, s: State, step: Step)
    requires Inv(codec, grace, s) && Assumed(grace, s) && Enabled(codec, grace, s, step)
    requires Assumed(grace, Apply(codec, grace, s, step))
    ensures Inv(codec, grace, Apply(codec, grace, s, step))
  {
    assert IdsSound(s);
    StepKeepsIds(codec, grace, s, step);
    match step
    case OfRun(r, runStep) =>
      RunKeepsBlobs(codec, grace, s, r, runStep);
      RunKeepsPutsAndGc(codec, grace, s, r, runStep);
      RunKeepsRows(codec, grace, s, r, runStep);
      RunKeepsRuns(codec, grace, s, r, runStep);
    case OfPut(n, putStep) =>
      PutKeepsStores(codec, grace, s, n, putStep);
      PutKeepsSnapshots(codec, grace, s, n, putStep);
    case OfGc(gcStep) =>
      GcKeepsStores(codec, grace, s, gcStep);
      GcKeepsSnapshots(codec, grace, s, gcStep);
    case _ =>
      OtherKeepsStores(codec, grace, s, step);
      OtherKeepsSnapshots(codec, grace, s, step);
  }

  // ---------- safety of every history ----------

  lemma {:induction false} HistoryKeepsInv(codec: Codec, grace: int, tr: Trace)
    requires Possible(codec, grace, tr) && Always(codec, grace, tr, s => Assumed(grace, s))
    ensures Inv(codec, grace, Last(codec, grace, tr))
  {
    if tr.Then? {
      HistoryKeepsInv(codec, grace, tr.before);
      StepKeepsInv(codec, grace, Last(codec, grace, tr.before), tr.step);
    }
  }

  /** Whatever the interleaving, every snapshot row whose deletion has not begun
      holds exactly the manifest it was committed with, and every file hash in it
      is indexed and stored, with the right content, in the snapshot's backend. */
  lemma EverySnapshotRestorable(codec: Codec, grace: int, tr: Trace)
    requires Possible(codec, grace, tr) && Always(codec, grace, tr, s => Assumed(grace, s))
    ensures var s := Last(codec, grace, tr);
            forall sn :: sn in s.t.snapshots && sn.id !in s.deleting ==>
              sn.id in s.committed && Restorable(codec, s.t, sn, s.committed[sn.id])
  {
    HistoryKeepsInv(codec, grace, tr);
  }
}
