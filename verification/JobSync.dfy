/** The two ends of job synchronisation: the agent's localConfig and the server's
    job handlers. */
module JobSync {
  import opened Basics
  import opened Sorting

  // ---------- jobs ----------

  /** The user-editable fields that have no default. */
  datatype Common = Common(
    name: string, paths: seq<string>, excludes: seq<string>, schedule: string,
    fullEvery: int, keepLast: int, keepDays: int, preHook: string, postHook: string)

  datatype Spec = Spec(common: Common, enabled: bool, catchup: bool)
  datatype Origin = ByServer | ByClient
  datatype Job = Job(id: string, agent: string, spec: Spec, origin: Origin, version: int)

  /** A job as the file holds it; an omitted boolean means true.  `tag` stands for
      the identity of the entry in the user's file and is not part of its text. */
  datatype YamlJob = YamlJob(id: string, common: Common, enabled: Option<bool>, catchup: Option<bool>, tag: int)

  /** A job on its way to the server, with the file entry it was read from. */
  datatype Outgoing = Outgoing(job: Job, tag: int)

  function ToProto(y: YamlJob): Job {
    var enabled := if y.enabled.Some? then y.enabled.value else true;
    var catchup := if y.catchup.Some? then y.catchup.value else true;
    Job(y.id, "", Spec(y.common, enabled, catchup), ByServer, 0)
  }

  function YamlFromProto(j: Job): YamlJob {
    YamlJob(j.id, j.spec.common, Some(j.spec.enabled), Some(j.spec.catchup), 0)
  }

  /** A boolean that the file omits means true; every other field is sent as it stands in
      the file. */
  lemma OmittedMeansTrue(y: YamlJob)
    ensures var s := ToProto(y).spec;
            && s.common == y.common && ToProto(y).id == y.id
            && (s.enabled <==> y.enabled != Some(false)) && (s.catchup <==> y.catchup != Some(false))
  {
  }

  /** Two jobs differ for the diff exactly when something a user can edit differs. */
  lemma SpecEqualIff(a: Job, b: Job)
    ensures JobSpecEqual(a, b) <==> a.id == b.id && a.spec == b.spec
  {
  }

  /** Equality once agent, origin and version are blanked. */
  predicate JobSpecEqual(a: Job, b: Job) {
    a.(agent := "", origin := ByServer, version := 0) == b.(agent := "", origin := ByServer, version := 0)
  }

  // ---------- the agent ----------

  /** syncNow's diff of a file against the cached server set: what it sends, and
      the names it then has in flight. */
  function Diff(file: seq<YamlJob>, cached: map<string, Job>, inFlight: set<string>): (seq<Outgoing>, set<string>) {
    if file == [] then ([], inFlight)
    else
      var k := |file| - 1;
      var (upd, names) := Diff(file[..k], cached, inFlight);
      var j := ToProto(file[k]);
      if j.spec.common.name == "" || j.spec.common.paths == [] then (upd, names)
      else if j.id == "" then
        if j.spec.common.name in names then (upd, names)
        else (upd + [Outgoing(j, file[k].tag)], names + {j.spec.common.name})
      else if j.id !in cached || JobSpecEqual(j, cached[j.id]) then (upd, names)
      else (upd + [Outgoing(j.(version := cached[j.id].version + 1), file[k].tag)], names)
  }

  predicate Sendable(y: YamlJob) {
    y.common.name != "" && y.common.paths != []
  }

  /** The edit an entry of the file gives rise to. */
  predicate SendsEdit(y: YamlJob, cached: map<string, Job>, o: Outgoing) {
    && Sendable(y) && y.id != "" && y.id in cached && !JobSpecEqual(ToProto(y), cached[y.id])
    && o == Outgoing(ToProto(y).(version := cached[y.id].version + 1), y.tag)
  }

  ghost predicate EditedEntry(file: seq<YamlJob>, cached: map<string, Job>, o: Outgoing) {
    exists i :: 0 <= i < |file| && SendsEdit(file[i], cached, o)
  }

  /** The names of complete entries that have no id yet. */
  function NewNames(file: seq<YamlJob>): set<string> {
    set i | 0 <= i < |file| && Sendable(file[i]) && file[i].id == "" :: file[i].common.name
  }

  /** The edits sent are exactly those of entries that differ from the cached job, one
      version up. */
  lemma {:induction false} DiffEditsIff(
      file: seq<YamlJob>, cached: map<string, Job>, inFlight: set<string>, o: Outgoing)
    requires o.job.id != ""
    ensures o in Diff(file, cached, inFlight).0 <==> EditedEntry(file, cached, o)
  {
    if file != [] {
      var k := |file| - 1;
      DiffEditsIff(file[..k], cached, inFlight, o);
      EditedNext(file, cached, o);
    }
  }

  /** A create carries what its entry says: its spec, under no id yet. */
  lemma {:induction false} CreatesCarryEntries(
    file: seq<YamlJob>, cached: map<string, Job>, inFlight: set<string>, o: Outgoing) returns (i: nat)
    requires o in Diff(file, cached, inFlight).0 && o.job.id == ""
    ensures i < |file| && file[i].id == "" && file[i].tag == o.tag && o.job.spec.common == file[i].common
    ensures o.job.spec.enabled <==> file[i].enabled != Some(false)
    ensures o.job.spec.catchup <==> file[i].catchup != Some(false)
    ensures file[i].common.name != "" && file[i].common.paths != [] && file[i].common.name !in inFlight
  {
    var k := |file| - 1;
    if o in Diff(file[..k], cached, inFlight).0 {
      i := CreatesCarryEntries(file[..k], cached, inFlight, o);
    } else {
      DiffCreatesNewNames(file[..k], cached, inFlight);
      i := k;
    }
  }

  /** The creates sent are those of the new names not in flight, and every new name is
      in flight afterwards. */
  lemma {:induction false} DiffCreatesNewNames(file: seq<YamlJob>, cached: map<string, Job>, inFlight: set<string>)
    ensures var (upd, names) := Diff(file, cached, inFlight);
            names == inFlight + NewNames(file) && CreateNames(upd) == names - inFlight
  {
    if file != [] {
      var k := |file| - 1;
      DiffCreatesNewNames(file[..k], cached, inFlight);
      NewNamesNext(file);
      DiffNamesNext(file, cached, inFlight);
    }
  }

  function NameIfNew(y: YamlJob): set<string> {
    if Sendable(y) && y.id == "" then {y.common.name} else {}
  }

  lemma NewNamesNext(file: seq<YamlJob>)
    requires file != []
    ensures NewNames(file) == NewNames(file[..|file| - 1]) + NameIfNew(file[|file| - 1])
  {
  }

  lemma DiffNamesNext(file: seq<YamlJob>, cached: map<string, Job>, inFlight: set<string>)
    requires file != []
    ensures var k := |file| - 1;
            var (before, was) := Diff(file[..k], cached, inFlight);
            var (upd, names) := Diff(file, cached, inFlight);
            && names == was + NameIfNew(file[k])
            && CreateNames(upd) == CreateNames(before) + (NameIfNew(file[k]) - was)
  {
    var k := |file| - 1;
    var before, upd := Diff(file[..k], cached, inFlight).0, Diff(file, cached, inFlight).0;
    if upd != before {
      CreateNamesNext(before, upd[|before|]);
    }
  }

  lemma EditedNext(file: seq<YamlJob>, cached: map<string, Job>, o: Outgoing)
    requires file != []
    ensures var k := |file| - 1;
            EditedEntry(file, cached, o) <==> EditedEntry(file[..k], cached, o) || SendsEdit(file[k], cached, o)
  {
    var k := |file| - 1;
    assert forall i :: 0 <= i < k ==> file[..k][i] == file[i];
    if EditedEntry(file[..k], cached, o) {
      var i :| 0 <= i < k && SendsEdit(file[..k][i], cached, o);
      assert SendsEdit(file[i], cached, o);
    }
  }

  lemma CreateNamesNext(upd: seq<Outgoing>, o: Outgoing)
    ensures CreateNames(upd + [o]) == CreateNames(upd) + if o.job.id == "" then {o.job.spec.common.name} else {}
  {
    var more := upd + [o];
    forall name | name in CreateNames(upd)
      ensures name in CreateNames(more)
    {
      var i :| 0 <= i < |upd| && upd[i].job.id == "" && upd[i].job.spec.common.name == name;
      assert more[i] == upd[i];
    }
    assert more[|upd|] == o;
  }

  /** The creates a failed send puts back. */
  function CreateNames(upd: seq<Outgoing>): set<string> {
    set i | 0 <= i < |upd| && upd[i].job.id == "" :: upd[i].job.spec.common.name
  }

  function ById(jobs: seq<Job>): map<string, Job> {
    if jobs == [] then map[] else ById(jobs[..|jobs| - 1])[jobs[|jobs| - 1].id := jobs[|jobs| - 1]]
  }

  function FileOf(jobs: seq<Job>): seq<YamlJob> {
    if jobs == [] then [] else FileOf(jobs[..|jobs| - 1]) + [YamlFromProto(jobs[|jobs| - 1])]
  }

  /** The deletions whose request gets through, in the file's order. */
  function Requested(deletes: seq<string>, reaches: int -> bool): seq<string> {
    if deletes == [] then []
    else
      var k := |deletes| - 1;
      Requested(deletes[..k], reaches) + if reaches(k) then [deletes[k]] else []
  }

  lemma RequestedNext(deletes: seq<string>, reaches: int -> bool, i: nat)
    requires i < |deletes|
    ensures Requested(deletes[..i + 1], reaches)
         == Requested(deletes[..i], reaches) + if reaches(i) then [deletes[i]] else []
  {
    assert deletes[..i + 1][..i] == deletes[..i];
  }

  /** Only deletions the file asks for are requested, and when nothing fails all are. */
  lemma {:induction false} RequestedAre(deletes: seq<string>, reaches: int -> bool)
    ensures forall id :: id in Requested(deletes, reaches) ==> id in deletes
    ensures (forall i :: reaches(i)) ==> Requested(deletes, reaches) == deletes
  {
    if deletes != [] {
      RequestedAre(deletes[..|deletes| - 1], reaches);
    }
  }

  /** localConfig with the file it watches. */
  class LocalConfig {
    var cached: map<string, Job>
    var inFlight: set<string>
    var file: seq<YamlJob>
    var deletes: seq<string>
    var saved: map<string, Job>

    constructor (cached: map<string, Job>, file: seq<YamlJob>, deletes: seq<string>)
      ensures this.cached == cached && inFlight == {} && this.file == file && this.deletes == deletes
      ensures saved == cached
    {
      this.cached, inFlight, this.file, this.deletes, saved := cached, {}, file, deletes, cached;
    }

    /** Nothing when the file cannot be read or parsed.  Otherwise the loop of syncNow, then
        the send, which `delivered` says succeeded, then one request per id to delete, of
        which `reaches` says which get through. */
    method SyncNow(readable: bool, delivered: bool, reaches: int -> bool)
      returns (upd: seq<Outgoing>, removals: seq<string>)
      modifies this`inFlight
      ensures !readable ==> upd == [] && removals == [] && inFlight == old(inFlight)
      ensures readable ==> upd == Diff(file, cached, old(inFlight)).0 && removals == Requested(deletes, reaches)
      ensures readable ==>
                inFlight == if delivered || upd == [] then Diff(file, cached, old(inFlight)).1
                            else Diff(file, cached, old(inFlight)).1 - CreateNames(upd)
    {
      upd, removals := [], [];
      if !readable {
        return;
      }
      for i := 0 to |file|
        invariant (upd, inFlight) == Diff(file[..i], cached, old(inFlight))
      {
        assert file[..i + 1][..i] == file[..i];
        var j := ToProto(file[i]);
        if j.spec.common.name == "" || j.spec.common.paths == [] {
          continue;
        }
        if j.id == "" {
          if j.spec.common.name in inFlight {
            continue;
          }
          inFlight := inFlight + {j.spec.common.name};
          upd := upd + [Outgoing(j, file[i].tag)];
          continue;
        }
        if j.id !in cached {
          continue;
        }
        if !JobSpecEqual(j, cached[j.id]) {
          upd := upd + [Outgoing(j.(version := cached[j.id].version + 1), file[i].tag)];
        }
      }
      assert file[..|file|] == file;
      if upd != [] && !delivered {
        ghost var all := inFlight;
        for i := 0 to |upd|
          invariant inFlight == all - CreateNames(upd[..i])
        {
          assert CreateNames(upd[..i + 1]) ==
                 CreateNames(upd[..i]) + if upd[i].job.id == "" then {upd[i].job.spec.common.name} else {} by {
            assert forall k :: 0 <= k < i ==> upd[..i][k] == upd[..i + 1][k];
          }
          if upd[i].job.id == "" {
            inFlight := inFlight - {upd[i].job.spec.common.name};
          }
        }
        assert upd[..|upd|] == upd;
      }
      ghost var settled := inFlight;
      for i := 0 to |deletes|
        invariant inFlight == settled
        invariant removals == Requested(deletes[..i], reaches)
      {
        RequestedNext(deletes, reaches, i);
        if reaches(i) {
          removals := removals + [deletes[i]];
        }
      }
      assert deletes[..|deletes|] == deletes;
    }

    /** Adopt the authoritative set, sorted by name, and save it; `cacheWritten` and
        `written` say that the cache file and agent.yaml could be written. */
    method ApplyServerJobs(jobs: seq<Job>, cacheWritten: bool, written: bool) returns (sorted: seq<Job>)
      modifies this
      ensures IsSortOf(sorted, jobs, NameBefore())
      ensures cached == ById(sorted) && inFlight == {} && saved == (if cacheWritten then cached else old(saved))
      ensures file == (if written then FileOf(sorted) else old(file))
      ensures deletes == if written then [] else old(deletes)
    {
      cached, inFlight := map[], {};
      var cf: seq<YamlJob> := [];
      NamesAreOrdered();
      sorted := Sort(jobs, NameBefore());
      for i := 0 to |sorted|
        invariant cached == ById(sorted[..i]) && cf == FileOf(sorted[..i]) && inFlight == {}
        invariant file == old(file) && deletes == old(deletes) && saved == old(saved)
      {
        assert sorted[..i + 1][..i] == sorted[..i];
        cached := cached[sorted[i].id := sorted[i]];
        cf := cf + [YamlFromProto(sorted[i])];
      }
      assert sorted[..|sorted|] == sorted;
      if cacheWritten {
        saved := cached;
      }
      if written {
        file, deletes := cf, [];
      }
    }
  }

  function NameBefore(): (Job, Job) -> bool {
    (x: Job, y: Job) => Less(x.spec.common.name, y.spec.common.name)
  }

  lemma NamesAreOrdered()
    ensures StrictOrder(NameBefore())
  {
    forall x: Job {
      LessIrreflexive(x.spec.common.name);
    }
    forall x: Job, y: Job, z: Job | NameBefore()(x, y) && NameBefore()(y, z)
      ensures NameBefore()(x, z)
    {
      LessTransitive(x.spec.common.name, y.spec.common.name, z.spec.common.name);
    }
  }

  /** The order does not matter to what is cached. */
  lemma SortedSameMap(sorted: seq<Job>, jobs: seq<Job>)
    requires DistinctIds(jobs) && DistinctIds(sorted) && multiset(sorted) == multiset(jobs)
    ensures ById(sorted) == ById(jobs)
  {
    forall j: Job
      ensures j in sorted <==> j in jobs
    {
      assert j in multiset(sorted) <==> j in multiset(jobs);
    }
    SameIdsSameMap(sorted, jobs);
    SameIdsSameMap(jobs, sorted);
    assert ById(sorted).Keys == ById(jobs).Keys;
  }

  lemma SameIdsSameMap(a: seq<Job>, b: seq<Job>)
    requires DistinctIds(a) && DistinctIds(b) && forall j: Job :: j in a ==> j in b
    ensures forall id :: id in ById(a) ==> id in ById(b) && ById(b)[id] == ById(a)[id]
  {
    forall id | id in ById(a)
      ensures id in ById(b) && ById(b)[id] == ById(a)[id]
    {
      ByIdFinds(a);
      assert ById(a)[id] in b;
      ByIdFinds(b);
    }
  }

  // ---------- an unedited file is quiet ----------

  ghost predicate DistinctIds(jobs: seq<Job>) {
    forall i, j :: 0 <= i < j < |jobs| ==> jobs[i].id != jobs[j].id
  }

  /** Writing a job to the file and reading it back keeps what the user can edit. */
  lemma YamlRoundTrip(j: Job)
    ensures JobSpecEqual(ToProto(YamlFromProto(j)), j)
  {
  }

  lemma {:induction false} ByIdFinds(jobs: seq<Job>)
    requires DistinctIds(jobs)
    ensures forall i :: 0 <= i < |jobs| ==> jobs[i].id in ById(jobs) && ById(jobs)[jobs[i].id] == jobs[i]
    ensures forall id :: id in ById(jobs) ==> ById(jobs)[id] in jobs && ById(jobs)[id].id == id
  {
    if jobs != [] {
      ByIdFinds(jobs[..|jobs| - 1]);
    }
  }

  lemma {:induction false} FileOfAt(jobs: seq<Job>)
    ensures |FileOf(jobs)| == |jobs|
    ensures forall i :: 0 <= i < |jobs| ==> FileOf(jobs)[i] == YamlFromProto(jobs[i])
  {
    if jobs != [] {
      FileOfAt(jobs[..|jobs| - 1]);
    }
  }

  lemma {:induction false} NothingToSend(file: seq<YamlJob>, cached: map<string, Job>, inFlight: set<string>)
    requires forall i :: 0 <= i < |file| ==>
               file[i].id != "" && file[i].id in cached && JobSpecEqual(ToProto(file[i]), cached[file[i].id])
    ensures Diff(file, cached, inFlight) == ([], inFlight)
  {
    if file != [] {
      NothingToSend(file[..|file| - 1], cached, inFlight);
    }
  }

  /** After a push has been applied, an unedited file produces an empty diff. */
  lemma UneditedIsQuiet(jobs: seq<Job>)
    requires DistinctIds(jobs) && forall i :: 0 <= i < |jobs| ==> jobs[i].id != ""
    ensures Diff(FileOf(jobs), ById(jobs), {}) == ([], {})
  {
    ByIdFinds(jobs);
    FileOfAt(jobs);
    forall i | 0 <= i < |jobs|
      ensures JobSpecEqual(ToProto(FileOf(jobs)[i]), jobs[i])
    {
      YamlRoundTrip(jobs[i]);
    }
    NothingToSend(FileOf(jobs), ById(jobs), {});
  }

  // ---------- the server ----------

  /** The jobs table; `log` remembers the spec of every version ever saved. */
  datatype Table = Table(jobs: map<string, Job>, log: map<(string, int), Spec>)

  predicate ValidSpec(cronOk: string -> bool, s: Spec) {
    s.common.name != "" && s.common.paths != [] && (s.common.schedule != "" ==> cronOk(s.common.schedule))
  }

  function Save(t: Table, j: Job): Table {
    Table(t.jobs[j.id := j], t.log[(j.id, j.version) := j.spec])
  }

  /** One turn of the handleJobsSync loop; `newId` is what NewID would return. */
  function HandleOne(cronOk: string -> bool, t: Table, agent: string, j: Job, newId: string): Table {
    if !ValidSpec(cronOk, j.spec) then t
    else if j.id == "" then Save(t, Job(newId, agent, j.spec, ByClient, 1))
    else if j.id !in t.jobs || t.jobs[j.id].agent != agent then t
    else if j.version > t.jobs[j.id].version then Save(t, j.(agent := agent, origin := t.jobs[j.id].origin))
    else t
  }

  function HandleSync(cronOk: string -> bool, t: Table, agent: string, jobs: seq<Outgoing>, newIds: seq<string>): Table
    requires |jobs| == |newIds|
  {
    if jobs == [] then t
    else
      var k := |jobs| - 1;
      HandleOne(cronOk, HandleSync(cronOk, t, agent, jobs[..k], newIds[..k]), agent, jobs[k].job, newIds[k])
  }

  lemma SyncNext(cronOk: string -> bool, t: Table, agent: string, jobs: seq<Outgoing>, newIds: seq<string>, k: nat)
    requires k < |jobs| == |newIds|
    ensures HandleSync(cronOk, t, agent, jobs[..k + 1], newIds[..k + 1])
         == HandleOne(cronOk, HandleSync(cronOk, t, agent, jobs[..k], newIds[..k]), agent, jobs[k].job, newIds[k])
  {
    assert jobs[..k + 1][..k] == jobs[..k] && newIds[..k + 1][..k] == newIds[..k];
  }

  /** GetJob failing for another reason than a missing row, and SaveJob failing. */
  datatype EntryFaults = EntryFaults(getFails: bool, saveFails: bool)

  /** A statement that the entry needs fails. */
  predicate Stumbles(cronOk: string -> bool, t: Table, agent: string, j: Job, f: EntryFaults) {
    ValidSpec(cronOk, j.spec) &&
    if j.id == "" then f.saveFails
    else
      || f.getFails
      || (j.id in t.jobs && t.jobs[j.id].agent == agent && j.version > t.jobs[j.id].version && f.saveFails)
  }

  /** Which statements an entry needs: its row is read if it names a job, and saved if
      handling it changes the table. */
  lemma StumblesIff(cronOk: string -> bool, t: Table, agent: string, j: Job, newId: string, f: EntryFaults)
    requires newId !in t.jobs
    ensures var c := j.spec.common;
            var valid := c.name != "" && c.paths != [] && (c.schedule == "" || cronOk(c.schedule));
            Stumbles(cronOk, t, agent, j, f) <==>
            valid && ((j.id != "" && f.getFails) || (f.saveFails && HandleOne(cronOk, t, agent, j, newId) != t))
  {
    var u := HandleOne(cronOk, t, agent, j, newId);
    assert newId in u.jobs ==> u != t;
    if j.id in t.jobs && j.id in u.jobs && u.jobs[j.id].version != t.jobs[j.id].version {
      assert u != t;
    }
  }

  /** Each of the first n entries finds its statements working. */
  ghost predicate NoneStumbles(cronOk: string -> bool, t: Table, agent: string, sync: seq<Outgoing>,
                               newIds: seq<string>, f: int -> EntryFaults, n: nat)
    requires n <= |sync| == |newIds|
  {
    forall k :: 0 <= k < n ==>
      !Stumbles(cronOk, HandleSync(cronOk, t, agent, sync[..k], newIds[..k]), agent, sync[k].job, f(k))
  }

  lemma NoneStumblesNext(cronOk: string -> bool, t: Table, agent: string, sync: seq<Outgoing>,
                         newIds: seq<string>, f: int -> EntryFaults, n: nat)
    requires n < |sync| == |newIds| && NoneStumbles(cronOk, t, agent, sync, newIds, f, n)
    requires !Stumbles(cronOk, HandleSync(cronOk, t, agent, sync[..n], newIds[..n]), agent, sync[n].job, f(n))
    ensures NoneStumbles(cronOk, t, agent, sync, newIds, f, n + 1)
  {
  }

  /** handleAgentJobDelete. */
  function HandleDelete(t: Table, agent: string, id: string): Table {
    if id in t.jobs && t.jobs[id].agent == agent then t.(jobs := t.jobs - {id}) else t
  }

  /** Whether the agent named in the request exists, and whether SaveJob succeeds. */
  datatype AdminFaults = AdminFaults(unknownAgent: bool, saveFails: bool)

  /** handleJobSave: the table and the agent to push to, or None when refused. */
  function AdminSave(cronOk: string -> bool, t: Table, j: Job, newId: string, f: AdminFaults): Option<(Table, string)> {
    if !ValidSpec(cronOk, j.spec) || f.unknownAgent || f.saveFails then None
    else if j.id == "" then Some((Save(t, Job(newId, j.agent, j.spec, ByServer, 1)), j.agent))
    else if j.id !in t.jobs then None
    else
      var cur := t.jobs[j.id];
      Some((Save(t, Job(j.id, cur.agent, j.spec, cur.origin, cur.version + 1)), cur.agent))
  }

  // ---------- what the server's handlers do ----------

  /** After a write the job is the stored one, at the version logged with its spec, and
      nothing else in the table or the log is different. */
  ghost predicate Wrote(t: Table, u: Table, j: Job) {
    && j.id in u.jobs && u.jobs[j.id] == j
    && (j.id, j.version) in u.log && u.log[(j.id, j.version)] == j.spec
    && (forall id :: id != j.id ==> (id in u.jobs <==> id in t.jobs) && (id in t.jobs ==> u.jobs[id] == t.jobs[id]))
    && (forall k :: k != (j.id, j.version) ==> (k in u.log <==> k in t.log) && (k in t.log ==> u.log[k] == t.log[k]))
  }

  /** handleJobSave refuses exactly a bad spec, an unknown agent, a job that does not exist
      and a failing statement.  Otherwise the spec that was submitted is stored: a new job
      under the new id, at version 1, for the agent named; an existing one at the next
      version, with the agent and origin it had.  The push goes to that agent. */
  lemma AdminSaveStores(cronOk: string -> bool, t: Table, j: Job, newId: string, f: AdminFaults)
    ensures var r := AdminSave(cronOk, t, j, newId, f);
            var c := j.spec.common;
            && (r.None? <==>
                  || c.name == "" || c.paths == [] || (c.schedule != "" && !cronOk(c.schedule))
                  || f.unknownAgent || f.saveFails || (j.id != "" && j.id !in t.jobs))
            && (r.Some? && j.id == "" ==>
                  Wrote(t, r.value.0, Job(newId, j.agent, j.spec, ByServer, 1)) && r.value.1 == j.agent)
            && (r.Some? && j.id != "" ==>
                  var cur := t.jobs[j.id];
                  && Wrote(t, r.value.0, Job(j.id, cur.agent, j.spec, cur.origin, cur.version + 1))
                  && r.value.1 == cur.agent)
  {
  }

  /** handleJobsSync on one entry.  One without an id becomes a new job of that agent with
      the spec that was sent; one of the agent's own jobs with a newer version replaces its
      spec; anything else, another agent's job included, changes nothing. */
  lemma SyncEntryStores(cronOk: string -> bool, t: Table, agent: string, j: Job, newId: string)
    ensures var u := HandleOne(cronOk, t, agent, j, newId);
            var c := j.spec.common;
            if c.name == "" || c.paths == [] || (c.schedule != "" && !cronOk(c.schedule)) then u == t
            else if j.id == "" then Wrote(t, u, Job(newId, agent, j.spec, ByClient, 1))
            else if j.id in t.jobs && t.jobs[j.id].agent == agent && t.jobs[j.id].version < j.version
            then Wrote(t, u, Job(j.id, agent, j.spec, t.jobs[j.id].origin, j.version))
            else u == t
  {
  }

  /** A deletion request takes the agent's own job away, and nothing else; what was logged
      stays. */
  lemma DeleteRemoves(t: Table, agent: string, id: string, other: string)
    ensures var u := HandleDelete(t, agent, id);
            && u.log == t.log
            && (other in u.jobs <==> other in t.jobs && !(other == id && t.jobs[id].agent == agent))
            && (other in u.jobs ==> u.jobs[other] == t.jobs[other])
  {
  }

  class JobStore {
    const cronOk: string -> bool
    var jobs: map<string, Job>
    ghost var log: map<(string, int), Spec>

    ghost function State(): Table
      reads this
    {
      Table(jobs, log)
    }

    constructor (cronOk: string -> bool)
      ensures this.cronOk == cronOk && State() == Table(map[], map[])
    {
      this.cronOk, jobs, log := cronOk, map[], map[];
    }

    method SaveJob(j: Job)
      modifies this
      ensures State() == Save(old(State()), j)
    {
      jobs := jobs[j.id := j];
      log := log[(j.id, j.version) := j.spec];
    }

    /** The first `reached` entries are handled; the message is handled to its end, and the
        agent pushed to, unless the statement the next entry needs fails. */
    method HandleJobsSync(agent: string, sync: seq<Outgoing>, newIds: seq<string>, f: int -> EntryFaults)
      returns (pushes: bool, reached: nat)
      requires |sync| == |newIds|
      modifies this
      ensures reached <= |sync| && (pushes <==> reached == |sync|)
      ensures State() == HandleSync(cronOk, old(State()), agent, sync[..reached], newIds[..reached])
      ensures NoneStumbles(cronOk, old(State()), agent, sync, newIds, f, reached)
      ensures reached < |sync| ==> Stumbles(cronOk, State(), agent, sync[reached].job, f(reached))
    {
      reached := 0;
      ghost var was := State();
      while reached < |sync|
        invariant reached <= |sync|
        invariant State() == HandleSync(cronOk, was, agent, sync[..reached], newIds[..reached])
        invariant NoneStumbles(cronOk, was, agent, sync, newIds, f, reached)
      {
        SyncNext(cronOk, was, agent, sync, newIds, reached);
        var ok := HandleEntry(agent, sync[reached].job, newIds[reached], f(reached));
        if !ok {
          return false, reached;
        }
        NoneStumblesNext(cronOk, was, agent, sync, newIds, f, reached);
        reached := reached + 1;
      }
      return true, reached;
    }

    /** One turn of the loop. */
    method HandleEntry(agent: string, job: Job, newId: string, f: EntryFaults) returns (ok: bool)
      modifies this
      ensures ok <==> !Stumbles(cronOk, old(State()), agent, job, f)
      ensures State() == if ok then HandleOne(cronOk, old(State()), agent, job, newId) else old(State())
    {
      var j := job.(agent := agent);
      if !ValidSpec(cronOk, j.spec) {
        return true;
      }
      if j.id == "" {
        if f.saveFails {
          return false;
        }
        SaveJob(j.(id := newId, origin := ByClient, version := 1));
        return true;
      }
      if f.getFails {
        return false;
      }
      if j.id !in jobs || jobs[j.id].agent != agent {
        return true;
      }
      if j.version > jobs[j.id].version {
        if f.saveFails {
          return false;
        }
        SaveJob(j.(origin := jobs[j.id].origin));
      }
      return true;
    }

    method HandleJobSave(job: Job, newId: string, f: AdminFaults) returns (saved: bool)
      modifies this
      ensures saved <==> AdminSave(cronOk, old(State()), job, newId, f).Some?
      ensures State() == if saved then AdminSave(cronOk, old(State()), job, newId, f).value.0 else old(State())
    {
      if !ValidSpec(cronOk, job.spec) {
        return false;
      }
      if f.unknownAgent {
        return false;
      }
      var j := job;
      if j.id == "" {
        j := j.(id := newId, origin := ByServer, version := 1);
      } else {
        if j.id !in jobs {
          return false;
        }
        var cur := jobs[j.id];
        j := j.(origin := cur.origin, agent := cur.agent, version := cur.version + 1);
      }
      if f.saveFails {
        return false;
      }
      SaveJob(j);
      return true;
    }
  }

  // ---------- optimistic concurrency control ----------

  /** Versions of a live job are logged from 1 to its current one, without gaps. */
  ghost predicate TableSound(t: Table) {
    && (forall id :: id in t.jobs ==> id != "" && t.jobs[id].id == id && t.jobs[id].version >= 1)
    && (forall id, v :: id in t.jobs ==> ((id, v) in t.log <==> 1 <= v <= t.jobs[id].version))
    && (forall id :: id in t.jobs ==> t.log[(id, t.jobs[id].version)] == t.jobs[id].spec)
  }

  /** NewID never returns an id that was used before. */
  ghost predicate Unused(t: Table, id: string) {
    id != "" && id !in t.jobs && forall v :: (id, v) !in t.log
  }

  /** An edit sent by an agent carries one more than a version it was pushed. */
  predicate Based(t: Table, j: Job) {
    j.id != "" ==> (j.id, j.version - 1) in t.log
  }

  /** No logged version is ever rewritten. */
  ghost predicate LogGrows(t: Table, u: Table) {
    forall k :: k in t.log ==> k in u.log && u.log[k] == t.log[k]
  }

  /** Between two states: ids stay with their agent, and the version of a surviving
      job grows by the number of accepted writes, each logged under a new version. */
  ghost predicate Advanced(t: Table, u: Table) {
    && LogGrows(t, u)
    && (forall id :: id in t.jobs && id in u.jobs ==>
          u.jobs[id].agent == t.jobs[id].agent && u.jobs[id].origin == t.jobs[id].origin
          && u.jobs[id].version >= t.jobs[id].version
          && (u.jobs[id].version == t.jobs[id].version ==> u.jobs[id] == t.jobs[id]))
  }

  /** A valid edit of an existing job of that agent is accepted exactly when the
      version it was based on is still the current one; the spec it replaces is
      then the one the agent edited, and the version rises by exactly one.  A
      rejected edit changes nothing. */
  lemma EditAcceptedIff(cronOk: string -> bool, t: Table, agent: string, j: Job, newId: string)
    requires TableSound(t) && Based(t, j) && j.id in t.jobs && t.jobs[j.id].agent == agent && ValidSpec(cronOk, j.spec)
    ensures var u := HandleOne(cronOk, t, agent, j, newId);
            if j.version - 1 == t.jobs[j.id].version then
              && t.log[(j.id, j.version - 1)] == t.jobs[j.id].spec
              && u.jobs[j.id] == Job(j.id, agent, j.spec, t.jobs[j.id].origin, t.jobs[j.id].version + 1)
              && (j.id, j.version) !in t.log
            else u == t
  {
    assert (j.id, j.version - 1) in t.log;
  }

  /** The writes the handlers make: a new job at version 1 under an unused id, or
      the next version of an existing job, with its agent and origin. */
  ghost predicate NextWrite(t: Table, j: Job) {
    if j.id in t.jobs then
      j.version == t.jobs[j.id].version + 1 && j.agent == t.jobs[j.id].agent && j.origin == t.jobs[j.id].origin
    else j.version == 1 && Unused(t, j.id)
  }

  /** Every such write is logged under a pair that was not there, so a job id and a
      version never name two specs. */
  lemma WriteKeepsSound(t: Table, j: Job)
    requires TableSound(t) && NextWrite(t, j)
    ensures TableSound(Save(t, j)) && Advanced(t, Save(t, j))
    ensures (j.id, j.version) !in t.log
    ensures forall id :: id != j.id && Unused(t, id) ==> Unused(Save(t, j), id)
  {
  }

  /** handleJobsSync either ignores an entry or makes such a write. */
  lemma SyncWrites(cronOk: string -> bool, t: Table, agent: string, j: Job, newId: string) returns (w: Option<Job>)
    requires TableSound(t) && Based(t, j) && Unused(t, newId)
    ensures HandleOne(cronOk, t, agent, j, newId) == if w.Some? then Save(t, w.value) else t
    ensures w.Some? ==> NextWrite(t, w.value) && w.value.agent == agent && w.value.id in {j.id, newId}
  {
    if !ValidSpec(cronOk, j.spec) {
      w := None;
    } else if j.id == "" {
      w := Some(Job(newId, agent, j.spec, ByClient, 1));
    } else if j.id in t.jobs && t.jobs[j.id].agent == agent && j.version > t.jobs[j.id].version {
      assert (j.id, j.version - 1) in t.log;
      w := Some(j.(agent := agent, origin := t.jobs[j.id].origin));
    } else {
      w := None;
    }
  }

  /** handleJobSave either refuses or makes such a write, and pushes to the agent
      the job belongs to. */
  lemma AdminWrites(cronOk: string -> bool, t: Table, j: Job, newId: string, f: AdminFaults)
    requires TableSound(t) && Unused(t, newId) && AdminSave(cronOk, t, j, newId, f).Some?
    ensures var (u, agent) := AdminSave(cronOk, t, j, newId, f).value;
            exists w :: u == Save(t, w) && NextWrite(t, w) && w.agent == agent
  {
    var w := if j.id == "" then Job(newId, j.agent, j.spec, ByServer, 1)
             else Job(j.id, t.jobs[j.id].agent, j.spec, t.jobs[j.id].origin, t.jobs[j.id].version + 1);
    assert AdminSave(cronOk, t, j, newId, f).value == (Save(t, w), w.agent);
  }
}
