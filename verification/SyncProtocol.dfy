/** Many agents and the server exchanging job edits and pushes.  Handlers are
    atomic; each connection is a pair of lossless first-in first-out queues. */
module SyncProtocol {
  import opened Basics
  import opened JobSync

  // ---------- state ----------

  datatype Message = Hello | Edits(jobs: seq<Outgoing>) | Remove(id: string)

  /** `pushed`: the server has pushed on this connection.  `sentTags` lists the file
      entries whose create was delivered, `usedTags` every entry there ever was. */
  datatype Client = Client(
    cached: map<string, Job>,
    inFlight: set<string>,
    file: seq<YamlJob>,
    deletes: seq<string>,
    online: bool,
    pushed: bool,
    up: seq<Message>,
    down: seq<seq<Job>>,
    sentTags: seq<int>,
    usedTags: set<int>)

  datatype State = State(table: Table, clients: map<string, Client>)

  datatype Step =
    | UserEdit(agent: string, file: seq<YamlJob>, deletes: seq<string>)
    | SyncNow(agent: string, delivered: bool, removals: seq<string>)
    | ServerReceive(agent: string, newIds: seq<string>, listing: seq<Job>)
    | ClientReceive(agent: string, written: bool)
    | AdminSaves(job: Job, newId: string, listing: seq<Job>)
    | AdminDeletes(id: string, listing: seq<Job>)
    | Connect(agent: string)
    | Disconnect(agent: string)
    | DropUp(agent: string)

  // ---------- one step ----------

  /** A save that is refused is no step. */
  const NO_FAULTS := AdminFaults(false, false)

  function JobsOf(t: Table, agent: string): map<string, Job> {
    map id | id in t.jobs && t.jobs[id].agent == agent :: t.jobs[id]
  }

  /** What pushJobs reads: the agent's jobs, each once, in some order. */
  ghost predicate Lists(listing: seq<Job>, t: Table, agent: string) {
    && DistinctIds(listing)
    && (forall j :: j in listing <==> j.id in t.jobs && t.jobs[j.id] == j && j.agent == agent)
  }

  function Push(s: State, agent: string, listing: seq<Job>): State {
    if agent in s.clients && s.clients[agent].online then
      var c := s.clients[agent];
      s.(clients := s.clients[agent := c.(down := c.down + [listing], pushed := true)])
    else s
  }

  /** An entry that is not a job of the server yet. */
  predicate IsNew(y: YamlJob) {
    y.id == ""
  }

  /** Users keep, change or add entries.  A new entry that survives an edit keeps
      its tag and name; an added (or renamed) one gets a tag never used before. */
  ghost predicate Edited(c: Client, file: seq<YamlJob>) {
    && (forall i, j :: 0 <= i < j < |file| && IsNew(file[i]) && IsNew(file[j]) ==> file[i].tag != file[j].tag)
    && (forall i :: 0 <= i < |file| && IsNew(file[i]) ==>
          file[i].tag !in c.usedTags || NewEntry(c.file, file[i].tag, file[i].common.name))
  }

  ghost predicate NewEntry(file: seq<YamlJob>, tag: int, name: string) {
    exists i :: 0 <= i < |file| && IsNew(file[i]) && file[i].tag == tag && file[i].common.name == name
  }

  function TagsOf(file: seq<YamlJob>): set<int> {
    set i | 0 <= i < |file| :: file[i].tag
  }

  function CreateTags(upd: seq<Outgoing>): seq<int> {
    if upd == [] then []
    else
      var last := upd[|upd| - 1];
      CreateTags(upd[..|upd| - 1]) + if last.job.id == "" then [last.tag] else []
  }

  function Removals(ids: seq<string>): seq<Message> {
    seq(|ids|, i requires 0 <= i < |ids| => Remove(ids[i]))
  }

  ghost predicate UnusedIds(t: Table, ids: seq<string>) {
    && (forall i :: 0 <= i < |ids| ==> Unused(t, ids[i]))
    && (forall i, j :: 0 <= i < j < |ids| ==> ids[i] != ids[j])
  }

  function Received(cronOk: string -> bool, t: Table, agent: string, m: Message, newIds: seq<string>): Table {
    match m
    case Hello => t
    case Edits(jobs) => if |jobs| == |newIds| then HandleSync(cronOk, t, agent, jobs, newIds) else t
    case Remove(id) => HandleDelete(t, agent, id)
  }

  /** Deleting a job that is gone or another agent's is ignored without a push. */
  predicate Pushes(t: Table, agent: string, m: Message) {
    m.Remove? ==> m.id in t.jobs && t.jobs[m.id].agent == agent
  }

  ghost predicate Enabled(cronOk: string -> bool, s: State, step: Step) {
    match step
    case UserEdit(a, file, _) => a in s.clients && Edited(s.clients[a], file)
    case SyncNow(a, delivered, removals) =>
      a in s.clients && (delivered || removals != [] ==> s.clients[a].online)
    case ServerReceive(a, newIds, listing) =>
      && a in s.clients && s.clients[a].up != [] && UnusedIds(s.table, newIds)
      && (s.clients[a].up[0].Edits? ==> |s.clients[a].up[0].jobs| == |newIds|)
      && Lists(listing, Received(cronOk, s.table, a, s.clients[a].up[0], newIds), a)
    case ClientReceive(a, _) => a in s.clients && s.clients[a].down != []
    case AdminSaves(j, newId, listing) =>
      var saved := AdminSave(cronOk, s.table, j, newId, NO_FAULTS);
      saved.Some? && Unused(s.table, newId) && Lists(listing, saved.value.0, saved.value.1)
    case AdminDeletes(id, listing) =>
      id in s.table.jobs && Lists(listing, HandleDelete(s.table, s.table.jobs[id].agent, id), s.table.jobs[id].agent)
    case Connect(a) => a in s.clients && !s.clients[a].online
    case Disconnect(a) => a in s.clients && s.clients[a].online
    case DropUp(a) => a in s.clients && !s.clients[a].online
  }

  function Synced(c: Client, delivered: bool, removals: seq<string>): Client {
    var (upd, names) := Diff(c.file, c.cached, c.inFlight);
    var sent := if delivered && upd != [] then [Edits(upd)] else [];
    c.(inFlight := if delivered || upd == [] then names else names - CreateNames(upd),
       sentTags := if delivered then c.sentTags + CreateTags(upd) else c.sentTags,
       up := c.up + sent + Removals(removals))
  }

  /** A sync that cannot be delivered leaves the agent as it was, but for the deletions it
      requested, so the next one sends the same. */
  lemma UndeliveredIsNothing(c: Client, removals: seq<string>)
    ensures Synced(c, false, removals) == c.(up := c.up + Removals(removals))
  {
    DiffCreatesNewNames(c.file, c.cached, c.inFlight);
    var (upd, names) := Diff(c.file, c.cached, c.inFlight);
    assert names - CreateNames(upd) == c.inFlight;
    assert upd == [] ==> CreateNames(upd) == {};
  }

  /** A sync that finds nothing to send or to delete does nothing at all. */
  lemma NothingToSendIsNothing(c: Client, delivered: bool)
    requires Diff(c.file, c.cached, c.inFlight).0 == []
    ensures Synced(c, delivered, []) == c
  {
    DiffCreatesNewNames(c.file, c.cached, c.inFlight);
    var (upd, names) := Diff(c.file, c.cached, c.inFlight);
    assert CreateNames(upd) == {};
    forall name | name in names
      ensures name in c.inFlight
    {
      assert name !in names - c.inFlight;
    }
    assert c.up + [] + Removals([]) == c.up && c.sentTags + CreateTags(upd) == c.sentTags;
  }

  /** The server pushes after a deletion request exactly when it deleted something. */
  lemma DeletionPushesIff(t: Table, agent: string, id: string)
    ensures Pushes(t, agent, Remove(id)) <==> HandleDelete(t, agent, id) != t
  {
    assert id in t.jobs ==> id !in (t.jobs - {id});
  }

  /** applyServerJobs on the oldest push. */
  function Applied(c: Client, written: bool): Client
    requires c.down != []
  {
    c.(cached := ById(c.down[0]), inFlight := {}, down := c.down[1..],
       file := if written then FileOf(c.down[0]) else c.file,
       deletes := if written then [] else c.deletes)
  }

  ghost function Apply(cronOk: string -> bool, s: State, step: Step): State
    requires Enabled(cronOk, s, step)
  {
    match step
    case UserEdit(a, file, deletes) =>
      var c := s.clients[a];
      s.(clients := s.clients[a := c.(file := file, deletes := deletes, usedTags := c.usedTags + TagsOf(file))])
    case SyncNow(a, delivered, removals) =>
      s.(clients := s.clients[a := Synced(s.clients[a], delivered, removals)])
    case ServerReceive(a, newIds, listing) =>
      var c := s.clients[a];
      var handled := State(Received(cronOk, s.table, a, c.up[0], newIds), s.clients[a := c.(up := c.up[1..])]);
      if Pushes(s.table, a, c.up[0]) then Push(handled, a, listing) else handled
    case ClientReceive(a, written) => s.(clients := s.clients[a := Applied(s.clients[a], written)])
    case AdminSaves(j, newId, listing) =>
      var saved := AdminSave(cronOk, s.table, j, newId, NO_FAULTS).value;
      Push(s.(table := saved.0), saved.1, listing)
    case AdminDeletes(id, listing) =>
      var agent := s.table.jobs[id].agent;
      Push(s.(table := HandleDelete(s.table, agent, id)), agent, listing)
    case Connect(a) =>
      var c := s.clients[a];
      s.(clients := s.clients[a := c.(online := true, pushed := false, up := c.up + [Hello], down := [])])
    case Disconnect(a) => s.(clients := s.clients[a := s.clients[a].(online := false, down := [])])
    case DropUp(a) => s.(clients := s.clients[a := s.clients[a].(up := [])])
  }

  // ---------- what everybody knows ----------

  /** The job is one the server really had, at that version. */
  predicate Knows(t: Table, agent: string, j: Job) {
    j.id != "" && j.agent == agent && (j.id, j.version) in t.log && t.log[(j.id, j.version)] == j.spec
  }

  ghost predicate MessageSound(t: Table, m: Message) {
    m.Edits? ==> forall i :: 0 <= i < |m.jobs| ==> Based(t, m.jobs[i].job)
  }

  /** The set the agent will have when it has applied every push on its way. */
  function Latest(c: Client): map<string, Job> {
    if c.down == [] then c.cached else ById(c.down[|c.down| - 1])
  }

  ghost predicate PushSound(t: Table, agent: string, push: seq<Job>) {
    DistinctIds(push) && forall i :: 0 <= i < |push| ==> Knows(t, agent, push[i])
  }

  ghost predicate ClientSound(t: Table, agent: string, c: Client) {
    && (forall id :: id in c.cached ==> c.cached[id].id == id && Knows(t, agent, c.cached[id]))
    && (forall i :: 0 <= i < |c.down| ==> PushSound(t, agent, c.down[i]))
    && (forall i :: 0 <= i < |c.up| ==> MessageSound(t, c.up[i]))
    && (c.online && c.pushed ==> Latest(c) == JobsOf(t, agent))
  }

  ghost predicate Inv(s: State) {
    && TableSound(s.table)
    && (forall a :: a in s.clients ==> ClientSound(s.table, a, s.clients[a]))
  }

  lemma ClientFrame(t: Table, u: Table, agent: string, c: Client)
    requires ClientSound(t, agent, c) && LogGrows(t, u)
    requires c.online && c.pushed ==> JobsOf(u, agent) == JobsOf(t, agent)
    ensures ClientSound(u, agent, c)
  {
    forall i | 0 <= i < |c.down| ensures PushSound(u, agent, c.down[i]) {
      assert PushSound(t, agent, c.down[i]);
    }
    forall i | 0 <= i < |c.up| ensures MessageSound(u, c.up[i]) {
      assert MessageSound(t, c.up[i]);
    }
  }

  lemma ListingIsExact(t: Table, agent: string, listing: seq<Job>)
    requires TableSound(t) && Lists(listing, t, agent)
    ensures ById(listing) == JobsOf(t, agent) && PushSound(t, agent, listing)
  {
    ByIdFinds(listing);
    forall i | 0 <= i < |listing| ensures Knows(t, agent, listing[i]) {
      assert listing[i] in listing;
    }
    forall id | id in JobsOf(t, agent) ensures id in ById(listing) {
      assert t.jobs[id] in listing;
    }
  }

  lemma {:induction false} DiffIsBased(
      t: Table, agent: string, file: seq<YamlJob>, cached: map<string, Job>, inFlight: set<string>)
    requires forall id :: id in cached ==> cached[id].id == id && Knows(t, agent, cached[id])
    ensures MessageSound(t, Edits(Diff(file, cached, inFlight).0))
  {
    if file != [] {
      var k := |file| - 1;
      DiffIsBased(t, agent, file[..k], cached, inFlight);
      var upd := Diff(file[..k], cached, inFlight).0;
      var m := Edits(upd);
      assert forall i :: 0 <= i < |upd| ==> Based(t, m.jobs[i].job);
      if file[k].id in cached {
        assert Knows(t, agent, cached[file[k].id]);
      }
    }
  }

  // ---------- every step keeps the invariant ----------

  /** The table changed for one agent only, and only by adding to the log. */
  ghost predicate TableStep(t: Table, u: Table, agent: string) {
    && TableSound(u) && LogGrows(t, u)
    && (forall b :: b != agent ==> JobsOf(u, b) == JobsOf(t, b))
  }

  lemma WriteIsStep(t: Table, j: Job)
    requires TableSound(t) && NextWrite(t, j)
    ensures TableStep(t, Save(t, j), j.agent)
  {
    WriteKeepsSound(t, j);
  }

  lemma {:induction false} SyncIsStep(
      cronOk: string -> bool, t: Table, agent: string, jobs: seq<Outgoing>, newIds: seq<string>)
    requires TableSound(t) && MessageSound(t, Edits(jobs)) && |jobs| == |newIds| && UnusedIds(t, newIds)
    ensures TableStep(t, HandleSync(cronOk, t, agent, jobs, newIds), agent)
    ensures forall id :: id !in newIds && Unused(t, id) ==> Unused(HandleSync(cronOk, t, agent, jobs, newIds), id)
  {
    if jobs != [] {
      var k := |jobs| - 1;
      var m := Edits(jobs);
      assert Based(t, m.jobs[k].job);
      assert forall i :: 0 <= i < k ==> Based(t, m.jobs[i].job);
      SyncIsStep(cronOk, t, agent, jobs[..k], newIds[..k]);
      var u := HandleSync(cronOk, t, agent, jobs[..k], newIds[..k]);
      assert newIds[k] !in newIds[..k];
      var w := SyncWrites(cronOk, u, agent, jobs[k].job, newIds[k]);
      if w.Some? {
        WriteKeepsSound(u, w.value);
        WriteIsStep(u, w.value);
      }
    }
  }

  lemma DeleteIsStep(t: Table, agent: string, id: string)
    requires TableSound(t)
    ensures TableStep(t, HandleDelete(t, agent, id), agent)
  {
  }

  lemma ReceivedIsStep(cronOk: string -> bool, t: Table, agent: string, m: Message, newIds: seq<string>)
    requires TableSound(t) && MessageSound(t, m) && UnusedIds(t, newIds)
    ensures TableStep(t, Received(cronOk, t, agent, m, newIds), agent)
    ensures !Pushes(t, agent, m) ==> Received(cronOk, t, agent, m, newIds) == t
  {
    match m
    case Hello =>
    case Edits(jobs) =>
      if |jobs| == |newIds| {
        SyncIsStep(cronOk, t, agent, jobs, newIds);
      }
    case Remove(id) => DeleteIsStep(t, agent, id);
  }

  /** After a change to one agent's jobs and the push that follows it, every client
      is as well informed as before. */
  lemma PushRestores(s: State, u: Table, agent: string, listing: seq<Job>)
    requires Inv(s) && TableStep(s.table, u, agent) && Lists(listing, u, agent)
    ensures Inv(Push(s.(table := u), agent, listing))
  {
    var after := Push(s.(table := u), agent, listing);
    ListingIsExact(u, agent, listing);
    forall b | b in s.clients
      ensures ClientSound(u, b, after.clients[b])
    {
      var c := s.clients[b];
      if b == agent {
        ClientFrame(s.table, u, b, c.(pushed := false));
        var d := after.clients[b];
        assert forall i :: 0 <= i < |c.down| ==> d.down[i] == c.down[i];
      } else {
        ClientFrame(s.table, u, b, c);
      }
    }
  }

  lemma SyncedKept(t: Table, agent: string, c: Client, delivered: bool, removals: seq<string>)
    requires TableSound(t) && ClientSound(t, agent, c)
    ensures ClientSound(t, agent, Synced(c, delivered, removals))
  {
    DiffIsBased(t, agent, c.file, c.cached, c.inFlight);
    var d := Synced(c, delivered, removals);
    forall i | 0 <= i < |d.up| ensures MessageSound(t, d.up[i]) {
      if i < |c.up| {
        assert d.up[i] == c.up[i];
      }
    }
    assert d.down == c.down;
  }

  lemma AppliedKept(t: Table, agent: string, c: Client, written: bool)
    requires ClientSound(t, agent, c) && c.down != []
    ensures ClientSound(t, agent, Applied(c, written))
  {
    var first, e := c.down[0], Applied(c, written);
    assert PushSound(t, agent, first);
    ByIdFinds(first);
    assert forall i :: 0 <= i < |e.down| ==> e.down[i] == c.down[i + 1];
    assert Latest(e) == Latest(c);
  }

  lemma ReceiveKeepsInv(cronOk: string -> bool, s: State, a: string, newIds: seq<string>, listing: seq<Job>)
    requires Inv(s) && Enabled(cronOk, s, ServerReceive(a, newIds, listing))
    ensures Inv(Apply(cronOk, s, ServerReceive(a, newIds, listing)))
  {
    var c := s.clients[a];
    var popped := s.(clients := s.clients[a := c.(up := c.up[1..])]);
    assert Inv(popped) by {
      assert forall i :: 0 <= i < |c.up[1..]| ==> c.up[1..][i] == c.up[i + 1];
    }
    assert MessageSound(s.table, c.up[0]);
    ReceivedIsStep(cronOk, s.table, a, c.up[0], newIds);
    if Pushes(s.table, a, c.up[0]) {
      PushRestores(popped, Received(cronOk, s.table, a, c.up[0], newIds), a, listing);
    }
  }

  lemma AdminKeepsInv(cronOk: string -> bool, s: State, j: Job, newId: string, listing: seq<Job>)
    requires Inv(s) && Enabled(cronOk, s, AdminSaves(j, newId, listing))
    ensures Inv(Apply(cronOk, s, AdminSaves(j, newId, listing)))
  {
    AdminWrites(cronOk, s.table, j, newId, NO_FAULTS);
    var (u, agent) := AdminSave(cronOk, s.table, j, newId, NO_FAULTS).value;
    var w :| u == Save(s.table, w) && NextWrite(s.table, w) && w.agent == agent;
    WriteIsStep(s.table, w);
    PushRestores(s, u, agent, listing);
  }

  lemma StepKeepsInv(cronOk: string -> bool, s: State, step: Step)
    requires Inv(s) && Enabled(cronOk, s, step)
    ensures Inv(Apply(cronOk, s, step))
  {
    match step
    case SyncNow(a, delivered, removals) => SyncedKept(s.table, a, s.clients[a], delivered, removals);
    case ClientReceive(a, written) => AppliedKept(s.table, a, s.clients[a], written);
    case ServerReceive(a, newIds, listing) => ReceiveKeepsInv(cronOk, s, a, newIds, listing);
    case AdminSaves(j, newId, listing) => AdminKeepsInv(cronOk, s, j, newId, listing);
    case AdminDeletes(id, listing) =>
      var agent := s.table.jobs[id].agent;
      DeleteIsStep(s.table, agent, id);
      PushRestores(s, HandleDelete(s.table, agent, id), agent, listing);
    case _ =>
  }

  // ---------- creates ----------

  ghost predicate Distinct(tags: seq<int>) {
    forall i, j :: 0 <= i < j < |tags| ==> tags[i] != tags[j]
  }

  /** A new entry of the file that has been sent is in flight under its name. */
  ghost predicate TagsSound(c: Client) {
    && Distinct(c.sentTags)
    && (forall tag :: tag in c.sentTags ==> tag in c.usedTags)
    && (forall i :: 0 <= i < |c.file| && IsNew(c.file[i]) ==> c.file[i].tag in c.usedTags)
    && NewTagsDistinct(c.file)
    && (forall i :: 0 <= i < |c.file| && IsNew(c.file[i]) && c.file[i].tag in c.sentTags ==>
          c.file[i].common.name in c.inFlight)
  }

  ghost predicate NewTagsDistinct(file: seq<YamlJob>) {
    forall i, j :: 0 <= i < j < |file| && IsNew(file[i]) && IsNew(file[j]) ==> file[i].tag != file[j].tag
  }

  /** A create sent for an entry of the file whose name was not in flight. */
  predicate SentFor(file: seq<YamlJob>, inFlight: set<string>, names: set<string>, tag: int, i: int) {
    && 0 <= i < |file| && IsNew(file[i]) && file[i].tag == tag
    && file[i].common.name !in inFlight && file[i].common.name in names
  }

  ghost predicate Sent(file: seq<YamlJob>, inFlight: set<string>, names: set<string>, tag: int) {
    exists i :: SentFor(file, inFlight, names, tag, i)
  }

  lemma DistinctAppend(a: seq<int>, b: seq<int>)
    requires Distinct(a) && Distinct(b) && forall x :: x in a ==> x !in b
    ensures Distinct(a + b)
  {
    forall i, j | 0 <= i < j < |a + b| ensures (a + b)[i] != (a + b)[j] {
      assert i < |a| ==> (a + b)[i] in a;
      assert j >= |a| ==> (a + b)[j] in b;
    }
  }

  lemma CreateTagsNext(upd: seq<Outgoing>, o: Outgoing)
    ensures CreateTags(upd + [o]) == CreateTags(upd) + if o.job.id == "" then [o.tag] else []
  {
    assert (upd + [o])[..|upd|] == upd;
  }

  /** The create entries of a diff keep their place when an entry is added. */
  lemma SentForLonger(file: seq<YamlJob>, inFlight: set<string>, names: set<string>, more: set<string>, tags: seq<int>)
    requires file != [] && NewTagsDistinct(file) && names <= more
    requires forall tag :: tag in tags ==> Sent(file[..|file| - 1], inFlight, names, tag)
    ensures forall tag :: tag in tags ==> Sent(file, inFlight, more, tag)
    ensures IsNew(file[|file| - 1]) ==> file[|file| - 1].tag !in tags
  {
    var k := |file| - 1;
    forall tag | tag in tags
      ensures Sent(file, inFlight, more, tag)
      ensures IsNew(file[k]) ==> tag != file[k].tag
    {
      var i :| SentFor(file[..k], inFlight, names, tag, i);
      assert file[i] == file[..k][i];
      assert SentFor(file, inFlight, more, tag, i);
    }
  }

  lemma {:induction false} DiffCreates(file: seq<YamlJob>, cached: map<string, Job>, inFlight: set<string>)
    requires NewTagsDistinct(file)
    ensures var (upd, names) := Diff(file, cached, inFlight);
            && names == inFlight + CreateNames(upd) && CreateNames(upd) !! inFlight
            && Distinct(CreateTags(upd))
            && forall tag :: tag in CreateTags(upd) ==> Sent(file, inFlight, names, tag)
  {
    if file != [] {
      var k := |file| - 1;
      var rest := file[..k];
      DiffCreates(rest, cached, inFlight);
      var (upd, names) := Diff(rest, cached, inFlight);
      var (upd', names') := Diff(file, cached, inFlight);
      SentForLonger(file, inFlight, names, names', CreateTags(upd));
      if upd' != upd {
        var o := upd'[|upd|];
        CreateNamesNext(upd, o);
        CreateTagsNext(upd, o);
        DistinctAppend(CreateTags(upd), if o.job.id == "" then [o.tag] else []);
        if o.job.id == "" {
          assert SentFor(file, inFlight, names', o.tag, k);
        }
      }
    }
  }

  lemma SyncKeepsTags(c: Client, delivered: bool, removals: seq<string>)
    requires TagsSound(c)
    ensures TagsSound(Synced(c, delivered, removals))
  {
    DiffCreates(c.file, c.cached, c.inFlight);
    var (upd, names) := Diff(c.file, c.cached, c.inFlight);
    var d := Synced(c, delivered, removals);
    forall tag | tag in CreateTags(upd)
      ensures tag in c.usedTags && tag !in c.sentTags
      ensures forall j :: 0 <= j < |c.file| && IsNew(c.file[j]) && c.file[j].tag == tag ==>
                c.file[j].common.name in names
    {
      var i :| SentFor(c.file, c.inFlight, names, tag, i);
      forall j | 0 <= j < |c.file| && IsNew(c.file[j]) && c.file[j].tag == tag ensures j == i {
        assert c.file[i].tag == c.file[j].tag;
      }
    }
    DistinctAppend(c.sentTags, CreateTags(upd));
    assert forall tag :: tag in c.sentTags + CreateTags(upd) <==> tag in c.sentTags || tag in CreateTags(upd);
  }

  lemma EditKeepsTags(c: Client, file: seq<YamlJob>, deletes: seq<string>)
    requires TagsSound(c) && Edited(c, file)
    ensures TagsSound(c.(file := file, deletes := deletes, usedTags := c.usedTags + TagsOf(file)))
  {
    forall i | 0 <= i < |file| && IsNew(file[i]) && file[i].tag in c.sentTags
      ensures file[i].common.name in c.inFlight
    {
      assert NewEntry(c.file, file[i].tag, file[i].common.name);
    }
  }

  lemma ApplyKeepsTags(c: Client)
    requires TagsSound(c) && c.down != [] && forall i :: 0 <= i < |c.down[0]| ==> c.down[0][i].id != ""
    ensures TagsSound(Applied(c, true))
  {
    FileOfAt(c.down[0]);
  }

  // ---------- every history ----------

  predicate NewClient(c: Client) {
    c == Client(map[], {}, [], [], false, false, [], [], [], {})
  }

  predicate Initial(s: State) {
    s.table == Table(map[], map[]) && forall a :: a in s.clients ==> NewClient(s.clients[a])
  }

  datatype Trace = First(state: State) | Then(before: Trace, step: Step)

  ghost predicate Possible(cronOk: string -> bool, tr: Trace)
    decreases tr, 0
  {
    match tr
    case First(s) => Initial(s)
    case Then(before, step) => Possible(cronOk, before) && Enabled(cronOk, Last(cronOk, before), step)
  }

  ghost function Last(cronOk: string -> bool, tr: Trace): State
    requires Possible(cronOk, tr)
    decreases tr, 1
  {
    match tr
    case First(s) => s
    case Then(before, step) => Apply(cronOk, Last(cronOk, before), step)
  }

  /** Every rewrite of agent.yaml so far has succeeded. */
  predicate RewritesSucceed(tr: Trace) {
    tr.Then? ==> (tr.step.ClientReceive? ==> tr.step.written) && RewritesSucceed(tr.before)
  }

  lemma {:induction false} HistoryKeepsInv(cronOk: string -> bool, tr: Trace)
    requires Possible(cronOk, tr)
    ensures Inv(Last(cronOk, tr))
  {
    if tr.Then? {
      HistoryKeepsInv(cronOk, tr.before);
      StepKeepsInv(cronOk, Last(cronOk, tr.before), tr.step);
    } else {
      forall a | a in tr.state.clients ensures ClientSound(tr.state.table, a, tr.state.clients[a]) {
        assert NewClient(tr.state.clients[a]);
      }
    }
  }

  /** When an agent that has been pushed to has applied everything on its way, its
      cached set is exactly the server's jobs for it. */
  lemma DrainedAgrees(cronOk: string -> bool, tr: Trace, agent: string)
    requires Possible(cronOk, tr) && agent in Last(cronOk, tr).clients
    requires var c := Last(cronOk, tr).clients[agent]; c.online && c.pushed && c.down == []
    ensures Last(cronOk, tr).clients[agent].cached == JobsOf(Last(cronOk, tr).table, agent)
  {
    HistoryKeepsInv(cronOk, tr);
  }

  lemma EditIsBased(cronOk: string -> bool, t: Table, agent: string, jobs: seq<Outgoing>, newIds: seq<string>, k: nat)
    requires TableSound(t) && MessageSound(t, Edits(jobs)) && UnusedIds(t, newIds) && k < |jobs| == |newIds|
    ensures var u := HandleSync(cronOk, t, agent, jobs[..k], newIds[..k]); TableSound(u) && Based(u, jobs[k].job)
  {
    var m, before := Edits(jobs), Edits(jobs[..k]);
    assert forall i :: 0 <= i < |jobs| ==> Based(t, m.jobs[i].job);
    assert forall i :: 0 <= i < k ==> Based(t, before.jobs[i].job);
    SyncIsStep(cronOk, t, agent, jobs[..k], newIds[..k]);
  }

  /** Two edits of one job sent against the same cached set reuse one version: once
      the first has been accepted the second is ignored, whatever happened since. */
  lemma SecondEditIgnored(cronOk: string -> bool, agent: string, cached: map<string, Job>,
    file: seq<YamlJob>, inFlight: set<string>, first: Outgoing,
    laterFile: seq<YamlJob>, laterInFlight: set<string>, second: Outgoing,
    t: Table, u: Table, newId: string, otherId: string)
    requires first in Diff(file, cached, inFlight).0 && second in Diff(laterFile, cached, laterInFlight).0
    requires first.job.id == second.job.id && first.job.id != ""
    requires HandleOne(cronOk, t, agent, first.job, newId) != t
    requires Advanced(HandleOne(cronOk, t, agent, first.job, newId), u)
    ensures HandleOne(cronOk, u, agent, second.job, otherId) == u
  {
    DiffEditsIff(file, cached, inFlight, first);
    DiffEditsIff(laterFile, cached, laterInFlight, second);
  }

  /** The edit of a live job of the agent is accepted if and only if the job is still
      at the version the edit was based on; it then replaces exactly the spec that was
      edited.  Otherwise nothing changes. */
  ghost predicate ComparedAndSwapped(cronOk: string -> bool, t: Table, u: Table, agent: string, j: Job) {
    j.id in t.jobs && t.jobs[j.id].agent == agent && ValidSpec(cronOk, j.spec) ==>
      if j.version - 1 == t.jobs[j.id].version then
        && (j.id, j.version - 1) in t.log && t.log[(j.id, j.version - 1)] == t.jobs[j.id].spec
        && u == Save(t, Job(j.id, agent, j.spec, t.jobs[j.id].origin, t.jobs[j.id].version + 1))
      else u == t
  }

  lemma EditOutcome(cronOk: string -> bool, t: Table, agent: string, j: Job, newId: string)
    requires TableSound(t) && Based(t, j)
    ensures ComparedAndSwapped(cronOk, t, HandleOne(cronOk, t, agent, j, newId), agent, j)
  {
    if j.id in t.jobs && t.jobs[j.id].agent == agent && ValidSpec(cronOk, j.spec) {
      EditAcceptedIff(cronOk, t, agent, j, newId);
    }
  }

  /** The k-th edit of a message, applied to what the edits before it left. */
  lemma EditInMessage(
      cronOk: string -> bool, was: Table, agent: string, jobs: seq<Outgoing>, newIds: seq<string>, k: nat)
    requires TableSound(was) && MessageSound(was, Edits(jobs)) && UnusedIds(was, newIds) && k < |jobs| == |newIds|
    ensures ComparedAndSwapped(cronOk, HandleSync(cronOk, was, agent, jobs[..k], newIds[..k]),
                               HandleSync(cronOk, was, agent, jobs[..k + 1], newIds[..k + 1]), agent, jobs[k].job)
  {
    EditIsBased(cronOk, was, agent, jobs, newIds, k);
    SyncNext(cronOk, was, agent, jobs, newIds, k);
    EditOutcome(cronOk, HandleSync(cronOk, was, agent, jobs[..k], newIds[..k]), agent, jobs[k].job, newIds[k]);
  }

  /** In every reachable state, for every edit in the message the server handles
      next, after any number of the edits before it: the edit of a live job of that
      agent is accepted if and only if the job is still at the version the agent
      edited, and then it replaces exactly the spec the agent edited. */
  lemma ClientEditIsCompareAndSwap(cronOk: string -> bool, tr: Trace, agent: string, newIds: seq<string>, k: nat)
    requires Possible(cronOk, tr) && agent in Last(cronOk, tr).clients
    requires var c := Last(cronOk, tr).clients[agent];
             && c.up != [] && c.up[0].Edits? && k < |c.up[0].jobs| == |newIds|
             && UnusedIds(Last(cronOk, tr).table, newIds)
    ensures var was, jobs := Last(cronOk, tr).table, Last(cronOk, tr).clients[agent].up[0].jobs;
            ComparedAndSwapped(cronOk, HandleSync(cronOk, was, agent, jobs[..k], newIds[..k]),
                               HandleSync(cronOk, was, agent, jobs[..k + 1], newIds[..k + 1]), agent, jobs[k].job)
  {
    HistoryKeepsInv(cronOk, tr);
    var s := Last(cronOk, tr);
    assert MessageSound(s.table, s.clients[agent].up[0]);
    EditInMessage(cronOk, s.table, agent, s.clients[agent].up[0].jobs, newIds, k);
  }

  /** A step never rewrites a logged version, and a job that survives it keeps its
      agent and never goes back to an earlier version or a different spec at the same one. */
  lemma VersionsAreForever(cronOk: string -> bool, tr: Trace, step: Step)
    requires Possible(cronOk, Then(tr, step))
    ensures var t, u := Last(cronOk, tr).table, Last(cronOk, Then(tr, step)).table;
            && LogGrows(t, u)
            && forall id :: id in t.jobs && id in u.jobs ==>
                 t.jobs[id].version <= u.jobs[id].version
                 && (t.jobs[id].version == u.jobs[id].version ==> t.jobs[id].spec == u.jobs[id].spec)
  {
    HistoryKeepsInv(cronOk, tr);
    HistoryKeepsInv(cronOk, Then(tr, step));
    var s := Last(cronOk, tr);
    var t, u := s.table, Last(cronOk, Then(tr, step)).table;
    match step {
      case ServerReceive(a, newIds, _) =>
        assert MessageSound(t, s.clients[a].up[0]);
        ReceivedIsStep(cronOk, t, a, s.clients[a].up[0], newIds);
      case AdminSaves(j, newId, _) =>
        AdminWrites(cronOk, t, j, newId, NO_FAULTS);
        var w :| u == Save(t, w) && NextWrite(t, w);
        WriteIsStep(t, w);
      case AdminDeletes(id, _) => DeleteIsStep(t, t.jobs[id].agent, id);
      case _ =>
    }
    forall id | id in t.jobs && id in u.jobs ensures (id, t.jobs[id].version) in u.log {
      assert (id, t.jobs[id].version) in t.log;
    }
  }

  ghost predicate AllTagsSound(s: State) {
    forall a :: a in s.clients ==> TagsSound(s.clients[a])
  }

  /** What TagsSound looks at. */
  predicate SameTags(c: Client, d: Client) {
    c.sentTags == d.sentTags && c.usedTags == d.usedTags && c.file == d.file && c.inFlight == d.inFlight
  }

  lemma OthersKeepTags(cronOk: string -> bool, s: State, step: Step)
    requires Enabled(cronOk, s, step) && !step.UserEdit? && !step.SyncNow? && !step.ClientReceive?
    ensures var u := Apply(cronOk, s, step);
            u.clients.Keys == s.clients.Keys && forall a :: a in s.clients ==> SameTags(s.clients[a], u.clients[a])
  {
  }

  lemma StepKeepsTags(cronOk: string -> bool, s: State, step: Step)
    requires Inv(s) && AllTagsSound(s) && Enabled(cronOk, s, step) && (step.ClientReceive? ==> step.written)
    ensures AllTagsSound(Apply(cronOk, s, step))
  {
    match step
    case UserEdit(a, file, deletes) => EditKeepsTags(s.clients[a], file, deletes);
    case SyncNow(a, delivered, removals) => SyncKeepsTags(s.clients[a], delivered, removals);
    case ClientReceive(a, written) =>
      assert PushSound(s.table, a, s.clients[a].down[0]);
      ApplyKeepsTags(s.clients[a]);
    case _ =>
      OthersKeepTags(cronOk, s, step);
      var u := Apply(cronOk, s, step);
      forall a | a in u.clients
        ensures TagsSound(u.clients[a])
      {
        assert SameTags(s.clients[a], u.clients[a]) && TagsSound(s.clients[a]);
      }
  }

  lemma {:induction false} HistoryKeepsTags(cronOk: string -> bool, tr: Trace)
    requires Possible(cronOk, tr) && RewritesSucceed(tr)
    ensures AllTagsSound(Last(cronOk, tr))
  {
    match tr
    case First(s) =>
      forall a | a in s.clients ensures TagsSound(s.clients[a]) {
        assert NewClient(s.clients[a]);
      }
    case Then(before, step) =>
      HistoryKeepsTags(cronOk, before);
      HistoryKeepsInv(cronOk, before);
      StepKeepsTags(cronOk, Last(cronOk, before), step);
  }

  /** Within one agent process, an entry of the file is delivered as a create at
      most once. */
  lemma CreatedAtMostOnce(cronOk: string -> bool, tr: Trace, agent: string)
    requires Possible(cronOk, tr) && RewritesSucceed(tr) && agent in Last(cronOk, tr).clients
    ensures Distinct(Last(cronOk, tr).clients[agent].sentTags)
  {
    HistoryKeepsTags(cronOk, tr);
  }

  // ---------- exactly when a create is sent twice ----------

  predicate NewName(y: YamlJob, name: string) {
    IsNew(y) && Sendable(y) && y.common.name == name
  }

  /** The i-th entry is a complete new one, its name is not in flight, and no earlier
      entry claims the name. */
  predicate CreatesAt(file: seq<YamlJob>, inFlight: set<string>, i: int) {
    && 0 <= i < |file| && NewName(file[i], file[i].common.name) && file[i].common.name !in inFlight
    && forall j :: 0 <= j < i ==> !NewName(file[j], file[i].common.name)
  }

  ghost predicate Creates(file: seq<YamlJob>, inFlight: set<string>, tag: int) {
    exists i :: CreatesAt(file, inFlight, i) && file[i].tag == tag
  }

  lemma CreatesNext(file: seq<YamlJob>, inFlight: set<string>, tag: int)
    requires file != []
    ensures var k := |file| - 1;
            Creates(file, inFlight, tag) <==>
            Creates(file[..k], inFlight, tag) || (CreatesAt(file, inFlight, k) && file[k].tag == tag)
  {
    var k := |file| - 1;
    assert forall i :: 0 <= i < k ==> file[..k][i] == file[i];
    assert forall i :: i < k ==> (CreatesAt(file, inFlight, i) <==> CreatesAt(file[..k], inFlight, i));
  }

  lemma LastCreatesIff(file: seq<YamlJob>, inFlight: set<string>)
    requires file != []
    ensures var k := |file| - 1;
            CreatesAt(file, inFlight, k) <==>
            NewName(file[k], file[k].common.name) && file[k].common.name !in inFlight + NewNames(file[..k])
  {
    var k := |file| - 1;
    assert forall i :: 0 <= i < k ==> file[..k][i] == file[i];
  }

  lemma DiffTagsNext(file: seq<YamlJob>, cached: map<string, Job>, inFlight: set<string>)
    requires file != []
    ensures var k := |file| - 1;
            var (before, names) := Diff(file[..k], cached, inFlight);
            CreateTags(Diff(file, cached, inFlight).0) == CreateTags(before)
              + if NewName(file[k], file[k].common.name) && file[k].common.name !in names then [file[k].tag] else []
  {
    var k := |file| - 1;
    DiffLast(file, cached, inFlight);
    var before, upd := Diff(file[..k], cached, inFlight).0, Diff(file, cached, inFlight).0;
    if upd != before {
      CreateTagsNext(before, upd[|before|]);
    }
  }

  /** What the last entry of the file adds to the diff: its create, its edit or nothing. */
  lemma DiffLast(file: seq<YamlJob>, cached: map<string, Job>, inFlight: set<string>)
    requires file != []
    ensures var y, upd := file[|file| - 1], Diff(file, cached, inFlight).0;
            var (before, names) := Diff(file[..|file| - 1], cached, inFlight);
            if NewName(y, y.common.name) && y.common.name !in names then upd == before + [Outgoing(ToProto(y), y.tag)]
            else upd == before || (upd == before + [upd[|before|]] && upd[|before|].job.id != "")
  {
  }

  /** The creates a diff sends are those entries. */
  lemma {:induction false} DiffCreatesIff(file: seq<YamlJob>, cached: map<string, Job>, inFlight: set<string>, tag: int)
    ensures tag in CreateTags(Diff(file, cached, inFlight).0) <==> Creates(file, inFlight, tag)
  {
    if file != [] {
      var k := |file| - 1;
      DiffCreatesIff(file[..k], cached, inFlight, tag);
      CreatesNext(file, inFlight, tag);
      LastCreatesIff(file, inFlight);
      DiffCreatesNewNames(file[..k], cached, inFlight);
      DiffTagsNext(file, cached, inFlight);
    }
  }

  /** The next sync would send the create of an entry that has been sent already: it is
      still in the file, and its name is no longer in flight. */
  ghost predicate Resends(c: Client) {
    exists i :: CreatesAt(c.file, c.inFlight, i) && c.file[i].tag in c.sentTags
  }

  lemma SyncRepeatsIff(c: Client, delivered: bool, removals: seq<string>)
    requires Distinct(c.sentTags) && NewTagsDistinct(c.file)
    ensures Distinct(Synced(c, delivered, removals).sentTags) <==> !(delivered && Resends(c))
  {
    var tags := CreateTags(Diff(c.file, c.cached, c.inFlight).0);
    DiffCreates(c.file, c.cached, c.inFlight);
    forall tag
      ensures tag in tags <==> Creates(c.file, c.inFlight, tag)
    {
      DiffCreatesIff(c.file, c.cached, c.inFlight, tag);
    }
    if Resends(c) {
      var i :| CreatesAt(c.file, c.inFlight, i) && c.file[i].tag in c.sentTags;
      assert c.file[i].tag in tags;
      SharedTag(c.sentTags, tags, c.file[i].tag);
    } else {
      DistinctAppend(c.sentTags, tags);
    }
  }

  lemma SharedTag(a: seq<int>, b: seq<int>, tag: int)
    requires tag in a && tag in b
    ensures !Distinct(a + b)
  {
    var i :| 0 <= i < |a| && a[i] == tag;
    var j :| 0 <= j < |b| && b[j] == tag;
    assert (a + b)[i] == (a + b)[|a| + j];
  }

  ghost predicate AllNewTagsDistinct(s: State) {
    forall a :: a in s.clients ==> NewTagsDistinct(s.clients[a].file)
  }

  lemma StepKeepsNewTags(cronOk: string -> bool, s: State, step: Step)
    requires Inv(s) && AllNewTagsDistinct(s) && Enabled(cronOk, s, step)
    ensures AllNewTagsDistinct(Apply(cronOk, s, step))
    ensures Apply(cronOk, s, step).clients.Keys == s.clients.Keys
  {
    if step.ClientReceive? {
      var first := s.clients[step.agent].down[0];
      assert PushSound(s.table, step.agent, first);
      FileOfAt(first);
    } else if !step.UserEdit? && !step.SyncNow? {
      OthersKeepTags(cronOk, s, step);
    }
  }

  lemma {:induction false} HistoryKeepsNewTags(cronOk: string -> bool, tr: Trace)
    requires Possible(cronOk, tr)
    ensures AllNewTagsDistinct(Last(cronOk, tr))
  {
    if tr.Then? {
      HistoryKeepsNewTags(cronOk, tr.before);
      HistoryKeepsInv(cronOk, tr.before);
      StepKeepsNewTags(cronOk, Last(cronOk, tr.before), tr.step);
    } else {
      assert forall a :: a in tr.state.clients ==> NewClient(tr.state.clients[a]);
    }
  }

  /** Every delivered sync of the agent so far found nothing to send again. */
  ghost predicate NeverResends(cronOk: string -> bool, tr: Trace, agent: string)
    requires Possible(cronOk, tr)
  {
    tr.Then? ==>
      && NeverResends(cronOk, tr.before, agent)
      && (tr.step.SyncNow? && tr.step.agent == agent && tr.step.delivered ==>
            !Resends(Last(cronOk, tr.before).clients[agent]))
  }

  lemma SentTagsAfter(cronOk: string -> bool, s: State, step: Step, agent: string)
    requires Inv(s) && AllNewTagsDistinct(s) && Enabled(cronOk, s, step) && agent in s.clients
    ensures agent in Apply(cronOk, s, step).clients
    ensures Distinct(Apply(cronOk, s, step).clients[agent].sentTags) <==>
            && Distinct(s.clients[agent].sentTags)
            && !(step.SyncNow? && step.agent == agent && step.delivered && Resends(s.clients[agent]))
  {
    var c, d := s.clients[agent], Apply(cronOk, s, step).clients[agent];
    if step.SyncNow? && step.agent == agent {
      if Distinct(c.sentTags) {
        SyncRepeatsIff(c, step.delivered, step.removals);
      } else {
        assert c.sentTags <= d.sentTags;
        PrefixDistinct(c.sentTags, d.sentTags);
      }
    } else {
      assert d.sentTags == c.sentTags by {
        if !step.UserEdit? && !step.SyncNow? && !step.ClientReceive? {
          OthersKeepTags(cronOk, s, step);
        }
      }
    }
  }

  lemma PrefixDistinct(a: seq<int>, b: seq<int>)
    requires a <= b
    ensures Distinct(b) ==> Distinct(a)
  {
    assert forall i :: 0 <= i < |a| ==> a[i] == b[i];
  }

  /** In every history, whether or not rewrites of the file succeed: every entry has been
      delivered as a create at most once if and only if no delivered sync found an entry
      already sent, still in the file and no longer in flight. */
  lemma {:induction false} CreatedOnceIff(cronOk: string -> bool, tr: Trace, agent: string)
    requires Possible(cronOk, tr) && agent in Last(cronOk, tr).clients
    ensures Distinct(Last(cronOk, tr).clients[agent].sentTags) <==> NeverResends(cronOk, tr, agent)
  {
    if tr.Then? {
      var s := Last(cronOk, tr.before);
      HistoryKeepsInv(cronOk, tr.before);
      HistoryKeepsNewTags(cronOk, tr.before);
      StepKeepsNewTags(cronOk, s, tr.step);
      CreatedOnceIff(cronOk, tr.before, agent);
      SentTagsAfter(cronOk, s, tr.step, agent);
    } else {
      assert NewClient(tr.state.clients[agent]);
    }
  }

  lemma OneEntryDiff(y: YamlJob)
    requires IsNew(y) && y.common.name != "" && y.common.paths != []
    ensures Diff([y], map[], {}) == ([Outgoing(ToProto(y), y.tag)], {y.common.name})
    ensures CreateTags([Outgoing(ToProto(y), y.tag)]) == [y.tag]
  {
    var file, upd := [y], [Outgoing(ToProto(y), y.tag)];
    assert file[..0] == [] && upd[..0] == [];
    var none: (seq<Outgoing>, set<string>) := ([], {});
    assert Diff(file[..0], map[], {}) == none;
    assert none.0 + upd == upd && none.1 + {y.common.name} == {y.common.name};
  }

  function Only(c: Client): State {
    State(Table(map[], map[]), map["a" := c])
  }

  lemma {:induction false} Extend(cronOk: string -> bool, tr: Trace, step: Step, c: Client) returns (longer: Trace)
    requires Possible(cronOk, tr) && Enabled(cronOk, Last(cronOk, tr), step)
    requires var s := Apply(cronOk, Last(cronOk, tr), step);
             s.table == Table(map[], map[]) && s.clients.Keys == {"a"} && s.clients["a"] == c
    ensures Possible(cronOk, longer) && Last(cronOk, longer) == Only(c)
  {
    longer := Then(tr, step);
    assert Last(cronOk, longer).clients == map["a" := c];
  }

  /** The agent as it is once the user's only entry has been sent, with those
      messages up and that many sends recorded. */
  function SentOnce(y: YamlJob, up: seq<Message>, tags: seq<int>): Client {
    Client(map[], {y.common.name}, [y], [], true, false, up, [], tags, {y.tag})
  }

  lemma FirstSend(cronOk: string -> bool, y: YamlJob) returns (tr: Trace)
    requires IsNew(y) && y.common.name != "" && y.common.paths != []
    ensures Possible(cronOk, tr)
    ensures Last(cronOk, tr) == Only(SentOnce(y, [Hello, Edits([Outgoing(ToProto(y), y.tag)])], [y.tag]))
  {
    OneEntryDiff(y);
    var c := Client(map[], {}, [], [], false, false, [], [], [], {});
    tr := First(Only(c));
    c := c.(online := true, up := [Hello]);
    tr := Extend(cronOk, tr, Connect("a"), c);
    c := c.(file := [y], usedTags := {y.tag});
    tr := Extend(cronOk, tr, UserEdit("a", [y], []), c);
    c := c.(inFlight := {y.common.name}, sentTags := [y.tag], up := [Hello, Edits([Outgoing(ToProto(y), y.tag)])]);
    tr := Extend(cronOk, tr, SyncNow("a", true, []), c);
  }

  /** The server answers the greeting with an empty push, which the agent applies
      without being able to rewrite its file. */
  lemma FailedRewrite(cronOk: string -> bool, y: YamlJob, before: Trace) returns (tr: Trace)
    requires Possible(cronOk, before)
    requires Last(cronOk, before) == Only(SentOnce(y, [Hello, Edits([Outgoing(ToProto(y), y.tag)])], [y.tag]))
    ensures Possible(cronOk, tr)
    ensures Last(cronOk, tr)
         == Only(SentOnce(y, [Edits([Outgoing(ToProto(y), y.tag)])], [y.tag]).(pushed := true, inFlight := {}))
  {
    var c := SentOnce(y, [Edits([Outgoing(ToProto(y), y.tag)])], [y.tag]).(down := [[]], pushed := true);
    tr := Extend(cronOk, before, ServerReceive("a", [], []), c);
    c := c.(inFlight := {}, down := []);
    tr := Extend(cronOk, tr, ClientReceive("a", false), c);
  }

  /** If a rewrite of the file fails, the create is sent again for the same entry. */
  lemma RewriteNeeded(cronOk: string -> bool, y: YamlJob) returns (tr: Trace)
    requires IsNew(y) && y.common.name != "" && y.common.paths != []
    ensures Possible(cronOk, tr) && "a" in Last(cronOk, tr).clients
    ensures Last(cronOk, tr).clients["a"].sentTags == [y.tag, y.tag]
  {
    OneEntryDiff(y);
    tr := FirstSend(cronOk, y);
    tr := FailedRewrite(cronOk, y, tr);
    var edits := Edits([Outgoing(ToProto(y), y.tag)]);
    var c := SentOnce(y, [edits, edits], [y.tag, y.tag]).(pushed := true);
    tr := Extend(cronOk, tr, SyncNow("a", true, []), c);
  }
}
