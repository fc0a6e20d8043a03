/** What becomes of the messages of job synchronisation: every create an agent delivers is
    queued, handled or dropped, and when an entry of the file is lost. */
module SyncDelivery {
  import opened Basics
  import opened JobSync
  import opened SyncProtocol

  // ---------- every delivered create is accounted for ----------

  function TagsIn(m: Message): seq<int> {
    if m.Edits? then CreateTags(m.jobs) else []
  }

  /** The creates on their way to the server. */
  function QueuedTags(up: seq<Message>): seq<int> {
    if up == [] then [] else TagsIn(up[0]) + QueuedTags(up[1..])
  }

  lemma {:induction false} QueuedAppend(a: seq<Message>, b: seq<Message>)
    ensures QueuedTags(a + b) == QueuedTags(a) + QueuedTags(b)
  {
    if a == [] {
      assert a + b == b;
    } else {
      ConsAppend(a, b);
      QueuedAppend(a[1..], b);
      QueuedFirst(a[0], a[1..] + b);
      QueuedFirst(a[0], a[1..]);
      assert a == [a[0]] + a[1..];
    }
  }

  lemma QueuedFirst(m: Message, rest: seq<Message>)
    ensures QueuedTags([m] + rest) == TagsIn(m) + QueuedTags(rest)
  {
    assert ([m] + rest)[1..] == rest;
  }

  lemma {:induction false} RemovalsQueueNothing(ids: seq<string>)
    ensures QueuedTags(Removals(ids)) == []
  {
    if ids != [] {
      RemovalsQueueNothing(ids[1..]);
      assert Removals(ids) == [Remove(ids[0])] + Removals(ids[1..]);
      QueuedFirst(Remove(ids[0]), Removals(ids[1..]));
    }
  }

  /** The creates the server has handled, in order. */
  ghost function Handled(cronOk: string -> bool, tr: Trace, agent: string): seq<int>
    requires Possible(cronOk, tr)
  {
    if tr.First? then []
    else Handled(cronOk, tr.before, agent) + HandledBy(Last(cronOk, tr.before), tr.step, agent)
  }

  function HandledBy(s: State, step: Step, agent: string): seq<int> {
    if step.ServerReceive? && step.agent == agent && agent in s.clients && s.clients[agent].up != []
    then TagsIn(s.clients[agent].up[0]) else []
  }

  /** The creates that went down with a connection. */
  ghost function Dropped(cronOk: string -> bool, tr: Trace, agent: string): seq<int>
    requires Possible(cronOk, tr)
  {
    if tr.First? then []
    else Dropped(cronOk, tr.before, agent) + DroppedBy(Last(cronOk, tr.before), tr.step, agent)
  }

  function DroppedBy(s: State, step: Step, agent: string): seq<int> {
    if step.DropUp? && step.agent == agent && agent in s.clients then QueuedTags(s.clients[agent].up) else []
  }

  /** The creates a step sends. */
  function SentBy(s: State, step: Step, agent: string): seq<int> {
    if step.SyncNow? && step.agent == agent && step.delivered && agent in s.clients then
      CreateTags(Diff(s.clients[agent].file, s.clients[agent].cached, s.clients[agent].inFlight).0)
    else []
  }

  /** What is sent joins the queue at its end; what is handled or dropped leaves at its front. */
  ghost predicate Moves(c: Client, d: Client, sent: seq<int>, left: seq<int>) {
    d.sentTags == c.sentTags + sent && left + QueuedTags(d.up) == QueuedTags(c.up) + sent
  }

  function Sent(delivered: bool, upd: seq<Outgoing>): seq<Message> {
    if delivered && upd != [] then [Edits(upd)] else []
  }

  lemma SentIsQueued(delivered: bool, upd: seq<Outgoing>)
    ensures QueuedTags(Sent(delivered, upd)) == if delivered then CreateTags(upd) else []
  {
    if delivered && upd != [] {
      QueuedFirst(Edits(upd), []);
      assert Sent(delivered, upd) == [Edits(upd)] + [];
    }
  }

  lemma MessagesAreQueued(up: seq<Message>, sent: seq<Message>, ids: seq<string>)
    ensures QueuedTags(up + sent + Removals(ids)) == QueuedTags(up) + QueuedTags(sent)
  {
    QueuedAppend(up + sent, Removals(ids));
    QueuedAppend(up, sent);
    RemovalsQueueNothing(ids);
  }

  lemma SyncMoves(c: Client, delivered: bool, removals: seq<string>)
    ensures Moves(c, Synced(c, delivered, removals),
                  if delivered then CreateTags(Diff(c.file, c.cached, c.inFlight).0) else [], [])
  {
    var upd := Diff(c.file, c.cached, c.inFlight).0;
    SentIsQueued(delivered, upd);
    MessagesAreQueued(c.up, Sent(delivered, upd), removals);
  }

  lemma ReceiveMoves(c: Client, d: Client)
    requires c.up != [] && d.up == c.up[1..] && d.sentTags == c.sentTags
    ensures Moves(c, d, [], TagsIn(c.up[0]))
  {
    QueuedFirst(c.up[0], c.up[1..]);
    assert c.up == [c.up[0]] + c.up[1..];
  }

  lemma HelloMoves(c: Client, d: Client)
    requires d.up == c.up + [Hello] && d.sentTags == c.sentTags
    ensures Moves(c, d, [], [])
  {
    QueuedAppend(c.up, [Hello]);
    QueuedFirst(Hello, []);
    assert [Hello] + [] == [Hello];
  }

  predicate MovesCreates(step: Step) {
    step.SyncNow? || step.ServerReceive? || step.Connect? || step.DropUp?
  }

  lemma OthersMoveNothing(cronOk: string -> bool, s: State, step: Step, agent: string)
    requires Enabled(cronOk, s, step) && agent in s.clients
    requires !MovesCreates(step) || step.agent != agent
    ensures agent in Apply(cronOk, s, step).clients
    ensures var c, d := s.clients[agent], Apply(cronOk, s, step).clients[agent];
            d.up == c.up && d.sentTags == c.sentTags
  {
  }

  /** The step moves the agent's creates as it should. */
  ghost predicate StepIsMove(cronOk: string -> bool, s: State, step: Step, agent: string)
    requires Enabled(cronOk, s, step) && agent in s.clients
  {
    && agent in Apply(cronOk, s, step).clients
    && Moves(s.clients[agent], Apply(cronOk, s, step).clients[agent], SentBy(s, step, agent),
             HandledBy(s, step, agent) + DroppedBy(s, step, agent))
  }

  lemma SyncIsMove(cronOk: string -> bool, s: State, step: Step)
    requires Enabled(cronOk, s, step) && step.SyncNow?
    ensures StepIsMove(cronOk, s, step, step.agent)
  {
    SyncMoves(s.clients[step.agent], step.delivered, step.removals);
  }

  lemma ReceiveIsMove(cronOk: string -> bool, s: State, step: Step)
    requires Enabled(cronOk, s, step) && step.ServerReceive?
    ensures StepIsMove(cronOk, s, step, step.agent)
  {
    ReceiveMoves(s.clients[step.agent], Apply(cronOk, s, step).clients[step.agent]);
  }

  lemma ConnectIsMove(cronOk: string -> bool, s: State, step: Step)
    requires Enabled(cronOk, s, step) && step.Connect?
    ensures StepIsMove(cronOk, s, step, step.agent)
  {
    HelloMoves(s.clients[step.agent], Apply(cronOk, s, step).clients[step.agent]);
  }

  lemma DropIsMove(cronOk: string -> bool, s: State, step: Step)
    requires Enabled(cronOk, s, step) && step.DropUp?
    ensures StepIsMove(cronOk, s, step, step.agent)
  {
  }

  lemma OtherIsMove(cronOk: string -> bool, s: State, step: Step, agent: string)
    requires Enabled(cronOk, s, step) && agent in s.clients
    requires !MovesCreates(step) || step.agent != agent
    ensures StepIsMove(cronOk, s, step, agent)
  {
    OthersMoveNothing(cronOk, s, step, agent);
  }

  lemma StepMoves(cronOk: string -> bool, s: State, step: Step, agent: string)
    requires Enabled(cronOk, s, step) && agent in s.clients
    ensures StepIsMove(cronOk, s, step, agent)
  {
    if !MovesCreates(step) || step.agent != agent {
      OtherIsMove(cronOk, s, step, agent);
    } else if step.SyncNow? {
      SyncIsMove(cronOk, s, step);
    } else if step.ServerReceive? {
      ReceiveIsMove(cronOk, s, step);
    } else if step.Connect? {
      ConnectIsMove(cronOk, s, step);
    } else {
      DropIsMove(cronOk, s, step);
    }
  }

  /** The creates that left the queue, handled or dropped, in order. */
  ghost function Gone(cronOk: string -> bool, tr: Trace, agent: string): seq<int>
    requires Possible(cronOk, tr)
  {
    if tr.First? then []
    else
      var s := Last(cronOk, tr.before);
      Gone(cronOk, tr.before, agent) + (HandledBy(s, tr.step, agent) + DroppedBy(s, tr.step, agent))
  }

  lemma {:induction false} GoneSplits(cronOk: string -> bool, tr: Trace, agent: string)
    requires Possible(cronOk, tr)
    ensures multiset(Gone(cronOk, tr, agent))
         == multiset(Handled(cronOk, tr, agent)) + multiset(Dropped(cronOk, tr, agent))
  {
    if tr.Then? {
      var s := Last(cronOk, tr.before);
      GoneSplits(cronOk, tr.before, agent);
      SplitsNext(Gone(cronOk, tr.before, agent), Handled(cronOk, tr.before, agent), Dropped(cronOk, tr.before, agent),
                 HandledBy(s, tr.step, agent), DroppedBy(s, tr.step, agent));
    }
  }

  lemma SplitsNext(gone: seq<int>, handled: seq<int>, dropped: seq<int>, h: seq<int>, d: seq<int>)
    requires multiset(gone) == multiset(handled) + multiset(dropped)
    ensures multiset(gone + (h + d)) == multiset(handled + h) + multiset(dropped + d)
  {
  }

  /** In every history: the creates an agent has delivered are, in order, those that have
      left the queue and those still queued; and each one that left was handled or was
      dropped with a connection, exactly as often as it left. */
  lemma {:induction false} CreatesAreConserved(cronOk: string -> bool, tr: Trace, agent: string)
    requires Possible(cronOk, tr) && agent in Last(cronOk, tr).clients
    ensures var c := Last(cronOk, tr).clients[agent];
            c.sentTags == Gone(cronOk, tr, agent) + QueuedTags(c.up)
    ensures multiset(Gone(cronOk, tr, agent))
         == multiset(Handled(cronOk, tr, agent)) + multiset(Dropped(cronOk, tr, agent))
  {
    GoneSplits(cronOk, tr, agent);
    if tr.Then? {
      var s := Last(cronOk, tr.before);
      SameAgents(cronOk, s, tr.step);
      CreatesAreConserved(cronOk, tr.before, agent);
      StepMoves(cronOk, s, tr.step, agent);
      MovesNext(s.clients[agent], Last(cronOk, tr).clients[agent], Gone(cronOk, tr.before, agent),
                SentBy(s, tr.step, agent), HandledBy(s, tr.step, agent) + DroppedBy(s, tr.step, agent));
    } else {
      assert NewClient(tr.state.clients[agent]);
    }
  }

  lemma MovesNext(c: Client, d: Client, gone: seq<int>, sent: seq<int>, left: seq<int>)
    requires Moves(c, d, sent, left) && c.sentTags == gone + QueuedTags(c.up)
    ensures d.sentTags == (gone + left) + QueuedTags(d.up)
  {
    assert d.sentTags == gone + (QueuedTags(c.up) + sent);
  }

  lemma SameAgents(cronOk: string -> bool, s: State, step: Step)
    requires Enabled(cronOk, s, step)
    ensures Apply(cronOk, s, step).clients.Keys == s.clients.Keys
  {
    if !step.UserEdit? && !step.SyncNow? && !step.ClientReceive? {
      OthersKeepTags(cronOk, s, step);
    }
  }

  // ---------- when an entry is lost ----------

  predicate HasNewEntry(file: seq<YamlJob>, tag: int) {
    exists i :: 0 <= i < |file| && IsNew(file[i]) && file[i].tag == tag
  }

  /** A push that rewrites the file takes every new entry out of it. */
  lemma RewriteTakesAll(cronOk: string -> bool, tr: Trace, agent: string, tag: int)
    requires Possible(cronOk, Then(tr, ClientReceive(agent, true)))
    ensures !HasNewEntry(Last(cronOk, Then(tr, ClientReceive(agent, true))).clients[agent].file, tag)
  {
    HistoryKeepsInv(cronOk, tr);
    var first := Last(cronOk, tr).clients[agent].down[0];
    assert PushSound(Last(cronOk, tr).table, agent, first);
    FileOfAt(first);
  }

  /** In every history in which no create was sent twice: when a push rewrites the file, a
      new entry vanishes from it without the server having handled its create if and only
      if the create has not been sent, or is still on its way, or was dropped. */
  lemma EntryLostIff(cronOk: string -> bool, tr: Trace, agent: string, tag: int)
    requires Possible(cronOk, Then(tr, ClientReceive(agent, true))) && NeverResends(cronOk, tr, agent)
    requires HasNewEntry(Last(cronOk, tr).clients[agent].file, tag)
    ensures var c := Last(cronOk, tr).clients[agent];
            && !HasNewEntry(Last(cronOk, Then(tr, ClientReceive(agent, true))).clients[agent].file, tag)
            && (tag !in Handled(cronOk, tr, agent) <==>
                tag !in c.sentTags || tag in QueuedTags(c.up) || tag in Dropped(cronOk, tr, agent))
  {
    RewriteTakesAll(cronOk, tr, agent, tag);
    CreatesAreConserved(cronOk, tr, agent);
    CreatedOnceIff(cronOk, tr, agent);
    var c := Last(cronOk, tr).clients[agent];
    DistinctParts(c.sentTags, Gone(cronOk, tr, agent), QueuedTags(c.up), tag);
    DistinctSplit(Gone(cronOk, tr, agent), Handled(cronOk, tr, agent), Dropped(cronOk, tr, agent), tag);
  }

  lemma DistinctParts(tags: seq<int>, left: seq<int>, right: seq<int>, tag: int)
    requires Distinct(tags) && tags == left + right
    ensures Distinct(left) && (tag in tags <==> tag in left || tag in right) && !(tag in left && tag in right)
  {
    assert forall i :: 0 <= i < |left| ==> tags[i] == left[i];
    assert forall i :: 0 <= i < |right| ==> tags[|left| + i] == right[i];
  }

  lemma DistinctSplit(tags: seq<int>, a: seq<int>, b: seq<int>, tag: int)
    requires Distinct(tags) && multiset(tags) == multiset(a) + multiset(b)
    ensures (tag in tags <==> tag in a || tag in b) && !(tag in a && tag in b)
  {
    DistinctCounts(tags, tag);
    assert multiset(tags)[tag] == multiset(a)[tag] + multiset(b)[tag];
    assert tag in a <==> tag in multiset(a);
    assert tag in b <==> tag in multiset(b);
    assert tag in tags <==> tag in multiset(tags);
  }

  lemma {:induction false} DistinctCounts(tags: seq<int>, tag: int)
    requires Distinct(tags)
    ensures multiset(tags)[tag] == if tag in tags then 1 else 0
  {
    if tags != [] {
      var k := |tags| - 1;
      DistinctCounts(tags[..k], tag);
      assert tags == tags[..k] + [tags[k]];
      assert tags[k] !in tags[..k];
    }
  }

  // ---------- ... and stays lost ----------

  predicate Extends(before: Trace, after: Trace) {
    after == before || (after.Then? && Extends(before, after.before))
  }

  /** The entry was in the file once, is not any more, and no create of it is queued. */
  predicate Vanished(c: Client, tag: int) {
    tag in c.usedTags && !HasNewEntry(c.file, tag) && tag !in QueuedTags(c.up)
  }

  lemma SyncSendsNoVanished(s: State, step: Step, agent: string, tag: int)
    requires agent in s.clients && Vanished(s.clients[agent], tag)
    ensures tag !in SentBy(s, step, agent)
  {
    var c := s.clients[agent];
    DiffCreatesIff(c.file, c.cached, c.inFlight, tag);
  }

  lemma EditAddsNoVanished(c: Client, file: seq<YamlJob>, tag: int)
    requires tag in c.usedTags && !HasNewEntry(c.file, tag) && Edited(c, file)
    ensures !HasNewEntry(file, tag)
  {
    forall i | 0 <= i < |file| && IsNew(file[i])
      ensures file[i].tag != tag
    {
      if NewEntry(c.file, file[i].tag, file[i].common.name) {
        var k :| 0 <= k < |c.file| && IsNew(c.file[k]) && c.file[k].tag == file[i].tag;
        assert c.file[k].tag != tag;
      }
    }
  }

  lemma StepAddsNoVanished(cronOk: string -> bool, s: State, step: Step, agent: string, tag: int)
    requires Inv(s) && Enabled(cronOk, s, step) && agent in s.clients && Vanished(s.clients[agent], tag)
    ensures agent in Apply(cronOk, s, step).clients
    ensures var d := Apply(cronOk, s, step).clients[agent];
            tag in d.usedTags && !HasNewEntry(d.file, tag)
  {
    match step
    case UserEdit(a, file, _) =>
      if a == agent {
        EditAddsNoVanished(s.clients[a], file, tag);
      }
    case SyncNow(_, _, _) =>
    case ClientReceive(a, _) =>
      assert PushSound(s.table, a, s.clients[a].down[0]);
      FileOfAt(s.clients[a].down[0]);
    case _ =>
      OthersKeepTags(cronOk, s, step);
      assert SameTags(s.clients[agent], Apply(cronOk, s, step).clients[agent]);
  }

  lemma StepKeepsVanished(cronOk: string -> bool, s: State, step: Step, agent: string, tag: int)
    requires Inv(s) && Enabled(cronOk, s, step) && agent in s.clients && Vanished(s.clients[agent], tag)
    ensures agent in Apply(cronOk, s, step).clients && Vanished(Apply(cronOk, s, step).clients[agent], tag)
    ensures tag !in HandledBy(s, step, agent)
  {
    SyncSendsNoVanished(s, step, agent, tag);
    StepAddsNoVanished(cronOk, s, step, agent, tag);
    StepMoves(cronOk, s, step, agent);
    MovesIn(s.clients[agent], Apply(cronOk, s, step).clients[agent], SentBy(s, step, agent),
            HandledBy(s, step, agent), DroppedBy(s, step, agent), tag);
  }

  lemma MovesIn(c: Client, d: Client, sent: seq<int>, handled: seq<int>, dropped: seq<int>, tag: int)
    requires Moves(c, d, sent, handled + dropped) && tag !in sent && tag !in QueuedTags(c.up)
    ensures tag !in handled && tag !in QueuedTags(d.up)
  {
    var all := (handled + dropped) + QueuedTags(d.up);
    assert tag !in all;
  }

  /** A vanished entry whose create was not handled never is, whatever happens next. */
  lemma {:induction false} LostForGood(
    cronOk: string -> bool, before: Trace, after: Trace, agent: string, tag: int)
    requires Possible(cronOk, before) && Possible(cronOk, after) && Extends(before, after)
    requires agent in Last(cronOk, before).clients && Vanished(Last(cronOk, before).clients[agent], tag)
    ensures agent in Last(cronOk, after).clients && Vanished(Last(cronOk, after).clients[agent], tag)
    ensures tag in Handled(cronOk, after, agent) <==> tag in Handled(cronOk, before, agent)
  {
    if after != before {
      LostForGood(cronOk, before, after.before, agent, tag);
      HistoryKeepsInv(cronOk, after.before);
      StepKeepsVanished(cronOk, Last(cronOk, after.before), after.step, agent, tag);
    }
  }

  /** The connection breaks with the create on its way, and is made anew. */
  lemma CreateIsDropped(cronOk: string -> bool, y: YamlJob, before: Trace) returns (tr: Trace)
    requires Possible(cronOk, before)
    requires Last(cronOk, before) == Only(SentOnce(y, [Hello, Edits([Outgoing(ToProto(y), y.tag)])], [y.tag]))
    ensures Possible(cronOk, tr) && Last(cronOk, tr) == Only(SentOnce(y, [Hello], [y.tag]))
  {
    var c := SentOnce(y, [Hello, Edits([Outgoing(ToProto(y), y.tag)])], [y.tag]).(online := false);
    tr := Extend(cronOk, before, Disconnect("a"), c);
    tr := Extend(cronOk, tr, DropUp("a"), c.(up := []));
    tr := Extend(cronOk, tr, Connect("a"), SentOnce(y, [Hello], [y.tag]));
  }

  /** A history in which an entry is lost: its create was delivered, every rewrite of the
      file worked, and at the end neither the file nor the server has it, nor ever had the
      server a job. */
  lemma LossHappens(cronOk: string -> bool, y: YamlJob) returns (tr: Trace)
    requires IsNew(y) && y.common.name != "" && y.common.paths != []
    ensures Possible(cronOk, tr)
    ensures Last(cronOk, tr) == Only(Client(map[], {}, [], [], true, true, [], [], [y.tag], {y.tag}))
    ensures Vanished(Last(cronOk, tr).clients["a"], y.tag)
  {
    tr := FirstSend(cronOk, y);
    tr := CreateIsDropped(cronOk, y, tr);
    var c := SentOnce(y, [], [y.tag]).(down := [[]], pushed := true);
    tr := Extend(cronOk, tr, ServerReceive("a", [], []), c);
    c := Client(map[], {}, [], [], true, true, [], [], [y.tag], {y.tag});
    tr := Extend(cronOk, tr, ClientReceive("a", true), c);
  }

  // ---------- a history with two edits of one job ----------

  /** The agent of the history, after a push of that job: the set it has cached, its file,
      and what is queued. */
  function Synchronised(j: Job, file: seq<YamlJob>, used: set<int>, up: seq<Message>): Client {
    Client(map[j.id := j], {}, file, [], true, true, up, [], [], used)
  }

  function WithAgent(t: Table, c: Client): State {
    State(t, map["a" := c])
  }

  lemma {:induction false} ExtendTo(cronOk: string -> bool, tr: Trace, step: Step, t: Table, c: Client)
    returns (longer: Trace)
    requires Possible(cronOk, tr) && Enabled(cronOk, Last(cronOk, tr), step)
    requires var s := Apply(cronOk, Last(cronOk, tr), step);
             s.table == t && s.clients.Keys == {"a"} && s.clients["a"] == c
    ensures Possible(cronOk, longer) && Last(cronOk, longer) == WithAgent(t, c)
  {
    longer := Then(tr, step);
    assert Last(cronOk, longer).clients == map["a" := c];
  }

  function FirstJob(spec: Spec): Job {
    Job("j", "a", spec, ByServer, 1)
  }

  function OneJob(spec: Spec): Table {
    Save(Table(map[], map[]), FirstJob(spec))
  }

  lemma JobIsSaved(cronOk: string -> bool, spec: Spec) returns (tr: Trace)
    requires ValidSpec(cronOk, spec)
    ensures Possible(cronOk, tr)
    ensures Last(cronOk, tr)
         == WithAgent(OneJob(spec), Client(map[], {}, [], [], true, false, [Hello], [], [], {}))
  {
    var c := Client(map[], {}, [], [], false, false, [], [], [], {});
    tr := First(WithAgent(Table(map[], map[]), c));
    tr := ExtendTo(cronOk, tr, AdminSaves(Job("", "a", spec, ByServer, 0), "j", [FirstJob(spec)]), OneJob(spec), c);
    tr := ExtendTo(cronOk, tr, Connect("a"), OneJob(spec), c.(online := true, up := [Hello]));
  }

  lemma OneJobPush(j: Job)
    ensures ById([j]) == map[j.id := j] && FileOf([j]) == [YamlFromProto(j)]
  {
    assert [j][..0] == [];
  }

  lemma JobIsListed(spec: Spec)
    ensures Lists([FirstJob(spec)], OneJob(spec), "a")
  {
  }

  lemma GreetingAnswered(cronOk: string -> bool, spec: Spec) returns (tr: Trace)
    requires ValidSpec(cronOk, spec)
    ensures Possible(cronOk, tr)
    ensures Last(cronOk, tr)
         == WithAgent(OneJob(spec), Client(map[], {}, [], [], true, true, [], [[FirstJob(spec)]], [], {}))
  {
    tr := JobIsSaved(cronOk, spec);
    JobIsListed(spec);
    var c := Client(map[], {}, [], [], true, true, [], [[FirstJob(spec)]], [], {});
    tr := ExtendTo(cronOk, tr, ServerReceive("a", [], [FirstJob(spec)]), OneJob(spec), c);
  }

  lemma JobIsPushed(cronOk: string -> bool, spec: Spec) returns (tr: Trace)
    requires ValidSpec(cronOk, spec)
    ensures Possible(cronOk, tr)
    ensures Last(cronOk, tr)
         == WithAgent(OneJob(spec), Synchronised(FirstJob(spec), [YamlFromProto(FirstJob(spec))], {}, []))
  {
    var j := FirstJob(spec);
    tr := GreetingAnswered(cronOk, spec);
    OneJobPush(j);
    tr := ExtendTo(cronOk, tr, ClientReceive("a", true), OneJob(spec), Synchronised(j, [YamlFromProto(j)], {}, []));
  }

  function EditOf(j: Job, spec: Spec): Outgoing {
    Outgoing(ToProto(YamlFromProto(j.(spec := spec))).(version := j.version + 1), 0)
  }

  lemma EditedDiff(j: Job, spec: Spec)
    requires j.id != "" && spec != j.spec && spec.common.name != "" && spec.common.paths != []
    ensures Diff([YamlFromProto(j.(spec := spec))], map[j.id := j], {}) == ([EditOf(j, spec)], {})
  {
    var y := YamlFromProto(j.(spec := spec));
    assert [y][..0] == [];
    var none: (seq<Outgoing>, set<string>) := ([], {});
    assert Diff([y][..0], map[j.id := j], {}) == none;
    assert none.0 + [EditOf(j, spec)] == [EditOf(j, spec)];
  }

  /** The user edits the job and the agent sends it, whatever is queued already. */
  lemma EditIsSent(
    cronOk: string -> bool, before: Trace, t: Table, j: Job, file: seq<YamlJob>, used: set<int>, up: seq<Message>,
    spec: Spec) returns (tr: Trace)
    requires Possible(cronOk, before) && Last(cronOk, before) == WithAgent(t, Synchronised(j, file, used, up))
    requires j.id != "" && spec != j.spec && spec.common.name != "" && spec.common.paths != []
    ensures Possible(cronOk, tr)
    ensures var y := YamlFromProto(j.(spec := spec));
            Last(cronOk, tr) == WithAgent(t, Synchronised(j, [y], used + {0}, up + [Edits([EditOf(j, spec)])]))
  {
    var y, upd := YamlFromProto(j.(spec := spec)), [EditOf(j, spec)];
    EditedDiff(j, spec);
    assert TagsOf([y]) == {0};
    tr := ExtendTo(cronOk, before, UserEdit("a", [y], []), t, Synchronised(j, [y], used + {0}, up));
    assert upd[..0] == [] && CreateTags(upd) == [];
    assert up + [Edits(upd)] + Removals([]) == up + [Edits(upd)];
    tr := ExtendTo(cronOk, tr, SyncNow("a", true, []), t, Synchronised(j, [y], used + {0}, up + [Edits(upd)]));
  }

  /** A history in which a user edits a job twice before the server's reply: the server is
      at the first edit, the second is the next message, and handling it changes nothing,
      so the second edit is gone when the reply rewrites the file. */
  lemma SecondEditHappens(cronOk: string -> bool, spec: Spec, edit: Spec, again: Spec) returns (tr: Trace)
    requires ValidSpec(cronOk, spec) && ValidSpec(cronOk, edit) && ValidSpec(cronOk, again)
    requires edit != spec && again != spec && again != edit
    ensures Possible(cronOk, tr) && "a" in Last(cronOk, tr).clients
    ensures var s := Last(cronOk, tr);
            && "j" in s.table.jobs && s.table.jobs["j"].spec == edit
            && s.clients["a"].up == [Edits([EditOf(FirstJob(spec), again)])]
            && forall id :: HandleSync(cronOk, s.table, "a", s.clients["a"].up[0].jobs, [id]) == s.table
  {
    var j := FirstJob(spec);
    tr := JobIsPushed(cronOk, spec);
    tr := EditIsSent(cronOk, tr, OneJob(spec), j, [YamlFromProto(j)], {}, [], edit);
    var y := YamlFromProto(j.(spec := edit));
    assert [] + [Edits([EditOf(j, edit)])] == [Edits([EditOf(j, edit)])];
    tr := EditIsSent(cronOk, tr, OneJob(spec), j, [y], {} + {0}, [Edits([EditOf(j, edit)])], again);
    tr := FirstEditHandled(cronOk, tr, spec, edit, again);
    forall id
      ensures HandleSync(cronOk, Last(cronOk, tr).table, "a", [EditOf(j, again)], [id]) == Last(cronOk, tr).table
    {
      EditsAreHandled(cronOk, spec, edit, again, id);
    }
  }

  function AfterEdit(edit: Spec): Job {
    Job("j", "a", edit, ByServer, 2)
  }

  lemma EditsAreHandled(cronOk: string -> bool, spec: Spec, edit: Spec, again: Spec, id: string)
    requires ValidSpec(cronOk, edit)
    ensures var t := Save(OneJob(spec), AfterEdit(edit));
            && HandleSync(cronOk, OneJob(spec), "a", [EditOf(FirstJob(spec), edit)], [id]) == t
            && HandleSync(cronOk, t, "a", [EditOf(FirstJob(spec), again)], [id]) == t
  {
    OneEdit(cronOk, OneJob(spec), EditOf(FirstJob(spec), edit), id);
    OneEdit(cronOk, Save(OneJob(spec), AfterEdit(edit)), EditOf(FirstJob(spec), again), id);
  }

  lemma FirstEditHandled(
    cronOk: string -> bool, before: Trace, spec: Spec, edit: Spec, again: Spec) returns (tr: Trace)
    requires ValidSpec(cronOk, edit) && Possible(cronOk, before)
    requires var j := FirstJob(spec);
             var up := [Edits([EditOf(j, edit)])] + [Edits([EditOf(j, again)])];
             Last(cronOk, before)
             == WithAgent(OneJob(spec), Synchronised(j, [YamlFromProto(j.(spec := again))], {} + {0} + {0}, up))
    ensures Possible(cronOk, tr) && "a" in Last(cronOk, tr).clients
    ensures Last(cronOk, tr).table == Save(OneJob(spec), AfterEdit(edit))
    ensures Last(cronOk, tr).clients["a"].up == [Edits([EditOf(FirstJob(spec), again)])]
  {
    EditsAreHandled(cronOk, spec, edit, again, "k");
    var step := ServerReceive("a", ["k"], [AfterEdit(edit)]);
    assert Enabled(cronOk, Last(cronOk, before), step);
    tr := Then(before, step);
  }

  lemma OneEdit(cronOk: string -> bool, t: Table, o: Outgoing, id: string)
    ensures HandleSync(cronOk, t, "a", [o], [id]) == HandleOne(cronOk, t, "a", o.job, id)
  {
    assert [o][..0] == [] && [id][..0] == [];
  }
}
