/** Dispatching runs and file transfers to agents while connections come and go.
    Every step is one database statement or one locked section of the hub. */
module Dispatch {
  import opened Basics

  type ConnId = int

  // ---------- the hub's map (internal/server/hub.go) ----------

  function Registered(conns: map<string, ConnId>, agent: string, c: ConnId): map<string, ConnId> {
    conns[agent := c]
  }

  /** Only the current connection of the agent is taken out. */
  function Unregistered(conns: map<string, ConnId>, agent: string, c: ConnId): map<string, ConnId> {
    if agent in conns && conns[agent] == c then conns - {agent} else conns
  }

  /** What Online and Send look up under the lock. */
  function Lookup(conns: map<string, ConnId>, agent: string): Option<ConnId> {
    if agent in conns then Some(conns[agent]) else None
  }

  /** Registering gives the agent the new connection, whatever it had. */
  lemma RegisteredIsFound(conns: map<string, ConnId>, agent: string, c: ConnId, other: string)
    ensures Lookup(Registered(conns, agent, c), other) == if other == agent then Some(c) else Lookup(conns, other)
  {
  }

  /** Unregistering takes the agent out if the connection is still its current one; the
      late unregistering of a replaced connection changes no lookup. */
  lemma UnregisteredIsGone(conns: map<string, ConnId>, agent: string, c: ConnId, other: string)
    ensures Lookup(Unregistered(conns, agent, c), other)
         == if other == agent && Lookup(conns, agent) == Some(c) then None else Lookup(conns, other)
  {
  }

  class Hub {
    var conns: map<string, ConnId>
    var closed: set<ConnId>
    var queues: map<ConnId, seq<string>>

    constructor ()
      ensures conns == map[] && closed == {} && queues == map[]
    {
      conns, closed, queues := map[], {}, map[];
    }

    method Close(c: ConnId)
      modifies this`closed
      ensures closed == old(closed) + {c}
    {
      closed := closed + {c};
    }

    /** A replaced connection is closed, not unregistered: its own handler does that. */
    method Register(agent: string, c: ConnId)
      modifies this`conns, this`closed
      ensures conns == Registered(old(conns), agent, c)
      ensures closed == old(closed) + if agent in old(conns) then {old(conns)[agent]} else {}
    {
      if agent in conns {
        Close(conns[agent]);
      }
      conns := conns[agent := c];
    }

    method Unregister(agent: string, c: ConnId)
      modifies this`conns, this`closed
      ensures conns == Unregistered(old(conns), agent, c)
      ensures closed == old(closed) + {c}
    {
      if agent in conns && conns[agent] == c {
        conns := conns - {agent};
      }
      Close(c);
    }

    /** Whether the agent has a connection right now. */
    method Online(agent: string) returns (online: bool)
      ensures online <==> Lookup(conns, agent).Some?
    {
      online := agent in conns;
    }

    /** Send queues the message on the connection it finds; `answer` is what the select
        comes to: room in the queue, the connection closed, or a time-out.  What has been
        queued keeps its order, and no other queue changes. */
    method Send(agent: string, message: string, answer: SendAnswer) returns (ok: bool)
      modifies this`queues
      ensures ok <==> Lookup(conns, agent).Some? && answer.HasRoom?
      ensures ok ==> Queue(queues, conns[agent]) == Queue(old(queues), conns[agent]) + [message]
      ensures forall c :: !(ok && c == conns[agent]) ==> Queue(queues, c) == Queue(old(queues), c)
    {
      if agent !in conns {
        return false;
      }
      var c := conns[agent];
      ok := answer.HasRoom?;
      if ok {
        queues := queues[c := (if c in queues then queues[c] else []) + [message]];
      }
    }
  }

  datatype SendAnswer = HasRoom | ConnectionClosed | TimedOut

  function Queue(queues: map<ConnId, seq<string>>, c: ConnId): seq<string> {
    if c in queues then queues[c] else []
  }

  // ---------- state ----------

  datatype ItemKind = Run | Transfer
  datatype Status = Queued | Running | Ended
  datatype Item = Item(kind: ItemKind, agent: string, status: Status)

  /** How far a connection's handler is through its deferred teardown. */
  datatype Teardown = Live | Gone | RunsFailed | AllFailed
  datatype Conn = Conn(agent: string, phase: Teardown)

  /** A goroutine dispatching one item: it has the item in its queued list; it has
      marked or created it running; Send has looked the connection up; Send has
      returned false and the failure is still to be recorded. */
  datatype Stage = Listed | Marked | Found(conn: ConnId) | Undelivered
  datatype Dispatcher = Dispatcher(item: int, stage: Stage)

  /** `sent` records each item put on a connection's send queue. */
  datatype State = State(
    items: map<int, Item>,
    conns: map<ConnId, Conn>,
    hub: map<string, ConnId>,
    work: map<int, Dispatcher>,
    sent: set<(int, ConnId)>)

  /** `ok` says whether the step's statement succeeds; the code carries on either way. */
  datatype Step =
    | CreateRunning(d: int, item: int, kind: ItemKind, agent: string)
    | CreateQueued(item: int, kind: ItemKind, agent: string)
    | PickQueued(d: int, item: int)
    | JobGone(d: int, ok: bool)
    | Mark(d: int, ok: bool)
    | LookUp(d: int)
    | Enqueue(d: int)
    | Refuse(d: int)
    | GiveUp(d: int, ok: bool)
    | Finish(item: int)
    | Register(agent: string, conn: ConnId)
    | Unregister(conn: ConnId)
    | FailRuns(conn: ConnId, ok: bool)
    | FailTransfers(conn: ConnId, ok: bool)

  predicate At(s: State, d: int, stage: Stage) {
    d in s.work && s.work[d].stage == stage && s.work[d].item in s.items
  }

  predicate Enabled(s: State, step: Step) {
    match step
    case CreateRunning(d, i, _, _) => d !in s.work && i !in s.items
    case CreateQueued(i, _, _) => i !in s.items
    case PickQueued(d, i) => d !in s.work && i in s.items && s.items[i].status.Queued?
    case JobGone(d, _) => At(s, d, Listed)
    case Mark(d, _) => At(s, d, Listed)
    case LookUp(d) => At(s, d, Marked)
    case Enqueue(d) => d in s.work && s.work[d].stage.Found?
    case Refuse(d) => d in s.work && s.work[d].stage.Found?
    case GiveUp(d, _) => At(s, d, Undelivered)
    case Finish(i) => i in s.items
    case Register(_, c) => c !in s.conns
    case Unregister(c) => c in s.conns && s.conns[c].phase.Live?
    case FailRuns(c, _) => c in s.conns && s.conns[c].phase.Gone?
    case FailTransfers(c, _) => c in s.conns && s.conns[c].phase.RunsFailed?
  }

  /** UPDATE ... SET status WHERE id = ?, whatever the status was. */
  function SetStatus(s: State, i: int, status: Status): State
    requires i in s.items
  {
    s.(items := s.items[i := s.items[i].(status := status)])
  }

  /** UPDATE ... WHERE agent_id = ? AND status = 'running'. */
  function FailRunning(items: map<int, Item>, agent: string, kind: ItemKind): map<int, Item> {
    map i | i in items ::
      if items[i].agent == agent && items[i].kind == kind && items[i].status.Running?
      then items[i].(status := Ended) else items[i]
  }

  function Apply(s: State, step: Step): State
    requires Enabled(s, step)
  {
    match step
    case CreateRunning(d, i, kind, agent) =>
      s.(items := s.items[i := Item(kind, agent, Running)], work := s.work[d := Dispatcher(i, Marked)])
    case CreateQueued(i, kind, agent) => s.(items := s.items[i := Item(kind, agent, Queued)])
    case PickQueued(d, i) => s.(work := s.work[d := Dispatcher(i, Listed)])
    case JobGone(d, ok) => (if ok then SetStatus(s, s.work[d].item, Ended) else s).(work := s.work - {d})
    case Mark(d, ok) =>
      var i := s.work[d].item;
      (if ok then SetStatus(s, i, Running) else s).(work := s.work[d := Dispatcher(i, Marked)])
    case LookUp(d) =>
      var i := s.work[d].item;
      var c := Lookup(s.hub, s.items[i].agent);
      s.(work := s.work[d := Dispatcher(i, if c.Some? then Found(c.value) else Undelivered)])
    case Enqueue(d) => s.(sent := s.sent + {(s.work[d].item, s.work[d].stage.conn)}, work := s.work - {d})
    case Refuse(d) => s.(work := s.work[d := s.work[d].(stage := Undelivered)])
    case GiveUp(d, ok) => (if ok then SetStatus(s, s.work[d].item, Ended) else s).(work := s.work - {d})
    case Finish(i) => SetStatus(s, i, Ended)
    case Register(agent, c) => s.(conns := s.conns[c := Conn(agent, Live)], hub := Registered(s.hub, agent, c))
    case Unregister(c) =>
      s.(conns := s.conns[c := s.conns[c].(phase := Gone)], hub := Unregistered(s.hub, s.conns[c].agent, c))
    case FailRuns(c, ok) =>
      s.(conns := s.conns[c := s.conns[c].(phase := RunsFailed)],
         items := if ok then FailRunning(s.items, s.conns[c].agent, Run) else s.items)
    case FailTransfers(c, ok) =>
      s.(conns := s.conns[c := s.conns[c].(phase := AllFailed)],
         items := if ok then FailRunning(s.items, s.conns[c].agent, Transfer) else s.items)
  }

  // ---------- invariant ----------

  /** The connection's fail-running statement for this kind is still to come. */
  predicate WillFail(s: State, c: ConnId, kind: ItemKind) {
    c in s.conns && match s.conns[c].phase
      case Live => true
      case Gone => true
      case RunsFailed => kind.Transfer?
      case AllFailed => false
  }

  predicate Working(s: State, d: int, i: int) {
    && d in s.work && s.work[d].item == i && i in s.items
    && match s.work[d].stage
       case Listed => false
       case Marked => true
       case Found(c) => WillFail(s, c, s.items[i].kind)
       case Undelivered => true
  }

  predicate SentVia(s: State, c: ConnId, i: int) {
    (i, c) in s.sent && i in s.items && WillFail(s, c, s.items[i].kind)
  }

  /** Somebody is still responsible for the item. */
  ghost predicate Accounted(s: State, i: int) {
    (exists d :: Working(s, d, i)) || (exists c :: SentVia(s, c, i))
  }

  predicate SameAgent(s: State, c: ConnId, i: int) {
    c in s.conns && i in s.items && s.conns[c].agent == s.items[i].agent
  }

  ghost predicate HubSound(s: State) {
    forall a :: a in s.hub ==> s.hub[a] in s.conns && s.conns[s.hub[a]] == Conn(a, Live)
  }

  ghost predicate Inv(s: State) {
    && HubSound(s)
    && (forall d :: d in s.work ==> s.work[d].item in s.items)
    && (forall d :: d in s.work && s.work[d].stage.Found? ==> SameAgent(s, s.work[d].stage.conn, s.work[d].item))
    && (forall i, c :: (i, c) in s.sent ==> SameAgent(s, c, i))
  }

  predicate Runs(s: State, i: int) {
    i in s.items && s.items[i].status.Running?
  }

  /** A statement that should have ended the running item fails. */
  predicate ClosingFails(s: State, step: Step, i: int) {
    && Runs(s, i)
    && match step
       case GiveUp(d, ok) => !ok && d in s.work && s.work[d].item == i
       case FailRuns(c, ok) => !ok && SameAgent(s, c, i) && s.items[i].kind.Run?
       case FailTransfers(c, ok) => !ok && SameAgent(s, c, i) && s.items[i].kind.Transfer?
       case _ => false
  }

  /** A running item stays somebody's responsibility: the dispatcher that marked it
      hands it to the connection it found, and that connection cannot have run its
      fail-running statement before the mark, since it left the hub first. */
  lemma AccountedKept(s: State, step: Step, i: int)
    requires Inv(s) && Enabled(s, step) && (Runs(s, i) ==> Accounted(s, i) && !ClosingFails(s, step, i))
    requires Runs(Apply(s, step), i)
    ensures Accounted(Apply(s, step), i)
  {
    var t := Apply(s, step);
    if (step.CreateRunning? && step.item == i) || (step.Mark? && step.ok && s.work[step.d].item == i) {
      assert Working(t, step.d, i);
    } else if d :| Working(s, d, i) {
      if step == Enqueue(d) {
        assert SentVia(t, s.work[d].stage.conn, i);
      } else {
        assert Working(t, d, i);
      }
    } else {
      var c :| SentVia(s, c, i);
      assert SentVia(t, c, i);
    }
  }

  lemma HubStaysSound(s: State, step: Step)
    requires HubSound(s) && Enabled(s, step)
    ensures HubSound(Apply(s, step))
  {
  }

  /** The hub holds live connections of the right agents, and what is found or sent is
      found for, or sent to, the item's own agent. */
  lemma StepKeepsInv(s: State, step: Step)
    requires Inv(s) && Enabled(s, step)
    ensures Inv(Apply(s, step))
  {
    HubStaysSound(s, step);
  }

  // ---------- what a step does to an item ----------

  /** The step ends the item: its job is gone, it could not be delivered, it is reported
      finished or cancelled, or it ran on an agent whose connection is torn down. */
  predicate Ends(s: State, step: Step, i: int)
    requires Enabled(s, step) && i in s.items
  {
    match step
    case JobGone(d, ok) => ok && s.work[d].item == i
    case GiveUp(d, ok) => ok && s.work[d].item == i
    case Finish(j) => j == i
    case FailRuns(c, ok) =>
      ok && s.items[i].kind.Run? && s.items[i].status.Running? && s.items[i].agent == s.conns[c].agent
    case FailTransfers(c, ok) =>
      ok && s.items[i].kind.Transfer? && s.items[i].status.Running? && s.items[i].agent == s.conns[c].agent
    case _ => false
  }

  /** The step marks the item running. */
  predicate Starts(s: State, step: Step, i: int)
    requires Enabled(s, step)
  {
    step.Mark? && step.ok && s.work[step.d].item == i
  }

  /** An item keeps its kind and its agent.  It runs after a step exactly when the step
      marks it, or it ran and the step does not end it; it has ended exactly when the step
      ends it, or it had and is not marked again; so what waits in the queue goes on
      waiting when its agent's connection is lost. */
  lemma StatusAfter(s: State, step: Step, i: int)
    requires Enabled(s, step) && i in s.items
    ensures i in Apply(s, step).items
    ensures var was, now := s.items[i], Apply(s, step).items[i];
            && now.kind == was.kind && now.agent == was.agent
            && (now.status.Running? <==> Starts(s, step, i) || (was.status.Running? && !Ends(s, step, i)))
            && (now.status.Ended? <==> Ends(s, step, i) || (was.status.Ended? && !Starts(s, step, i)))
  {
  }

  function Dispatched(s: State, d: int): State
    requires At(s, d, Listed)
  {
    Apply(Apply(s, Mark(d, true)), LookUp(d))
  }

  /** One dispatch without interruption: with the agent online the item runs and is put on
      the agent's connection; with the agent offline it has ended, and nothing is sent. */
  lemma DispatchSends(s: State, d: int)
    requires At(s, d, Listed)
    ensures var u, i := Dispatched(s, d), s.work[d].item;
            match Lookup(s.hub, s.items[i].agent)
            case Some(c) =>
              && Enabled(u, Enqueue(d))
              && Apply(u, Enqueue(d)) == s.(items := s.items[i := s.items[i].(status := Running)],
                                            work := s.work - {d}, sent := s.sent + {(i, c)})
            case None =>
              && Enabled(u, GiveUp(d, true))
              && Apply(u, GiveUp(d, true)) == s.(items := s.items[i := s.items[i].(status := Ended)],
                                                 work := s.work - {d})
  {
    var u, i := Dispatched(s, d), s.work[d].item;
    assert u.items == s.items[i := s.items[i].(status := Running)];
    assert u.work - {d} == s.work - {d};
    assert s.items[i := s.items[i].(status := Running)][i := s.items[i].(status := Ended)]
        == s.items[i := s.items[i].(status := Ended)];
  }

  /** When Send finds a connection but cannot queue the message, or the job is gone, the
      item has ended and the dispatcher is done. */
  lemma UndeliveredEnds(s: State, d: int)
    requires d in s.work && s.work[d].item in s.items
    ensures s.work[d].stage.Found? ==>
              && Enabled(s, Refuse(d)) && Enabled(Apply(s, Refuse(d)), GiveUp(d, true))
              && Apply(Apply(s, Refuse(d)), GiveUp(d, true)) == EndedBy(s, d)
    ensures s.work[d].stage.Listed? ==> Enabled(s, JobGone(d, true)) && Apply(s, JobGone(d, true)) == EndedBy(s, d)
  {
    if s.work[d].stage.Found? {
      var u := Apply(s, Refuse(d));
      assert u.work - {d} == s.work - {d};
    }
  }

  function EndedBy(s: State, d: int): State
    requires d in s.work && s.work[d].item in s.items
  {
    var i := s.work[d].item;
    s.(items := s.items[i := s.items[i].(status := Ended)], work := s.work - {d})
  }

  function TornDown(s: State, c: ConnId): State
    requires c in s.conns && s.conns[c].phase.Live?
  {
    Apply(Apply(Apply(s, Unregister(c)), FailRuns(c, true)), FailTransfers(c, true))
  }

  /** The whole teardown of a connection whose statements work: it is done, it is no longer
      found, what ran on its agent has ended, and every other item and connection is as it
      was. */
  lemma TeardownEnds(s: State, c: ConnId)
    requires c in s.conns && s.conns[c].phase.Live?
    ensures var u, agent := TornDown(s, c), s.conns[c].agent;
            && u.conns == s.conns[c := Conn(agent, AllFailed)] && u.work == s.work && u.sent == s.sent
            && (forall a :: Lookup(u.hub, a) == if Lookup(s.hub, a) == Some(c) && a == agent then None
                                                else Lookup(s.hub, a))
            && u.items.Keys == s.items.Keys
            && forall i :: i in s.items ==>
                 u.items[i] == if s.items[i].agent == agent && s.items[i].status.Running?
                               then s.items[i].(status := Ended) else s.items[i]
  {
    var u, agent := TornDown(s, c), s.conns[c].agent;
    assert u.conns == s.conns[c := Conn(agent, AllFailed)];
  }

  // ---------- every history ----------

  predicate Initial(s: State) {
    s == State(map[], map[], map[], map[], {})
  }

  datatype Trace = First(state: State) | Then(before: Trace, step: Step)

  ghost predicate Possible(tr: Trace)
    decreases tr, 0
  {
    match tr
    case First(s) => Initial(s)
    case Then(before, step) => Possible(before) && Enabled(Last(before), step)
  }

  ghost function Last(tr: Trace): State
    requires Possible(tr)
    decreases tr, 1
  {
    match tr
    case First(s) => s
    case Then(before, step) => Apply(Last(before), step)
  }

  lemma {:induction false} HistoryKeepsInv(tr: Trace)
    requires Possible(tr)
    ensures Inv(Last(tr))
  {
    if tr.Then? {
      HistoryKeepsInv(tr.before);
      StepKeepsInv(Last(tr.before), tr.step);
    }
  }

  /** Some statement that should have ended the item while it ran has failed. */
  ghost predicate ClosingFailed(tr: Trace, i: int)
    requires Possible(tr)
  {
    tr.Then? && (ClosingFails(Last(tr.before), tr.step, i) || ClosingFailed(tr.before, i))
  }

  lemma {:induction false} HistoryAccounts(tr: Trace, i: int)
    requires Possible(tr) && Runs(Last(tr), i)
    ensures Accounted(Last(tr), i) || ClosingFailed(tr, i)
  {
    if tr.Then? && !ClosingFailed(tr, i) {
      HistoryKeepsInv(tr.before);
      if Runs(Last(tr.before), i) {
        HistoryAccounts(tr.before, i);
      }
      AccountedKept(Last(tr.before), tr.step, i);
    }
  }

  /** Under every interleaving of dispatchers and connections, an item marked
      running still has a dispatcher working on it, or was sent on a connection of
      its agent whose fail-running statement is still to come, unless a statement
      that should have ended it has failed. */
  lemma RunningIsAccounted(tr: Trace, i: int)
    requires Possible(tr) && Runs(Last(tr), i)
    ensures var s := Last(tr);
            || (exists d :: d in s.work && s.work[d].item == i && !s.work[d].stage.Listed?)
            || (exists c :: (i, c) in s.sent && c in s.conns && s.conns[c].agent == s.items[i].agent
                         && !s.conns[c].phase.AllFailed? && (s.items[i].kind.Run? ==> !s.conns[c].phase.RunsFailed?))
            || ClosingFailed(tr, i)
  {
    HistoryKeepsInv(tr);
    HistoryAccounts(tr, i);
    var s := Last(tr);
    if d :| Working(s, d, i) {
      assert d in s.work && s.work[d].item == i && !s.work[d].stage.Listed?;
    } else if c :| SentVia(s, c, i) {
      assert SameAgent(s, c, i) && (i, c) in s.sent;
    }
  }

  /** Once every connection of an agent is torn down and no dispatcher is working
      on its items, none of them is left running, save one whose closing statement
      has failed. */
  lemma NothingLeftRunning(tr: Trace, agent: string)
    requires Possible(tr)
    requires forall c :: c in Last(tr).conns && Last(tr).conns[c].agent == agent ==> Last(tr).conns[c].phase.AllFailed?
    requires var s := Last(tr);
             forall d :: d in s.work && !s.work[d].stage.Listed? && s.work[d].item in s.items ==>
               s.items[s.work[d].item].agent != agent
    ensures forall i :: Runs(Last(tr), i) && Last(tr).items[i].agent == agent ==> ClosingFailed(tr, i)
  {
    forall i | Runs(Last(tr), i) && Last(tr).items[i].agent == agent
      ensures ClosingFailed(tr, i)
    {
      RunningIsAccounted(tr, i);
    }
  }

  // ---------- continuations of a history ----------

  predicate Extends(before: Trace, after: Trace) {
    after == before || (after.Then? && Extends(before, after.before))
  }

  lemma {:induction false} ExtendsPossible(before: Trace, after: Trace)
    requires Extends(before, after) && Possible(after)
    ensures Possible(before)
  {
    if after != before {
      ExtendsPossible(before, after.before);
    }
  }

  /** The connection registered last for the agent. */
  function LastRegistered(tr: Trace, agent: string): Option<ConnId> {
    if tr.First? then None
    else if tr.step.Register? && tr.step.agent == agent then Some(tr.step.conn)
    else LastRegistered(tr.before, agent)
  }

  predicate WasRegistered(tr: Trace, c: ConnId) {
    tr.Then? && ((tr.step.Register? && tr.step.conn == c) || WasRegistered(tr.before, c))
  }

  predicate WasUnregistered(tr: Trace, c: ConnId) {
    tr.Then? && (tr.step == Unregister(c) || WasUnregistered(tr.before, c))
  }

  lemma {:induction false} ConnectionsAreRegistered(tr: Trace, c: ConnId)
    requires Possible(tr)
    ensures c in Last(tr).conns <==> WasRegistered(tr, c)
    ensures WasUnregistered(tr, c) ==> WasRegistered(tr, c)
    ensures c in Last(tr).conns ==> (Last(tr).conns[c].phase.Live? <==> !WasUnregistered(tr, c))
  {
    if tr.Then? {
      ConnectionsAreRegistered(tr.before, c);
    }
  }

  /** In every reachable state a lookup finds exactly the connection that was registered
      last for the agent, unless that one has been unregistered since; then it finds none,
      whatever other connections of the agent are still open. */
  lemma {:induction false} LookupIff(tr: Trace, agent: string, c: ConnId)
    requires Possible(tr)
    ensures Lookup(Last(tr).hub, agent) == Some(c) <==>
            LastRegistered(tr, agent) == Some(c) && !WasUnregistered(tr, c)
  {
    if tr.Then? {
      var s := Last(tr.before);
      LookupIff(tr.before, agent, c);
      ConnectionsAreRegistered(tr.before, c);
      match tr.step
      case Register(a, d) => RegisteredIsFound(s.hub, a, d, agent);
      case Unregister(d) =>
        UnregisteredIsGone(s.hub, s.conns[d].agent, d, agent);
        LastIsOfAgent(tr.before, agent);
      case _ =>
    }
  }

  lemma {:induction false} LastIsOfAgent(tr: Trace, agent: string)
    requires Possible(tr)
    ensures var c := LastRegistered(tr, agent);
            c.Some? ==> c.value in Last(tr).conns && Last(tr).conns[c.value].agent == agent
  {
    if tr.Then? {
      LastIsOfAgent(tr.before, agent);
    }
  }

  /** What Send finds is a live connection of that very agent. */
  lemma LookupIsLive(tr: Trace, agent: string)
    requires Possible(tr) && Lookup(Last(tr).hub, agent).Some?
    ensures var c := Lookup(Last(tr).hub, agent).value;
            c in Last(tr).conns && Last(tr).conns[c] == Conn(agent, Live)
  {
    HistoryKeepsInv(tr);
  }

  lemma GoneKept(s: State, step: Step, c: ConnId)
    requires Enabled(s, step) && c in s.conns && !s.conns[c].phase.Live?
    ensures c in Apply(s, step).conns && !Apply(s, step).conns[c].phase.Live?
  {
  }

  lemma {:induction false} GoneStaysGone(before: Trace, after: Trace, c: ConnId)
    requires Extends(before, after) && Possible(before) && Possible(after)
    requires c in Last(before).conns && !Last(before).conns[c].phase.Live?
    ensures c in Last(after).conns && !Last(after).conns[c].phase.Live?
  {
    if after != before {
      ExtendsPossible(before, after.before);
      GoneStaysGone(before, after.before, c);
      GoneKept(Last(after.before), after.step, c);
    }
  }

  /** A connection that has been unregistered is never found again. */
  lemma GoneIsNeverFound(before: Trace, after: Trace, c: ConnId, agent: string)
    requires Extends(before, after) && Possible(before) && Possible(after)
    requires c in Last(before).conns && !Last(before).conns[c].phase.Live?
    ensures Lookup(Last(after).hub, agent) != Some(c)
  {
    GoneStaysGone(before, after, c);
    HistoryKeepsInv(after);
  }

  // ---------- when an ended item stays ended ----------

  /** A dispatcher took the item from its queued list and has not marked it yet. */
  ghost predicate StillListed(s: State, i: int) {
    exists d :: d in s.work && s.work[d] == Dispatcher(i, Listed)
  }

  predicate HasEnded(s: State, i: int) {
    i in s.items && s.items[i].status.Ended?
  }

  lemma EndedKept(s: State, step: Step, i: int)
    requires Enabled(s, step) && HasEnded(s, i) && !StillListed(s, i)
    ensures HasEnded(Apply(s, step), i) && !StillListed(Apply(s, step), i)
  {
  }

  lemma {:induction false} EndedStaysEnded(before: Trace, after: Trace, i: int)
    requires Extends(before, after) && Possible(before) && Possible(after)
    requires HasEnded(Last(before), i) && !StillListed(Last(before), i)
    ensures HasEnded(Last(after), i) && !StillListed(Last(after), i)
  {
    if after != before {
      ExtendsPossible(before, after.before);
      EndedStaysEnded(before, after.before, i);
      EndedKept(Last(after.before), after.step, i);
    }
  }

  ghost predicate RunsAgain(before: Trace, after: Trace, i: int) {
    Extends(before, after) && Possible(after) && Runs(Last(after), i)
  }

  /** In every reachable state: an item that has ended can become running again if and
      only if some dispatcher still has it in its queued list.  MarkRunStarted is
      unguarded, and nothing else revives an item. */
  lemma EndedIsFinalIff(tr: Trace, i: int)
    requires Possible(tr) && HasEnded(Last(tr), i)
    ensures (exists after :: RunsAgain(tr, after, i)) <==> StillListed(Last(tr), i)
  {
    var s := Last(tr);
    if d :| d in s.work && s.work[d] == Dispatcher(i, Listed) {
      var after := Then(tr, Mark(d, true));
      assert At(s, d, Listed);
      assert Extends(tr, tr);
      assert RunsAgain(tr, after, i);
    } else if after :| RunsAgain(tr, after, i) {
      EndedStaysEnded(tr, after, i);
    }
  }

  /** Such a state is reached: a run cancelled while a reconnect goroutine holds it
      comes back as running. */
  lemma EndedIsNotFinal(kind: ItemKind, agent: string) returns (tr: Trace)
    ensures Possible(tr) && HasEnded(Last(tr), 1) && StillListed(Last(tr), 1)
  {
    var t0 := First(State(map[], map[], map[], map[], {}));
    var t1 := Then(t0, CreateQueued(1, kind, agent));
    var t2 := Then(t1, PickQueued(0, 1));
    tr := Then(t2, Finish(1));
    assert Possible(t0);
    assert Possible(t1);
    assert Possible(t2);
    assert Possible(tr);
    assert At(Last(tr), 0, Listed);
  }
}
