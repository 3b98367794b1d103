/**
 Agent registration and status changes (s0/agent-registry-service/internal/repository/postgres/repository.go and
 s0/agent-registry-service/internal/domain/agent.go): transactions over the agents, admission envelope, status history and
 outbox tables.
 A transaction that fails at any statement is rolled back.
 */
module AgentRegistry {
  import opened Wrappers

  datatype Status = Pending | Active | Suspended | Deregistered | Unrecognised(name: string)

  datatype HistoryRow = HistoryRow(agentId: string, previous: Option<Status>, next: Status, reason: string, changedBy: string)

  datatype EventType = AgentRegistered | AgentStatusChanged | AgentDeregistered | OtherEvent(name: string)

  datatype OutboxRow = OutboxRow(agentId: string, eventType: EventType)

  /** What an agent's row holds besides its id and status; `details` stands for the columns nothing else depends on. */
  datatype Profile = Profile(agentType: string, ownerId: string, externalId: string, details: string)

  /** What a registration writes, as the registry passes it on. */
  datatype Registration = Registration(profile: Profile, status: Status, envelope: Option<Envelope>, eventType: EventType)

  datatype Envelope = Envelope(id: string, terms: string)

  /** `agents` is the status column of the agents table, `profiles` its other columns; envelopes go by agent id. */
  datatype Tables = Tables(
    agents: map<string, Status>,
    profiles: map<string, Profile>,
    envelopes: map<string, Envelope>,
    history: seq<HistoryRow>,
    outbox: seq<OutboxRow>)

  const EMPTY := Tables(map[], map[], map[], [], [])

  datatype Error = NotFound | AlreadyExists | FailedPrecondition | DatabaseError

  /** `CanTransition`: staying is always allowed; otherwise the table decides, and it has no way out of DEREGISTERED. */
  predicate CanTransition(current: Status, next: Status) {
    || current == next
    || (current == Pending && next == Active)
    || (current == Active && (next == Suspended || next == Deregistered))
    || (current == Suspended && (next == Active || next == Deregistered))
  }

  function EventFor(next: Status): EventType {
    if next == Deregistered then AgentDeregistered else AgentStatusChanged
  }

  /******* Transactions *******/

  datatype Action =
    | Register(agentId: string, profile: Profile, envelope: Option<Envelope>, fails: bool)
    | Update(agentId: string, next: Status, reason: string, changedBy: string, fails: bool)

  datatype Committed = Committed(tables: Tables, result: Result<Status, Error>)

  /** The unique constraint on external and owner id; an empty external id is stored as NULL and never clashes. */
  predicate Clashes(p: Profile, q: Profile) {
    p.externalId != "" && p.externalId == q.externalId && p.ownerId == q.ownerId
  }

  predicate Taken(s: Tables, id: string, profile: Profile) {
    id in s.agents || exists x :: x in s.profiles && Clashes(s.profiles[x], profile)
  }

  /** The primary key of the envelope table. */
  predicate EnvelopeTaken(s: Tables, envelope: Option<Envelope>) {
    envelope.Some? && exists x :: x in s.envelopes && s.envelopes[x].id == envelope.value.id
  }

  function Registered(s: Tables, id: string, r: Registration): Tables {
    Tables(s.agents[id := r.status], s.profiles[id := r.profile],
           if r.envelope.Some? then s.envelopes[id := r.envelope.value] else s.envelopes,
           s.history + [HistoryRow(id, None, r.status, "initial registration", "system")],
           s.outbox + [OutboxRow(id, r.eventType)])
  }

  /** A status outside the table's check constraint fails before any other constraint is looked at. */
  function DoRegister(s: Tables, id: string, r: Registration, fails: bool): Committed {
    if r.status.Unrecognised? then Committed(s, Failure(DatabaseError))
    else if Taken(s, id, r.profile) then Committed(s, Failure(AlreadyExists))
    else if fails || EnvelopeTaken(s, r.envelope) then Committed(s, Failure(DatabaseError))
    else Committed(Registered(s, id, r), Success(r.status))
  }

  /** What `RegisterWithAdmission` passes: a PENDING agent and its registration event. */
  function Initial(profile: Profile, envelope: Option<Envelope>): Registration {
    Registration(profile, Pending, envelope, AgentRegistered)
  }

  function DoUpdate(s: Tables, id: string, next: Status, reason: string, changedBy: string, fails: bool): Committed {
    if id !in s.agents then Committed(s, Failure(NotFound))
    else if !CanTransition(s.agents[id], next) then Committed(s, Failure(FailedPrecondition))
    else if fails then Committed(s, Failure(DatabaseError))
    else if s.agents[id] == next then Committed(s, Success(next))
    else
      Committed(s.(agents := s.agents[id := next],
                   history := s.history + [HistoryRow(id, Some(s.agents[id]), next, reason, changedBy)],
                   outbox := s.outbox + [OutboxRow(id, EventFor(next))]),
                Success(next))
  }

  function Step(s: Tables, a: Action): Tables {
    match a
    case Register(id, profile, envelope, fails) => DoRegister(s, id, Initial(profile, envelope), fails).tables
    case Update(id, next, reason, changedBy, fails) => DoUpdate(s, id, next, reason, changedBy, fails).tables
  }

  function Exec(run: seq<Action>): Tables {
    if run == [] then EMPTY else Step(Exec(run[..|run| - 1]), run[|run| - 1])
  }

  /******* One agent's history *******/

  function RowsOf(history: seq<HistoryRow>, id: string): seq<HistoryRow> {
    if history == [] then []
    else
      var last := history[|history| - 1];
      RowsOf(history[..|history| - 1], id) + if last.agentId == id then [last] else []
  }

  function EventsOf(outbox: seq<OutboxRow>, id: string): seq<EventType> {
    if outbox == [] then []
    else
      var last := outbox[|outbox| - 1];
      EventsOf(outbox[..|outbox| - 1], id) + if last.agentId == id then [last.eventType] else []
  }

  /** The rows start with the registration and link allowed, proper transitions up to `status`. */
  ghost predicate PathTo(rows: seq<HistoryRow>, status: Status) {
    rows != [] &&
    var last := rows[|rows| - 1];
    && last.next == status
    && if |rows| == 1 then last.previous == None && status == Pending
       else && last.previous.Some? && last.previous.value != status && CanTransition(last.previous.value, status)
            && PathTo(rows[..|rows| - 1], last.previous.value)
  }

  function EventOfRow(row: HistoryRow): EventType {
    if row.previous.None? then AgentRegistered else EventFor(row.next)
  }

  /** One event per row, of the row's kind. */
  ghost predicate EventsMatch(rows: seq<HistoryRow>, events: seq<EventType>) {
    |rows| == |events| && forall i :: 0 <= i < |rows| ==> events[i] == EventOfRow(rows[i])
  }

  ghost predicate Consistent(s: Tables, id: string) {
    && (id in s.agents ==> PathTo(RowsOf(s.history, id), s.agents[id]))
    && (id !in s.agents ==> RowsOf(s.history, id) == [])
    && EventsMatch(RowsOf(s.history, id), EventsOf(s.outbox, id))
  }

  lemma RowsAppend(history: seq<HistoryRow>, row: HistoryRow, id: string)
    ensures RowsOf(history + [row], id) == if row.agentId == id then RowsOf(history, id) + [row] else RowsOf(history, id)
  {
    assert (history + [row])[..|history + [row]| - 1] == history;
  }

  lemma EventsAppend(outbox: seq<OutboxRow>, row: OutboxRow, id: string)
    ensures EventsOf(outbox + [row], id) == if row.agentId == id then EventsOf(outbox, id) + [row.eventType] else EventsOf(outbox, id)
  {
    assert (outbox + [row])[..|outbox + [row]| - 1] == outbox;
  }

  lemma PathExtends(rows: seq<HistoryRow>, row: HistoryRow)
    requires if row.previous.None? then rows == [] && row.next == Pending
             else && PathTo(rows, row.previous.value) && row.previous.value != row.next
                  && CanTransition(row.previous.value, row.next)
    ensures PathTo(rows + [row], row.next)
  {
    assert (rows + [row])[..|rows + [row]| - 1] == rows;
  }

  /** A transaction that appends one matching row and event for its agent keeps every agent consistent. */
  lemma AppendConsistent(s: Tables, row: HistoryRow, id: string, s': Tables)
    requires Consistent(s, id)
    requires row.previous == (if row.agentId in s.agents then Some(s.agents[row.agentId]) else None)
    requires if row.previous.None? then row.next == Pending
             else row.previous.value != row.next && CanTransition(row.previous.value, row.next)
    requires s'.agents == s.agents[row.agentId := row.next] && s'.history == s.history + [row]
    requires s'.outbox == s.outbox + [OutboxRow(row.agentId, EventOfRow(row))]
    ensures Consistent(s', id)
  {
    RowsAppend(s.history, row, id);
    EventsAppend(s.outbox, OutboxRow(row.agentId, EventOfRow(row)), id);
    if row.agentId == id {
      PathExtends(RowsOf(s.history, id), row);
    }
  }

  /**
   After every run, each agent's history is a linked path of allowed transitions from the initial PENDING row to its
   stored status, with one outbox event per row.
   */
  lemma {:induction false} RunConsistent(run: seq<Action>, id: string)
    ensures Consistent(Exec(run), id)
  {
    if run != [] {
      var s, a := Exec(run[..|run| - 1]), run[|run| - 1];
      RunConsistent(run[..|run| - 1], id);
      match a
      case Register(x, profile, envelope, fails) =>
        if DoRegister(s, x, Initial(profile, envelope), fails).result.Success? {
          AppendConsistent(s, HistoryRow(x, None, Pending, "initial registration", "system"), id, Step(s, a));
        }
      case Update(x, next, reason, changedBy, fails) =>
        if x in s.agents && CanTransition(s.agents[x], next) && !fails && s.agents[x] != next {
          AppendConsistent(s, HistoryRow(x, Some(s.agents[x]), next, reason, changedBy), id, Step(s, a));
        }
    }
  }

  lemma {:induction false} DeregisteredOnlyLast(rows: seq<HistoryRow>, status: Status, i: nat)
    requires PathTo(rows, status) && i < |rows| && rows[i].next == Deregistered
    ensures i == |rows| - 1 && status == Deregistered
  {
    if i < |rows| - 1 {
      DeregisteredOnlyLast(rows[..|rows| - 1], rows[|rows| - 1].previous.value, i);
    }
  }

  /** DEREGISTERED appears at most once in an agent's history, as its last row, and only if it is the stored status. */
  lemma DeregisteredIsFinal(run: seq<Action>, id: string, i: nat)
    requires i < |RowsOf(Exec(run).history, id)| && RowsOf(Exec(run).history, id)[i].next == Deregistered
    ensures id in Exec(run).agents && Exec(run).agents[id] == Deregistered && i == |RowsOf(Exec(run).history, id)| - 1
  {
    RunConsistent(run, id);
    DeregisteredOnlyLast(RowsOf(Exec(run).history, id), Exec(run).agents[id], i);
  }

  lemma {:induction false} PathShape(rows: seq<HistoryRow>, status: Status, i: nat)
    requires PathTo(rows, status) && i < |rows|
    ensures rows[i].next == Pending <==> i == 0
    ensures i == 1 ==> rows[i].next == Active
    ensures !rows[i].next.Unrecognised?
  {
    if |rows| > 1 {
      var init, previous := rows[..|rows| - 1], rows[|rows| - 1].previous.value;
      if i < |rows| - 1 {
        PathShape(init, previous, i);
      } else {
        PathShape(init, previous, i - 1);
        assert init[i - 1].next == previous;
      }
    }
  }

  /** PENDING is only ever the first status, ACTIVE always the second, and no other text is ever stored as a status. */
  lemma HistoryShape(run: seq<Action>, id: string, i: nat)
    requires i < |RowsOf(Exec(run).history, id)|
    ensures var rows := RowsOf(Exec(run).history, id);
      && (rows[i].next == Pending <==> i == 0)
      && (i == 1 ==> rows[i].next == Active)
      && !rows[i].next.Unrecognised?
  {
    RunConsistent(run, id);
    PathShape(RowsOf(Exec(run).history, id), Exec(run).agents[id], i);
  }

  /******* What each transaction does *******/

  /** The five ways on from one status to another. */
  ghost predicate WayOn(current: Status, next: Status) {
    (current, next) in {(Pending, Active), (Active, Suspended), (Active, Deregistered), (Suspended, Active), (Suspended, Deregistered)}
  }

  /** An update succeeds exactly along one of the five ways, or in staying; and then this is all it changes. */
  lemma UpdateExact(s: Tables, id: string, next: Status, reason: string, changedBy: string, fails: bool)
    ensures var d := DoUpdate(s, id, next, reason, changedBy, fails);
      && (d.result.Success? <==> id in s.agents && !fails && (s.agents[id] == next || WayOn(s.agents[id], next)))
      && (id !in s.agents ==> d.result == Failure(NotFound))
      && (id in s.agents && s.agents[id] != next && !WayOn(s.agents[id], next) ==> d.result == Failure(FailedPrecondition))
      && (d.result.Failure? || s.agents[id] == next ==> d.tables == s)
      && (d.result.Success? && s.agents[id] != next ==>
            && d.tables.agents == s.agents[id := next] && d.tables.profiles == s.profiles && d.tables.envelopes == s.envelopes
            && d.tables.history == s.history + [HistoryRow(id, Some(s.agents[id]), next, reason, changedBy)]
            && d.tables.outbox == s.outbox + [OutboxRow(id, if next == Deregistered then AgentDeregistered else AgentStatusChanged)])
  {}

  /** A registration succeeds exactly with a known status and no clash of agent, external or envelope ids. */
  lemma RegisterExact(s: Tables, id: string, r: Registration, fails: bool)
    ensures var d := DoRegister(s, id, r, fails);
      && (d.result.Success? <==>
            && !fails && r.status in {Pending, Active, Suspended, Deregistered} && id !in s.agents
            && (r.profile.externalId != "" ==>
                  forall x :: x in s.profiles ==>
                    s.profiles[x].externalId != r.profile.externalId || s.profiles[x].ownerId != r.profile.ownerId)
            && (r.envelope.Some? ==> forall x :: x in s.envelopes ==> s.envelopes[x].id != r.envelope.value.id))
      && (d.result.Failure? ==> d.tables == s)
      && (d.result.Success? ==>
            && d.result.value == r.status && d.tables.agents == s.agents[id := r.status] && d.tables.profiles == s.profiles[id := r.profile]
            && d.tables.envelopes == (if r.envelope.Some? then s.envelopes[id := r.envelope.value] else s.envelopes)
            && d.tables.history == s.history + [HistoryRow(id, None, r.status, "initial registration", "system")]
            && d.tables.outbox == s.outbox + [OutboxRow(id, r.eventType)])
  {
    assert !r.status.Unrecognised? <==> r.status in {Pending, Active, Suspended, Deregistered};
  }

  /** A clash of the external id with another agent of the owner, or of the agent id itself, is what `AlreadyExists` means. */
  lemma AlreadyExistsExact(s: Tables, id: string, r: Registration, fails: bool)
    ensures DoRegister(s, id, r, fails).result == Failure(AlreadyExists) <==>
      && r.status in {Pending, Active, Suspended, Deregistered}
      && (id in s.agents
          || (r.profile.externalId != "" && exists x :: x in s.profiles && s.profiles[x].externalId == r.profile.externalId
                                                        && s.profiles[x].ownerId == r.profile.ownerId))
  {
    assert !r.status.Unrecognised? <==> r.status in {Pending, Active, Suspended, Deregistered};
  }

  /******* Registration data *******/

  /** No two agents share an external id of one owner. */
  ghost predicate NoClash(profiles: map<string, Profile>) {
    forall x, y :: x in profiles && y in profiles && x != y ==> !Clashes(profiles[x], profiles[y])
  }

  ghost predicate EnvelopesDistinct(envelopes: map<string, Envelope>) {
    forall x, y :: x in envelopes && y in envelopes && x != y ==> envelopes[x].id != envelopes[y].id
  }

  /** Every agent has one profile, envelopes belong to agents, and both tables keep their unique constraints. */
  ghost predicate ProfilesUnique(s: Tables) {
    && s.profiles.Keys == s.agents.Keys && s.envelopes.Keys <= s.agents.Keys
    && NoClash(s.profiles) && EnvelopesDistinct(s.envelopes)
  }

  lemma AddProfile(profiles: map<string, Profile>, id: string, profile: Profile)
    requires NoClash(profiles) && forall x :: x in profiles ==> !Clashes(profiles[x], profile)
    ensures NoClash(profiles[id := profile])
  {}

  lemma AddEnvelope(envelopes: map<string, Envelope>, id: string, envelope: Envelope)
    requires EnvelopesDistinct(envelopes) && forall x :: x in envelopes ==> envelopes[x].id != envelope.id
    ensures EnvelopesDistinct(envelopes[id := envelope])
  {}

  lemma RegisterUnique(s: Tables, id: string, r: Registration)
    requires ProfilesUnique(s) && !Taken(s, id, r.profile) && !EnvelopeTaken(s, r.envelope)
    ensures ProfilesUnique(Registered(s, id, r))
  {
    AddProfile(s.profiles, id, r.profile);
    if r.envelope.Some? {
      AddEnvelope(s.envelopes, id, r.envelope.value);
    }
  }

  lemma {:induction false} RunUnique(run: seq<Action>)
    ensures ProfilesUnique(Exec(run))
  {
    if run != [] {
      var s, a := Exec(run[..|run| - 1]), run[|run| - 1];
      RunUnique(run[..|run| - 1]);
      match a
      case Register(id, profile, envelope, fails) =>
        if DoRegister(s, id, Initial(profile, envelope), fails).result.Success? {
          RegisterUnique(s, id, Initial(profile, envelope));
        }
      case Update(_, _, _, _, _) =>
    }
  }

  function EnvelopeOf(s: Tables, id: string): Option<Envelope> {
    if id in s.envelopes then Some(s.envelopes[id]) else None
  }

  lemma StepKeepsData(s: Tables, a: Action, id: string)
    requires id in s.agents && id in s.profiles
    ensures var s' := Step(s, a);
      && id in s'.agents && EnvelopeOf(s', id) == EnvelopeOf(s, id)
      && id in s'.profiles && s'.profiles[id] == s.profiles[id]
  {}

  /** Once an agent is registered, neither its registration data nor its admission envelope, present or absent, ever changes. */
  lemma {:induction false} EnvelopeImmutable(run: seq<Action>, more: seq<Action>, id: string)
    requires id in Exec(run).agents
    ensures var s, s' := Exec(run), Exec(run + more);
      && id in s'.agents && EnvelopeOf(s', id) == EnvelopeOf(s, id)
      && id in s.profiles && id in s'.profiles && s'.profiles[id] == s.profiles[id]
  {
    RunUnique(run);
    if more == [] {
      assert run + more == run;
    } else {
      var init, a := more[..|more| - 1], more[|more| - 1];
      EnvelopeImmutable(run, init, id);
      LastStep(run, init, a);
      assert init + [a] == more;
      StepKeepsData(Exec(run + init), a, id);
    }
  }

  lemma LastStep(run: seq<Action>, init: seq<Action>, a: Action)
    ensures Exec(run + (init + [a])) == Step(Exec(run + init), a)
  {
    var all := run + (init + [a]);
    assert all[..|all| - 1] == run + init;
  }

  /******* The repository object *******/

  class Repository {
    var agents: map<string, Status>
    var profiles: map<string, Profile>
    var envelopes: map<string, Envelope>
    var history: seq<HistoryRow>
    var outbox: seq<OutboxRow>

    function Contents(): Tables
      reads this
    {
      Tables(agents, profiles, envelopes, history, outbox)
    }

    constructor ()
      ensures Contents() == EMPTY
    {
      agents, profiles, envelopes, history, outbox := map[], map[], map[], [], [];
    }

    /** The transaction works on copies of the tables; `failAt` numbers the statement that fails, if any. */
    method UpdateAgentStatus(id: string, next: Status, reason: string, changedBy: string, failAt: nat)
      returns (r: Result<Status, Error>, previous: Option<Status>)
      modifies this
      ensures Committed(Contents(), r) == DoUpdate(old(Contents()), id, next, reason, changedBy, Reached(old(Contents()), id, next, failAt))
      ensures previous == if id in old(agents) then Some(old(agents)[id]) else None
    {
      var txAgents, txHistory, txOutbox := agents, history, outbox;
      if id !in txAgents {
        return Failure(NotFound), None;
      }
      var prev := txAgents[id];
      previous := Some(prev);
      if !CanTransition(prev, next) {
        return Failure(FailedPrecondition), previous;
      }
      if prev != next {
        if failAt == 1 {
          return Failure(DatabaseError), previous;
        }
        txAgents := txAgents[id := next];
        if failAt == 2 {
          return Failure(DatabaseError), previous;
        }
        txHistory := txHistory + [HistoryRow(id, Some(prev), next, reason, changedBy)];
        var eventType := AgentStatusChanged;
        if next == Deregistered {
          eventType := AgentDeregistered;
        }
        if failAt == 3 {
          return Failure(DatabaseError), previous;
        }
        txOutbox := txOutbox + [OutboxRow(id, eventType)];
      }
      if failAt == 4 {
        return Failure(DatabaseError), previous;
      }
      agents, history, outbox := txAgents, txHistory, txOutbox;
      r := Success(next);
    }

    /** As above; the second statement is the envelope's and is skipped when there is none. */
    method RegisterAgentWithOutbox(id: string, a: Registration, failAt: nat) returns (r: Result<Status, Error>)
      modifies this
      ensures Committed(Contents(), r) ==
        DoRegister(old(Contents()), id, a, failAt in {1, 3, 4, 5} || (failAt == 2 && a.envelope.Some?))
    {
      var txAgents, txProfiles, txEnvelopes, txHistory, txOutbox := agents, profiles, envelopes, history, outbox;
      if a.status.Unrecognised? {
        return Failure(DatabaseError);
      }
      if Taken(Contents(), id, a.profile) {
        return Failure(AlreadyExists);
      }
      if failAt == 1 {
        return Failure(DatabaseError);
      }
      txAgents, txProfiles := txAgents[id := a.status], txProfiles[id := a.profile];
      if a.envelope.Some? {
        if failAt == 2 || EnvelopeTaken(Contents(), a.envelope) {
          return Failure(DatabaseError);
        }
        txEnvelopes := txEnvelopes[id := a.envelope.value];
      }
      if failAt == 3 {
        return Failure(DatabaseError);
      }
      txHistory := txHistory + [HistoryRow(id, None, a.status, "initial registration", "system")];
      if failAt == 4 {
        return Failure(DatabaseError);
      }
      txOutbox := txOutbox + [OutboxRow(id, a.eventType)];
      if failAt == 5 {
        return Failure(DatabaseError);
      }
      agents, profiles, envelopes, history, outbox := txAgents, txProfiles, txEnvelopes, txHistory, txOutbox;
      r := Success(a.status);
    }
  }

  /** Does the update get as far as the failing statement? Without a change of status only the commit can fail. */
  predicate Reached(s: Tables, id: string, next: Status, failAt: nat) {
    failAt == 4 || (1 <= failAt <= 3 && id in s.agents && s.agents[id] != next)
  }
}
