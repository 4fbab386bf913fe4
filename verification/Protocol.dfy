/**
 Confirm, then execute: any number of calls to write tools, interleaved at every `await`, over the SQL store.

 One step is one atomic stretch: an SQL statement takes effect, or the code between two awaits runs. The world
 is free to change between steps, so a tool's plan is whatever its resolution step says it is.
*/
module Protocol {
  import opened Texts
  import opened Json
  import opened Hashing
  import opened Confirmation
  import opened Plans

  const MCP: Text := [0x6D, 0x63, 0x70, 0x3A]  // mcp:

  datatype Refusal = NoConfirmationService | NotAString | Unconfirmed(reason: Reason) | Interrupted

  datatype Outcome = NothingToDo | Shown(token: Text) | Refused(refusal: Refusal) | Applied

  /** A verification under way. `at` is the clock sample taken before its first statement. */
  datatype Job = Job(request: Request, hash: Digest, id: Text, token: Text, at: int)

  /** Where a call waits. */
  datatype Phase =
    | Planning
    | Inserting(request: Request, row: Row, token: Text)
    | Updating(job: Job)
    | Selecting(job: Job)
    | Resuming(job: Job, found: Option<Row>)
    | Finished(outcome: Outcome)

  /** `token` is the `confirmationToken` argument and `presents` the id it names, if it names one. */
  datatype Call = Call(tool: Text, arguments: Json, token: Json, presents: Option<Text>, subject: Text, phase: Phase)

  datatype Event =
    | DryRun(request: Request, row: Row, token: Text)
    | Execute(call: nat, job: Job, subject: Text)

  /**
   `seen` are the ids drawn or presented so far, `first` the first call whose UPDATE ran under an id, and `log`
   the dry runs shown and the executions begun, in order. None of the three is read by the code.
  */
  datatype State = State(
    clock: int, configured: bool, rows: Rows, calls: map<nat, Call>,
    seen: set<Text>, first: map<Text, nat>, log: seq<Event>)

  datatype Step =
    | Tick(ms: nat)
    | Begin(c: nat, tool: Text, input: seq<Member>, subject: Text)
    | Planned(c: nat, plan: ToolPlan, id: Text, secret: Text)
    | InsertRow(c: nat)
    | UpdateRow(c: nat)
    | SelectRow(c: nat)
    | Resume(c: nat)
    | Interrupt(c: nat)
    | Expire(before: int)

  /** The confirmation id a call presents, if it presents one at all. */
  function Presents(token: Json): Option<Text>
  {
    match token
    case String(text) => IdOf(text)
    case _ => None
  }

  function NewCall(tool: Text, input: seq<Member>, subject: Text): Call
  {
    var token := Get(input, CONFIRMATION_TOKEN);
    Call(tool, Object(Without(input, CONFIRMATION_TOKEN)), token, Presents(token), subject, Planning)
  }

  /** The id whose INSERT this call has sent and not seen land. */
  function Inserts(call: Call): Option<Text>
  {
    if call.phase.Inserting? then Some(call.phase.row.id) else None
  }

  function JobOf(call: Call): Option<Job>
  {
    match call.phase
    case Updating(job) => Some(job)
    case Selecting(job) => Some(job)
    case Resuming(job, _) => Some(job)
    case _ => None
  }

  ghost predicate Pending(s: State, id: Text)
  {
    exists d :: d in s.calls && Inserts(s.calls[d]) == Some(id)
  }

  /**
   The two assumptions on ids: a drawn id is new, to the store and to every caller; and an id is presented only
   once its row exists, which is what its caller has waited for.
  */
  ghost predicate Enabled(s: State, step: Step)
  {
    match step
    case Begin(c, tool, input, subject) =>
      && c !in s.calls
      && Plain(Object(input))
      && var presents := NewCall(tool, input, subject).presents;
         presents.Some? ==> !Pending(s, presents.value)
    case Planned(c, plan, id, secret) =>
      c in s.calls && s.calls[c].phase.Planning? && PlainPlan(plan) && Minted(id, secret) && id !in s.seen
    case _ => CanProgress(s, step)
  }

  predicate CanProgress(s: State, step: Step)
  {
    match step
    case Tick(_) => true
    case Begin(_, _, _, _) => false
    case Planned(_, _, _, _) => false
    case InsertRow(c) => c in s.calls && s.calls[c].phase.Inserting?
    case UpdateRow(c) => c in s.calls && s.calls[c].phase.Updating?
    case SelectRow(c) => c in s.calls && s.calls[c].phase.Selecting?
    case Resume(c) => c in s.calls && s.calls[c].phase.Resuming?
    case Interrupt(c) => c in s.calls && !s.calls[c].phase.Finished?
    case Expire(_) => true
  }

  /** What `runWrite` does between the plan's resolution and its next await. */
  function AfterPlan(s: State, call: Call, request: Request, hash: Digest, id: Text, secret: Text): Phase
  {
    match call.token
    case Undefined =>
      if request.plan.changes == [] then Finished(NothingToDo)
      else if !s.configured then Finished(Refused(NoConfirmationService))
      else
        var row := IssuedRow(MCP + call.tool, hash, call.subject, id, secret, s.clock);
        Inserting(request, row, TokenText(id, secret))
    case String(text) =>
      if !s.configured then Finished(Refused(NoConfirmationService))
      else if call.presents.None? then Finished(Refused(Unconfirmed(Malformed)))
      else Updating(Job(request, hash, call.presents.value, text, s.clock))
    case _ => Finished(Refused(NotAString))
  }

  function Goto(s: State, c: nat, phase: Phase): State
    requires c in s.calls
  {
    s.(calls := s.calls[c := s.calls[c].(phase := phase)])
  }

  function Join(s: State, c: nat, call: Call): State
  {
    s.(calls := s.calls[c := call], seen := if call.presents.Some? then s.seen + {call.presents.value} else s.seen)
  }

  function Settle(s: State, c: nat, phase: Phase, id: Text): State
    requires c in s.calls
  {
    Goto(s, c, phase).(seen := if phase.Inserting? then s.seen + {id} else s.seen)
  }

  function Conclude(s: State, c: nat, job: Job, verdict: Verdict): State
    requires c in s.calls
  {
    match verdict
    case Rejected(reason) => Goto(s, c, Finished(Refused(Unconfirmed(reason))))
    case Accepted(_) => Goto(s, c, Finished(Applied)).(log := s.log + [Execute(c, job, s.calls[c].subject)])
  }

  function Next(s: State, step: Step): State
    requires Enabled(s, step)
  {
    match step
    case Begin(c, tool, input, subject) => Join(s, c, NewCall(tool, input, subject))
    case Planned(c, plan, id, secret) =>
      var request := Request(s.calls[c].tool, s.calls[c].arguments, plan);
      Settle(s, c, AfterPlan(s, s.calls[c], request, DiffHash(request), id, secret), id)
    case _ => Progress(s, step)
  }

  /** Every step but a call's arrival and the resolution of its plan. */
  function Progress(s: State, step: Step): State
    requires CanProgress(s, step)
  {
    match step
    case Tick(ms) => s.(clock := s.clock + ms)
    case InsertRow(c) =>
      var p := s.calls[c].phase;
      Goto(s, c, Finished(Shown(p.token))).(
        rows := s.rows[p.row.id := p.row], log := s.log + [DryRun(p.request, p.row, p.token)])
    case UpdateRow(c) =>
      var job := s.calls[c].phase.job;
      var (rows, won) := Update(s.rows, job.id, job.at);
      Goto(s, c, if won.Some? then Resuming(job, won) else Selecting(job)).(
        rows := rows, first := if job.id in s.first then s.first else s.first[job.id := c])
    case SelectRow(c) =>
      var job := s.calls[c].phase.job;
      Goto(s, c, Resuming(job, Find(s.rows, job.id)))
    case Resume(c) =>
      var call := s.calls[c];
      var job := call.phase.job;
      Conclude(s, c, job, Judge(call.phase.found, job.token, job.hash, call.subject, job.at))
    case Interrupt(c) => Goto(s, c, Finished(Refused(Interrupted)))
    case Expire(before) => s.(rows := DeleteExpired(s.rows, before))
  }

  function Start(clock: int, configured: bool): State
  {
    State(clock, configured, map[], map[], {}, map[], [])
  }

  ghost predicate Legal(s: State, steps: seq<Step>)
    decreases |steps|
  {
    steps == [] || (Enabled(s, steps[0]) && Legal(Next(s, steps[0]), steps[1..]))
  }

  ghost function Run(s: State, steps: seq<Step>): State
    requires Legal(s, steps)
    decreases |steps|
  {
    if steps == [] then s else Run(Next(s, steps[0]), steps[1..])
  }

  // ---------------------------------------------------------------------------------------------------------
  // What every step keeps.

  /** Ids in flight are apart from ids in the store, in the log and in any caller's hands. */
  ghost predicate IdsApart(s: State)
  {
    && (forall id :: id in s.rows ==> id in s.seen)
    && (forall c :: c in s.calls && Inserts(s.calls[c]).Some? ==>
          var id := Inserts(s.calls[c]).value;
          id in s.seen && id !in s.rows && id !in s.first)
    && (forall c, d :: c in s.calls && d in s.calls && c != d && Inserts(s.calls[c]).Some? ==>
          Inserts(s.calls[c]) != Inserts(s.calls[d]))
    && (forall c :: c in s.calls && s.calls[c].presents.Some? ==> s.calls[c].presents.value in s.seen)
    && (forall c, d :: c in s.calls && d in s.calls && s.calls[c].presents.Some? ==>
          Inserts(s.calls[d]) != s.calls[c].presents)
    && (forall c :: c in s.calls && JobOf(s.calls[c]).Some? ==>
          s.calls[c].presents == Some(JobOf(s.calls[c]).value.id))
  }

  /** An id any UPDATE has run under is never live again, and only its first attempt can have won it. */
  ghost predicate AttemptsBurn(s: State)
  {
    && (forall id :: id in s.first ==> !Live(s.rows, id) && id in s.seen)
    && (forall c :: c in s.calls && s.calls[c].phase.Selecting? ==> s.calls[c].phase.job.id in s.first)
    && (forall c :: c in s.calls && s.calls[c].phase.Resuming? && Wins(s.calls[c].phase.found) ==>
          var id := s.calls[c].phase.job.id;
          id in s.first && s.first[id] == c)
  }

  predicate Wins(found: Option<Row>) { found.Some? && found.value.consumedAt.None? }

  /** What a hash and the request beside it have to do with each other. */
  type Bond = (Digest, Request) -> bool

  ghost predicate TrueHash(hash: Digest, r: Request) { PlainRequest(r) && hash == DiffHash(r) }

  /** The bond holds wherever a hash is held. */
  ghost predicate HashesBond(s: State, bond: Bond)
  {
    && (forall c :: c in s.calls ==> CallBonds(s.calls[c], bond))
    && (forall j :: 0 <= j < |s.log| ==> EventBonds(s.log[j], bond))
  }

  ghost predicate CallBonds(call: Call, bond: Bond)
  {
    && (call.phase.Inserting? ==> bond(call.phase.row.diffHash, call.phase.request))
    && (JobOf(call).Some? ==> bond(JobOf(call).value.hash, JobOf(call).value.request))
  }

  ghost predicate EventBonds(e: Event, bond: Bond)
  {
    match e
    case DryRun(request, row, _) => bond(row.diffHash, request)
    case Execute(_, job, _) => bond(job.hash, job.request)
  }

  ghost predicate ArgumentsPlain(s: State)
  {
    forall c :: c in s.calls ==> Plain(s.calls[c].arguments) && s.calls[c].arguments.Object?
  }

  /** The row of a dry run holds its token's fingerprint and its deadline, and its plan changes something. */
  predicate Binds(request: Request, row: Row, token: Text)
  {
    && row.fingerprint == Fingerprint(token)
    && row.expiresAt == row.issuedAt + CONFIRMATION_TTL_MS
    && row.consumedAt.None?
    && request.plan.changes != []
  }

  ghost predicate DryRunsBind(s: State)
  {
    && (forall c :: c in s.calls && s.calls[c].phase.Inserting? ==>
          var p := s.calls[c].phase;
          Binds(p.request, p.row, p.token) && p.row.issuedAt <= s.clock)
    && (forall j :: 0 <= j < |s.log| && s.log[j].DryRun? ==>
          var e := s.log[j];
          Binds(e.request, e.row, e.token) && e.row.issuedAt <= s.clock && e.row.id in s.seen)
    && (forall c, j :: c in s.calls && 0 <= j < |s.log| && s.log[j].DryRun? ==>
          Inserts(s.calls[c]) != Some(s.log[j].row.id))
  }

  /** A clock sample taken for verifying an id is not before that id was issued. */
  ghost predicate SamplesFollow(s: State)
  {
    && (forall c :: c in s.calls && JobOf(s.calls[c]).Some? ==> JobOf(s.calls[c]).value.at <= s.clock)
    && (forall c, j :: c in s.calls && 0 <= j < |s.log| ==> Follows(s.calls[c], s.log[j]))
  }

  predicate Follows(call: Call, e: Event)
  {
    e.DryRun? && JobOf(call).Some? && JobOf(call).value.id == e.row.id ==> e.row.issuedAt <= JobOf(call).value.at
  }

  /** The dry run that wrote this row is in the log. */
  ghost predicate Logged(log: seq<Event>, row: Row)
  {
    exists j :: 0 <= j < |log| && WroteRow(log[j], row)
  }

  predicate WroteRow(e: Event, row: Row)
  {
    e.DryRun? && e.row == row.(consumedAt := None)
  }

  ghost predicate RowsLogged(s: State)
  {
    && (forall id :: id in s.rows ==> s.rows[id].id == id && Logged(s.log, s.rows[id]))
    && (forall c :: c in s.calls && s.calls[c].phase.Resuming? && s.calls[c].phase.found.Some? ==>
          var p := s.calls[c].phase;
          p.found.value.id == p.job.id && Logged(s.log, p.found.value))
  }

  /** What ties an execution to the dry run it answers. */
  ghost predicate Answers(e: Event, d: Event)
  {
    && e.Execute? && d.DryRun?
    && e.job.id == d.row.id
    && e.job.token == d.token
    && e.subject == d.row.subject
    && e.job.hash == d.row.diffHash
    && d.row.issuedAt <= e.job.at < d.row.issuedAt + 120_000
    && d.request.plan.changes != []
  }

  ghost predicate Answered(log: seq<Event>, k: int)
    requires 0 <= k < |log|
  {
    exists j :: 0 <= j < k && Answers(log[k], log[j])
  }

  ghost predicate ExecutionsAnswer(s: State)
  {
    forall k :: 0 <= k < |s.log| && s.log[k].Execute? ==> Answered(s.log, k)
  }

  /** An execution belongs to the first attempt on its id, by a call that is over; no call executes twice. */
  ghost predicate ExecutionsAreFirst(s: State)
  {
    && (forall k :: 0 <= k < |s.log| && s.log[k].Execute? ==>
          var e := s.log[k];
          && e.job.id in s.first && s.first[e.job.id] == e.call
          && e.call in s.calls && s.calls[e.call].phase.Finished?)
    && (forall k, l :: 0 <= k < l < |s.log| && s.log[k].Execute? && s.log[l].Execute? ==>
          s.log[k].call != s.log[l].call)
  }

  ghost predicate Inv(s: State, bond: Bond)
  {
    && IdsApart(s) && AttemptsBurn(s) && ArgumentsPlain(s) && HashesBond(s, bond)
    && DryRunsBind(s) && SamplesFollow(s) && RowsLogged(s) && ExecutionsAnswer(s) && ExecutionsAreFirst(s)
  }

  // ---------------------------------------------------------------------------------------------------------
  // The steps that compute something, seen through what they leave behind.

  /** What the code after a plan can turn the call into. */
  predicate SettlesTo(call: Call, clock: int, phase: Phase, id: Text)
  {
    match phase
    case Finished(_) => true
    case Inserting(request, row, token) => row.id == id && Binds(request, row, token) && row.issuedAt == clock
    case Updating(job) => call.presents == Some(job.id) && job.at == clock
    case _ => false
  }

  lemma PlanSettles(s: State, call: Call, request: Request, hash: Digest, id: Text, secret: Text)
    ensures
      var phase := AfterPlan(s, call, request, hash, id, secret);
      && SettlesTo(call, s.clock, phase, id)
      && (phase.Inserting? ==> phase.row.diffHash == hash && phase.request == request)
      && (phase.Updating? ==> phase.job.hash == hash && phase.job.request == request)
  {
    hide IdOf, TokenText;
  }

  lemma JoinKeepsIdsApart(s: State, c: nat, call: Call)
    requires IdsApart(s)
    requires c !in s.calls && call.phase.Planning?
    requires call.presents.Some? ==> !Pending(s, call.presents.value)
    ensures IdsApart(Join(s, c, call))
  {
  }

  lemma FirstIsSeen(s: State)
    requires AttemptsBurn(s)
    ensures forall i <- s.first :: i in s.seen
  {
  }

  lemma SettleKeepsIdsApart(s: State, c: nat, phase: Phase, id: Text)
    requires IdsApart(s) && (forall i <- s.first :: i in s.seen)
    requires c in s.calls && s.calls[c].phase.Planning? && id !in s.seen
    requires SettlesTo(s.calls[c], s.clock, phase, id)
    ensures IdsApart(Settle(s, c, phase, id))
  {
  }

  /** A call moves on without sending an INSERT, and no row appears. */
  lemma QuietMoveKeepsIdsApart(s: State, t: State, c: nat, phase: Phase)
    requires IdsApart(s) && c in s.calls && t.calls == Goto(s, c, phase).calls
    requires JobOf(t.calls[c]).Some? ==>
      JobOf(s.calls[c]).Some? && JobOf(t.calls[c]).value.id == JobOf(s.calls[c]).value.id
    requires !phase.Inserting?
    requires t.rows.Keys <= s.rows.Keys && t.seen == s.seen
    requires forall id :: id in t.first ==> id in s.first || s.calls[c].presents == Some(id)
    ensures IdsApart(t)
  {
  }

  lemma JobIsPresented(s: State, c: nat)
    requires IdsApart(s) && c in s.calls && JobOf(s.calls[c]).Some?
    ensures s.calls[c].presents == Some(JobOf(s.calls[c]).value.id)
  {
  }

  lemma FewerRowsKeepIdsApart(s: State, t: State)
    requires IdsApart(s) && t.calls == s.calls && t.rows.Keys <= s.rows.Keys && t.seen == s.seen && t.first == s.first
    ensures IdsApart(t)
  {
  }

  lemma InsertKeepsIdsApart(s: State, c: nat)
    requires IdsApart(s) && CanProgress(s, InsertRow(c))
    ensures IdsApart(Progress(s, InsertRow(c)))
  {
  }

  lemma StepKeepsIdsApart(s: State, step: Step)
    requires IdsApart(s) && CanProgress(s, step)
    ensures IdsApart(Progress(s, step))
  {
    hide Judge, IdsApart;
    var t := Progress(s, step);
    match step
    case InsertRow(c) => InsertKeepsIdsApart(s, c);
    case UpdateRow(c) =>
      JobIsPresented(s, c);
      QuietMoveKeepsIdsApart(s, t, c, t.calls[c].phase);
    case SelectRow(c) => QuietMoveKeepsIdsApart(s, t, c, t.calls[c].phase);
    case Resume(c) => QuietMoveKeepsIdsApart(s, t, c, t.calls[c].phase);
    case Interrupt(c) => QuietMoveKeepsIdsApart(s, t, c, t.calls[c].phase);
    case _ => FewerRowsKeepIdsApart(s, t);
  }

  lemma JoinKeepsAttemptsBurn(s: State, c: nat, call: Call)
    requires IdsApart(s) && AttemptsBurn(s)
    requires c !in s.calls && call.phase.Planning?
    requires call.presents.Some? ==> !Pending(s, call.presents.value)
    ensures AttemptsBurn(Join(s, c, call))
  {
  }

  lemma SettleKeepsAttemptsBurn(s: State, c: nat, phase: Phase, id: Text)
    requires IdsApart(s) && AttemptsBurn(s)
    requires c in s.calls && s.calls[c].phase.Planning? && id !in s.seen
    requires SettlesTo(s.calls[c], s.clock, phase, id)
    ensures AttemptsBurn(Settle(s, c, phase, id))
  {
  }

  lemma UpdateKeepsAttemptsBurn(s: State, c: nat)
    requires IdsApart(s) && AttemptsBurn(s) && CanProgress(s, UpdateRow(c))
    ensures AttemptsBurn(Progress(s, UpdateRow(c)))
  {
  }

  lemma ConcludeKeepsAttemptsBurn(s: State, c: nat, job: Job, verdict: Verdict)
    requires AttemptsBurn(s) && c in s.calls
    ensures AttemptsBurn(Conclude(s, c, job, verdict))
  {
  }

  lemma StepKeepsAttemptsBurn(s: State, step: Step)
    requires IdsApart(s) && AttemptsBurn(s) && CanProgress(s, step)
    ensures AttemptsBurn(Progress(s, step))
  {
    hide Judge, Conclude;
    match step
    case Resume(c) =>
      var call, job := s.calls[c], s.calls[c].phase.job;
      ConcludeKeepsAttemptsBurn(s, c, job, Judge(call.phase.found, job.token, job.hash, call.subject, job.at));
    case UpdateRow(c) => UpdateKeepsAttemptsBurn(s, c);
    case _ =>
  }

  lemma JoinKeepsDryRunsBind(s: State, c: nat, call: Call)
    requires IdsApart(s) && DryRunsBind(s)
    requires c !in s.calls && call.phase.Planning?
    requires call.presents.Some? ==> !Pending(s, call.presents.value)
    ensures DryRunsBind(Join(s, c, call))
  {
  }

  lemma SettleKeepsDryRunsBind(s: State, c: nat, phase: Phase, id: Text)
    requires IdsApart(s) && DryRunsBind(s)
    requires c in s.calls && s.calls[c].phase.Planning? && id !in s.seen
    requires SettlesTo(s.calls[c], s.clock, phase, id)
    ensures DryRunsBind(Settle(s, c, phase, id))
  {
  }

  lemma ConcludeKeepsDryRunsBind(s: State, c: nat, job: Job, verdict: Verdict)
    requires IdsApart(s) && DryRunsBind(s) && c in s.calls
    ensures DryRunsBind(Conclude(s, c, job, verdict))
  {
  }

  lemma InsertKeepsDryRunsBind(s: State, c: nat)
    requires IdsApart(s) && DryRunsBind(s) && CanProgress(s, InsertRow(c))
    ensures DryRunsBind(Progress(s, InsertRow(c)))
  {
  }

  lemma StepKeepsDryRunsBind(s: State, step: Step)
    requires IdsApart(s) && DryRunsBind(s) && CanProgress(s, step)
    ensures DryRunsBind(Progress(s, step))
  {
    hide Judge, Conclude, IdsApart, Fingerprint;
    match step
    case Resume(c) =>
      var call, job := s.calls[c], s.calls[c].phase.job;
      ConcludeKeepsDryRunsBind(s, c, job, Judge(call.phase.found, job.token, job.hash, call.subject, job.at));
    case InsertRow(c) => InsertKeepsDryRunsBind(s, c);
    case _ =>
  }

  lemma JoinKeepsSamplesFollow(s: State, c: nat, call: Call)
    requires IdsApart(s) && DryRunsBind(s) && SamplesFollow(s)
    requires c !in s.calls && call.phase.Planning?
    requires call.presents.Some? ==> !Pending(s, call.presents.value)
    ensures SamplesFollow(Join(s, c, call))
  {
  }

  lemma SettleKeepsSamplesFollow(s: State, c: nat, phase: Phase, id: Text)
    requires IdsApart(s) && DryRunsBind(s) && SamplesFollow(s)
    requires c in s.calls && s.calls[c].phase.Planning? && id !in s.seen
    requires SettlesTo(s.calls[c], s.clock, phase, id)
    ensures SamplesFollow(Settle(s, c, phase, id))
  {
  }

  lemma ConcludeKeepsSamplesFollow(s: State, c: nat, job: Job, verdict: Verdict)
    requires IdsApart(s) && DryRunsBind(s) && SamplesFollow(s) && c in s.calls
    ensures SamplesFollow(Conclude(s, c, job, verdict))
  {
  }

  lemma InsertKeepsSamplesFollow(s: State, c: nat)
    requires IdsApart(s) && DryRunsBind(s) && SamplesFollow(s) && CanProgress(s, InsertRow(c))
    ensures SamplesFollow(Progress(s, InsertRow(c)))
  {
  }

  lemma UpdateKeepsSamplesFollow(s: State, c: nat)
    requires IdsApart(s) && DryRunsBind(s) && SamplesFollow(s) && CanProgress(s, UpdateRow(c))
    ensures SamplesFollow(Progress(s, UpdateRow(c)))
  {
  }

  lemma StepKeepsSamplesFollow(s: State, step: Step)
    requires IdsApart(s) && DryRunsBind(s) && SamplesFollow(s) && CanProgress(s, step)
    ensures SamplesFollow(Progress(s, step))
  {
    hide Judge, Conclude, IdsApart, DryRunsBind;
    match step
    case Resume(c) =>
      var call, job := s.calls[c], s.calls[c].phase.job;
      ConcludeKeepsSamplesFollow(s, c, job, Judge(call.phase.found, job.token, job.hash, call.subject, job.at));
    case InsertRow(c) => InsertKeepsSamplesFollow(s, c);
    case UpdateRow(c) => UpdateKeepsSamplesFollow(s, c);
    case _ =>
  }

  lemma JoinKeepsRowsLogged(s: State, c: nat, call: Call)
    requires RowsLogged(s) && DryRunsBind(s)
    requires c !in s.calls && call.phase.Planning?
    requires call.presents.Some? ==> !Pending(s, call.presents.value)
    ensures RowsLogged(Join(s, c, call))
  {
  }

  lemma SettleKeepsRowsLogged(s: State, c: nat, phase: Phase, id: Text)
    requires RowsLogged(s) && DryRunsBind(s)
    requires c in s.calls && s.calls[c].phase.Planning? && id !in s.seen
    requires SettlesTo(s.calls[c], s.clock, phase, id)
    ensures RowsLogged(Settle(s, c, phase, id))
  {
  }

  lemma LogGrows(log: seq<Event>, e: Event, row: Row)
    requires Logged(log, row)
    ensures Logged(log + [e], row)
  {
    var j :| 0 <= j < |log| && WroteRow(log[j], row);
    assert WroteRow((log + [e])[j], row);
  }

  lemma ConsumingStaysLogged(log: seq<Event>, row: Row, at: int)
    requires Logged(log, row)
    ensures Logged(log, row.(consumedAt := Some(at)))
  {
    var j :| 0 <= j < |log| && WroteRow(log[j], row);
    assert WroteRow(log[j], row.(consumedAt := Some(at)));
  }

  lemma InsertKeepsRowsLogged(s: State, c: nat)
    requires RowsLogged(s) && DryRunsBind(s) && CanProgress(s, InsertRow(c))
    ensures RowsLogged(Progress(s, InsertRow(c)))
  {
    var p := s.calls[c].phase;
    var e := DryRun(p.request, p.row, p.token);
    forall row | Logged(s.log, row) ensures Logged(s.log + [e], row) { LogGrows(s.log, e, row); }
    assert WroteRow((s.log + [e])[|s.log|], p.row);
  }

  lemma ConcludeKeepsRowsLogged(s: State, c: nat, job: Job, verdict: Verdict)
    requires RowsLogged(s) && c in s.calls
    ensures RowsLogged(Conclude(s, c, job, verdict))
  {
    var e := Execute(c, job, s.calls[c].subject);
    forall row | Logged(s.log, row) ensures Logged(s.log + [e], row) { LogGrows(s.log, e, row); }
  }

  lemma UpdateKeepsRowsLogged(s: State, c: nat)
    requires RowsLogged(s) && CanProgress(s, UpdateRow(c))
    ensures RowsLogged(Progress(s, UpdateRow(c)))
  {
    var job := s.calls[c].phase.job;
    if Live(s.rows, job.id) {
      ConsumingStaysLogged(s.log, s.rows[job.id], job.at);
    }
  }

  lemma StepKeepsRowsLogged(s: State, step: Step)
    requires RowsLogged(s) && DryRunsBind(s) && CanProgress(s, step)
    ensures RowsLogged(Progress(s, step))
  {
    hide Judge, Conclude;
    match step
    case Resume(c) =>
      var call, job := s.calls[c], s.calls[c].phase.job;
      ConcludeKeepsRowsLogged(s, c, job, Judge(call.phase.found, job.token, job.hash, call.subject, job.at));
    case InsertRow(c) => InsertKeepsRowsLogged(s, c);
    case UpdateRow(c) => UpdateKeepsRowsLogged(s, c);
    case _ =>
  }

  lemma JoinKeepsExecutionsAreFirst(s: State, c: nat, call: Call)
    requires AttemptsBurn(s) && ExecutionsAreFirst(s)
    requires c !in s.calls && call.phase.Planning?
    requires call.presents.Some? ==> !Pending(s, call.presents.value)
    ensures ExecutionsAreFirst(Join(s, c, call))
  {
  }

  lemma SettleKeepsExecutionsAreFirst(s: State, c: nat, phase: Phase, id: Text)
    requires AttemptsBurn(s) && ExecutionsAreFirst(s)
    requires c in s.calls && s.calls[c].phase.Planning? && id !in s.seen
    requires SettlesTo(s.calls[c], s.clock, phase, id)
    ensures ExecutionsAreFirst(Settle(s, c, phase, id))
  {
  }

  lemma StepKeepsExecutionsAreFirst(s: State, step: Step)
    requires AttemptsBurn(s) && ExecutionsAreFirst(s) && CanProgress(s, step)
    ensures ExecutionsAreFirst(Progress(s, step))
  {
  }

  lemma JoinKeepsExecutionsAnswer(s: State, c: nat, call: Call)
    requires RowsLogged(s) && DryRunsBind(s) && SamplesFollow(s) && ExecutionsAnswer(s)
    requires c !in s.calls && call.phase.Planning?
    requires call.presents.Some? ==> !Pending(s, call.presents.value)
    ensures ExecutionsAnswer(Join(s, c, call))
  {
  }

  lemma SettleKeepsExecutionsAnswer(s: State, c: nat, phase: Phase, id: Text)
    requires RowsLogged(s) && DryRunsBind(s) && SamplesFollow(s) && ExecutionsAnswer(s)
    requires c in s.calls && s.calls[c].phase.Planning? && id !in s.seen
    requires SettlesTo(s.calls[c], s.clock, phase, id)
    ensures ExecutionsAnswer(Settle(s, c, phase, id))
  {
  }

  lemma AnswersGrow(log: seq<Event>, e: Event)
    requires forall k :: 0 <= k < |log| && log[k].Execute? ==> Answered(log, k)
    requires e.Execute? ==> Answered(log + [e], |log|)
    ensures forall k :: 0 <= k < |log + [e]| && (log + [e])[k].Execute? ==> Answered(log + [e], k)
  {
    forall k | 0 <= k < |log| && log[k].Execute? ensures Answered(log + [e], k) {
      var j :| 0 <= j < k && Answers(log[k], log[j]);
      assert Answers((log + [e])[k], (log + [e])[j]);
    }
  }

  /** The heart of it: an accepted verification answers the dry run that wrote the row it was judged on. */
  lemma AcceptedAnswers(s: State, c: nat)
    requires RowsLogged(s) && DryRunsBind(s) && SamplesFollow(s)
    requires c in s.calls && s.calls[c].phase.Resuming?
    requires
      var call, job := s.calls[c], s.calls[c].phase.job;
      Judge(call.phase.found, job.token, job.hash, call.subject, job.at).Accepted?
    ensures
      var log := s.log + [Execute(c, s.calls[c].phase.job, s.calls[c].subject)];
      Answered(log, |s.log|)
  {
    var call := s.calls[c];
    var job, row := call.phase.job, call.phase.found.value;
    var e := Execute(c, job, call.subject);
    var j :| 0 <= j < |s.log| && WroteRow(s.log[j], row);
    var d := s.log[j];
    assert Binds(d.request, d.row, d.token);
    assert Follows(call, d);
    assert Answers((s.log + [e])[|s.log|], (s.log + [e])[j]);
  }

  lemma StepKeepsExecutionsAnswer(s: State, step: Step)
    requires RowsLogged(s) && DryRunsBind(s) && SamplesFollow(s) && ExecutionsAnswer(s) && CanProgress(s, step)
    ensures ExecutionsAnswer(Progress(s, step))
  {
    match step
    case Resume(c) =>
      var call, job := s.calls[c], s.calls[c].phase.job;
      if Judge(call.phase.found, job.token, job.hash, call.subject, job.at).Accepted? {
        AcceptedAnswers(s, c);
        AnswersGrow(s.log, Execute(c, job, call.subject));
      }
    case InsertRow(c) =>
      var p := s.calls[c].phase;
      AnswersGrow(s.log, DryRun(p.request, p.row, p.token));
    case _ =>
  }

  lemma StepKeepsHashesBond(s: State, step: Step, bond: Bond)
    requires HashesBond(s, bond) && CanProgress(s, step)
    ensures HashesBond(Progress(s, step), bond)
  {
  }

  lemma SettleKeepsHashesBond(s: State, c: nat, phase: Phase, id: Text, bond: Bond)
    requires HashesBond(s, bond) && c in s.calls && SettlesTo(s.calls[c], s.clock, phase, id)
    requires CallBonds(s.calls[c].(phase := phase), bond)
    ensures HashesBond(Settle(s, c, phase, id), bond)
  {
  }

  // ---------------------------------------------------------------------------------------------------------
  // Every reachable state.

  lemma StepKeepsArgumentsPlain(s: State, step: Step)
    requires ArgumentsPlain(s) && CanProgress(s, step)
    ensures ArgumentsPlain(Progress(s, step))
  {
  }

  lemma JoinKeepsInv(s: State, c: nat, call: Call, bond: Bond)
    requires Inv(s, bond)
    requires c !in s.calls && call.phase.Planning?
    requires Plain(call.arguments) && call.arguments.Object?
    requires call.presents.Some? ==> !Pending(s, call.presents.value)
    ensures Inv(Join(s, c, call), bond)
  {
    hide IdsApart, AttemptsBurn, DryRunsBind, SamplesFollow, RowsLogged;
    hide ExecutionsAnswer, ExecutionsAreFirst;
    JoinKeepsIdsApart(s, c, call);
    JoinKeepsAttemptsBurn(s, c, call);
    JoinKeepsDryRunsBind(s, c, call);
    JoinKeepsSamplesFollow(s, c, call);
    JoinKeepsRowsLogged(s, c, call);
    JoinKeepsExecutionsAreFirst(s, c, call);
    JoinKeepsExecutionsAnswer(s, c, call);
  }

  lemma SettleKeepsInv(s: State, c: nat, phase: Phase, id: Text, bond: Bond)
    requires Inv(s, bond)
    requires c in s.calls && s.calls[c].phase.Planning? && id !in s.seen
    requires SettlesTo(s.calls[c], s.clock, phase, id)
    requires CallBonds(s.calls[c].(phase := phase), bond)
    ensures Inv(Settle(s, c, phase, id), bond)
  {
    hide IdsApart, AttemptsBurn, HashesBond, DryRunsBind, SamplesFollow, RowsLogged;
    hide ExecutionsAnswer, ExecutionsAreFirst;
    FirstIsSeen(s);
    SettleKeepsIdsApart(s, c, phase, id);
    SettleKeepsAttemptsBurn(s, c, phase, id);
    SettleKeepsDryRunsBind(s, c, phase, id);
    SettleKeepsSamplesFollow(s, c, phase, id);
    SettleKeepsRowsLogged(s, c, phase, id);
    SettleKeepsExecutionsAreFirst(s, c, phase, id);
    SettleKeepsExecutionsAnswer(s, c, phase, id);
    SettleKeepsHashesBond(s, c, phase, id, bond);
  }

  lemma ProgressKeepsInv(s: State, step: Step, bond: Bond)
    requires Inv(s, bond) && CanProgress(s, step)
    ensures Inv(Progress(s, step), bond)
  {
    hide IdsApart, AttemptsBurn, HashesBond, DryRunsBind, SamplesFollow, RowsLogged;
    hide ExecutionsAnswer, ExecutionsAreFirst, ArgumentsPlain;
    StepKeepsIdsApart(s, step);
    StepKeepsAttemptsBurn(s, step);
    StepKeepsHashesBond(s, step, bond);
    StepKeepsDryRunsBind(s, step);
    StepKeepsSamplesFollow(s, step);
    StepKeepsRowsLogged(s, step);
    StepKeepsExecutionsAnswer(s, step);
    StepKeepsExecutionsAreFirst(s, step);
    StepKeepsArgumentsPlain(s, step);
  }

  /** The bond is one that every hash the code computes has. */
  ghost predicate Computed(bond: Bond)
  {
    forall r :: PlainRequest(r) ==> bond(DiffHash(r), r)
  }

  lemma PlannedKeepsInv(s: State, c: nat, request: Request, hash: Digest, id: Text, secret: Text, bond: Bond)
    requires Inv(s, bond) && c in s.calls && s.calls[c].phase.Planning? && id !in s.seen
    requires bond(hash, request)
    ensures Inv(Settle(s, c, AfterPlan(s, s.calls[c], request, hash, id, secret), id), bond)
  {
    PlanSettles(s, s.calls[c], request, hash, id, secret);
    SettleKeepsInv(s, c, AfterPlan(s, s.calls[c], request, hash, id, secret), id, bond);
  }

  lemma StepKeepsInv(s: State, step: Step, bond: Bond)
    requires Inv(s, bond) && Computed(bond) && Enabled(s, step)
    ensures Inv(Next(s, step), bond)
  {
    match step
    case Begin(c, tool, input, subject) =>
      WithoutStaysPlain(input, CONFIRMATION_TOKEN);
      JoinKeepsInv(s, c, NewCall(tool, input, subject), bond);
    case Planned(c, plan, id, secret) =>
      var request := Request(s.calls[c].tool, s.calls[c].arguments, plan);
      assert PlainRequest(request);
      PlannedKeepsInv(s, c, request, DiffHash(request), id, secret, bond);
    case _ => ProgressKeepsInv(s, step, bond);
  }

  lemma {:induction false} RunKeepsInv(s: State, steps: seq<Step>, bond: Bond)
    requires Inv(s, bond) && Computed(bond) && Legal(s, steps)
    ensures Inv(Run(s, steps), bond)
    decreases |steps|
  {
    if steps != [] {
      StepKeepsInv(s, steps[0], bond);
      RunKeepsInv(Next(s, steps[0]), steps[1..], bond);
    }
  }

  lemma StartIsInv(clock: int, configured: bool, bond: Bond)
    ensures Inv(Start(clock, configured), bond)
  {
  }

  // ---------------------------------------------------------------------------------------------------------
  // The control.

  /** Execution k acts on the request that dry run j showed. */
  ghost predicate Confirms(log: seq<Event>, k: int, j: int)
    requires 0 <= j < k < |log|
  {
    && Answers(log[k], log[j])
    && SameRequest(log[j].request, log[k].job.request)
  }

  lemma OneHashOneRequest(hash: Digest, shown: Request, executed: Request)
    requires TrueHash(hash, shown) && TrueHash(hash, executed)
    ensures SameRequest(shown, executed)
    ensures shown.plan.changes != [] ==> executed.plan.changes != []
  {
    DiffHashDecidesRequest(shown, executed);
  }

  lemma AnswerConfirms(log: seq<Event>, k: int, j: int, bond: Bond)
    requires 0 <= j < k < |log| && Answers(log[k], log[j])
    requires EventBonds(log[k], bond) && EventBonds(log[j], bond)
    requires forall h, r :: bond(h, r) ==> TrueHash(h, r)
    ensures Confirms(log, k, j) && log[k].job.request.plan.changes != []
  {
    OneHashOneRequest(log[k].job.hash, log[j].request, log[k].job.request);
  }

  /**
   In every interleaved run, each execution answers an earlier dry run: same confirmation id and token, same
   subject, tool and arguments, the plan that was shown, verified inside its two minutes. So a plan that changes
   nothing is never executed.
  */
  lemma EveryExecutionWasConfirmed(clock: int, configured: bool, steps: seq<Step>, k: int)
    requires Legal(Start(clock, configured), steps)
    requires 0 <= k < |Run(Start(clock, configured), steps).log|
    requires Run(Start(clock, configured), steps).log[k].Execute?
    ensures
      var log := Run(Start(clock, configured), steps).log;
      && (exists j :: 0 <= j < k && Confirms(log, k, j))
      && log[k].job.request.plan.changes != []
  {
    var bond := TrueBond();
    StartIsInv(clock, configured, bond);
    RunKeepsInv(Start(clock, configured), steps, bond);
    var log := Run(Start(clock, configured), steps).log;
    assert Answered(log, k);
    var j :| 0 <= j < k && Answers(log[k], log[j]);
    AnswerConfirms(log, k, j, bond);
  }

  ghost function TrueBond(): (bond: Bond)
    ensures Computed(bond)
    ensures forall h, r :: bond(h, r) ==> TrueHash(h, r)
  {
    (h, r) => TrueHash(h, r)
  }

  /** Two executions never answer the same dry run: each has its own id, and the id's first attempt made it. */
  lemma ExecutionsAreInjective(clock: int, configured: bool, steps: seq<Step>, k: int, l: int)
    requires Legal(Start(clock, configured), steps)
    requires 0 <= k < l < |Run(Start(clock, configured), steps).log|
    requires Run(Start(clock, configured), steps).log[k].Execute?
    requires Run(Start(clock, configured), steps).log[l].Execute?
    ensures
      var s := Run(Start(clock, configured), steps);
      && s.log[k].job.id != s.log[l].job.id
      && s.log[k].job.id in s.first && s.first[s.log[k].job.id] == s.log[k].call
  {
    var bond: Bond := (h, r) => true;
    StartIsInv(clock, configured, bond);
    RunKeepsInv(Start(clock, configured), steps, bond);
  }

  /** Once any UPDATE has run under an id, none ever wins it again, and its first attempt stays on record. */
  lemma {:induction false} AttemptsBurnForGood(s: State, steps: seq<Step>, id: Text, at: int, bond: Bond)
    requires Inv(s, bond) && Computed(bond) && Legal(s, steps) && id in s.first
    ensures
      var end := Run(s, steps);
      && id in end.first && end.first[id] == s.first[id]
      && Update(end.rows, id, at) == (end.rows, None)
    decreases |steps|
  {
    if steps != [] {
      StepKeepsInv(s, steps[0], bond);
      FirstIsKept(s, steps[0], id);
      AttemptsBurnForGood(Next(s, steps[0]), steps[1..], id, at, bond);
    }
  }

  lemma FirstIsKept(s: State, step: Step, id: Text)
    requires Enabled(s, step) && id in s.first
    ensures id in Next(s, step).first && Next(s, step).first[id] == s.first[id]
  {
    match step
    case Begin(_, _, _, _) =>
    case Planned(_, _, _, _) =>
    case UpdateRow(_) =>
    case Resume(_) =>
    case _ =>
  }

  // ---------------------------------------------------------------------------------------------------------
  // A confirmation left alone.

  lemma Prefixed(s: State, step: Step, rest: seq<Step>)
    requires Enabled(s, step) && Legal(Next(s, step), rest)
    ensures Legal(s, [step] + rest) && Run(s, [step] + rest) == Run(Next(s, step), rest)
  {
    assert ([step] + rest)[1..] == rest;
  }

  function DryRunSteps(c: nat, tool: Text, input: seq<Member>, subject: Text, plan: ToolPlan, id: Text, secret: Text)
    : seq<Step>
  {
    [Begin(c, tool, input, subject)] + ([Planned(c, plan, id, secret)] + ([InsertRow(c)] + []))
  }

  function ConfirmSteps(c: nat, tool: Text, input: seq<Member>, subject: Text, plan: ToolPlan, id: Text, secret: Text)
    : seq<Step>
  {
    [Begin(c, tool, input, subject)] + ([Planned(c, plan, id, secret)] + ([UpdateRow(c)] + ([Resume(c)] + [])))
  }

  function RequestOf(tool: Text, input: seq<Member>, plan: ToolPlan): Request
  {
    Request(tool, Object(Without(input, CONFIRMATION_TOKEN)), plan)
  }

  /** A dry run of a plan that changes something leaves one fresh live row, and its token with the caller. */
  lemma DryRunShows(s: State, c: nat, tool: Text, input: seq<Member>, subject: Text, plan: ToolPlan,
                    id: Text, secret: Text)
    requires s.configured && c !in s.calls && id !in s.seen && Minted(id, secret)
    requires Plain(Object(input)) && Get(input, CONFIRMATION_TOKEN).Undefined? && PlainPlan(plan) && plan.changes != []
    ensures
      var steps := DryRunSteps(c, tool, input, subject, plan, id, secret);
      && Legal(s, steps)
      && var t := Run(s, steps);
         var row := IssuedRow(MCP + tool, DiffHash(RequestOf(tool, input, plan)), subject, id, secret, s.clock);
         && t.rows == s.rows[id := row] && t.clock == s.clock && t.configured && t.seen == s.seen + {id}
         && t.calls.Keys == s.calls.Keys + {c}
         && t.calls[c].phase == Finished(Shown(TokenText(id, secret)))
         && forall d :: d in s.calls && d != c ==> t.calls[d] == s.calls[d]
  {
    hide DiffHash, IdOf, TokenText, Minted, PlainPlan, IssuedRow, Without, Get;
    var b1, b2, b3 := Begin(c, tool, input, subject), Planned(c, plan, id, secret), InsertRow(c);
    var s1 := Next(s, b1);
    var s2 := Next(s1, b2);
    var s3 := Next(s2, b3);
    RowOfIssue(MCP + tool, DiffHash(RequestOf(tool, input, plan)), subject, id, secret, s.clock);
    Prefixed(s2, b3, []);
    Prefixed(s1, b2, [b3] + []);
    Prefixed(s, b1, [b2] + ([b3] + []));
  }

  lemma RowOfIssue(operation: Text, hash: Digest, subject: Text, id: Text, secret: Text, now: int)
    ensures
      var row := IssuedRow(operation, hash, subject, id, secret, now);
      row.id == id && row.subject == subject && row.consumedAt.None?
  {
  }

  /** A call that presents the id of a live row no one else touches is judged on that row. */
  lemma ConfirmIsJudged(s: State, c: nat, tool: Text, input: seq<Member>, subject: Text, plan: ToolPlan,
                        id: Text, secret: Text, token: Text, presented: Text)
    requires s.configured && c !in s.calls && id !in s.seen && Minted(id, secret)
    requires Plain(Object(input)) && Get(input, CONFIRMATION_TOKEN) == String(token) && PlainPlan(plan)
    requires IdOf(token) == Some(presented) && Live(s.rows, presented) && !Pending(s, presented)
    requires id != presented
    ensures
      var steps := ConfirmSteps(c, tool, input, subject, plan, id, secret);
      && Legal(s, steps)
      && var t := Run(s, steps);
         var hash := DiffHash(RequestOf(tool, input, plan));
         && c in t.calls
         && (t.calls[c].phase == Finished(Applied) <==>
               Judge(Some(s.rows[presented]), token, hash, subject, s.clock).Accepted?)
  {
    hide DiffHash, IdOf, TokenText, Minted, PlainPlan, IssuedRow, Judge, Without, Get, Pending;
    var b1, b2 := Begin(c, tool, input, subject), Planned(c, plan, id, secret);
    var b3, b4 := UpdateRow(c), Resume(c);
    var s1 := Next(s, b1);
    var s2 := Next(s1, b2);
    var s3 := Next(s2, b3);
    Prefixed(s3, b4, []);
    Prefixed(s2, b3, [b4] + []);
    Prefixed(s1, b2, [b3] + ([b4] + []));
    Prefixed(s, b1, [b2] + ([b3] + ([b4] + [])));
  }

  /**
   In any reachable state, a dry run followed by its token, with nothing in between but time and the world
   changing, executes exactly when the caller is the same, the request and its plan are still the same, and two
   minutes have not passed.
  */
  lemma ConfirmedCallRunsExactly(
      s: State, bond: Bond, c: nat, tool: Text, input: seq<Member>, subject: Text, plan: ToolPlan,
      id: Text, secret: Text, ms: nat,
      d: nat, tool': Text, input': seq<Member>, subject': Text, plan': ToolPlan, id': Text, secret': Text)
    requires Inv(s, bond) && s.configured && c !in s.calls && d !in s.calls && c != d
    requires id !in s.seen && id' !in s.seen && id != id' && Minted(id, secret) && Minted(id', secret')
    requires Plain(Object(input)) && Get(input, CONFIRMATION_TOKEN).Undefined? && PlainPlan(plan) && plan.changes != []
    requires Plain(Object(input')) && PlainPlan(plan')
    requires Get(input', CONFIRMATION_TOKEN) == String(TokenText(id, secret))
    ensures
      var shown := RequestOf(tool, input, plan);
      var asked := RequestOf(tool', input', plan');
      var steps := DryRunSteps(c, tool, input, subject, plan, id, secret)
        + ([Tick(ms)] + ConfirmSteps(d, tool', input', subject', plan', id', secret'));
      && Legal(s, steps)
      && d in Run(s, steps).calls
      && (Run(s, steps).calls[d].phase == Finished(Applied) <==>
            ms < 120_000 && subject' == subject && SameRequest(shown, asked))
  {
    hide Legal, Run, DryRunSteps, ConfirmSteps, IdOf, TokenText, Minted, Inv, IssuedRow, SameRequest, DiffHash;
    hide Judge, PlainPlan, PlainRequest, Without, Get, RequestOf, Pending;
    DryRunShows(s, c, tool, input, subject, plan, id, secret);
    var dry := DryRunSteps(c, tool, input, subject, plan, id, secret);
    var t := Run(s, dry);
    var u := Next(t, Tick(ms));
    IssuedTokenNamesItsId(id, secret);
    NoneInserts(s, bond, id, u, c);
    RequestIsPlain(tool, input, plan);
    RequestIsPlain(tool', input', plan');
    RowOfIssue(MCP + tool, DiffHash(RequestOf(tool, input, plan)), subject, id, secret, s.clock);
    ConfirmIsJudged(u, d, tool', input', subject', plan', id', secret', TokenText(id, secret), id);
    var confirm := ConfirmSteps(d, tool', input', subject', plan', id', secret');
    Prefixed(t, Tick(ms), confirm);
    Appended(s, dry, [Tick(ms)] + confirm);
    JudgedOnIssue(MCP + tool, RequestOf(tool, input, plan), RequestOf(tool', input', plan'), subject, subject',
      id, secret, s.clock, u.clock);
  }

  lemma NoneInserts(s: State, bond: Bond, id: Text, t: State, c: nat)
    requires Inv(s, bond) && id !in s.seen
    requires t.calls.Keys == s.calls.Keys + {c} && t.calls[c].phase.Finished?
    requires forall d :: d in s.calls && d != c ==> t.calls[d] == s.calls[d]
    ensures !Pending(t, id)
  {
  }

  lemma RequestIsPlain(tool: Text, input: seq<Member>, plan: ToolPlan)
    requires Plain(Object(input)) && PlainPlan(plan)
    ensures PlainRequest(RequestOf(tool, input, plan))
  {
    WithoutStaysPlain(input, CONFIRMATION_TOKEN);
  }

  lemma {:induction false} Appended(s: State, first: seq<Step>, second: seq<Step>)
    requires Legal(s, first) && Legal(Run(s, first), second)
    ensures Legal(s, first + second) && Run(s, first + second) == Run(Run(s, first), second)
    decreases |first|
  {
    if first == [] {
      assert first + second == second;
    } else {
      Appended(Next(s, first[0]), first[1..], second);
      assert first + second == [first[0]] + (first[1..] + second);
      Prefixed(s, first[0], first[1..] + second);
    }
  }

  lemma JudgedOnIssue(operation: Text, shown: Request, asked: Request, subject: Text, subject': Text,
                      id: Text, secret: Text, issuedAt: int, now: int)
    requires PlainRequest(shown) && PlainRequest(asked)
    ensures
      var row := IssuedRow(operation, DiffHash(shown), subject, id, secret, issuedAt);
      Judge(Some(row), TokenText(id, secret), DiffHash(asked), subject', now).Accepted? <==>
        now < issuedAt + 120_000 && subject' == subject && SameRequest(shown, asked)
  {
    hide DiffHash, TokenText, SameRequest, PlainRequest;
    DiffHashDecidesRequest(shown, asked);
  }

  // ---------------------------------------------------------------------------------------------------------
  // Two SQL statements, one atomic operation.

  datatype StoreOp =
    | CreateOp(row: Row)
    | ConsumeOp(c: nat, id: Text, at: int, answer: Option<Row>)
    | DeleteOp(before: int)

  /** Where each operation takes effect: a won consume at its UPDATE, a lost one at its SELECT. */
  function OpsOf(s: State, step: Step): seq<StoreOp>
    requires step.Begin? || step.Planned? || CanProgress(s, step)
  {
    match step
    case InsertRow(c) => [CreateOp(s.calls[c].phase.row)]
    case UpdateRow(c) =>
      var job := s.calls[c].phase.job;
      if Live(s.rows, job.id) then [ConsumeOp(c, job.id, job.at, Some(s.rows[job.id]))] else []
    case SelectRow(c) =>
      var job := s.calls[c].phase.job;
      [ConsumeOp(c, job.id, job.at, Find(s.rows, job.id))]
    case Expire(before) => [DeleteOp(before)]
    case _ => []
  }

  ghost function Ops(s: State, steps: seq<Step>): seq<StoreOp>
    requires Legal(s, steps)
    decreases |steps|
  {
    if steps == [] then [] else OpsOf(s, steps[0]) + Ops(Next(s, steps[0]), steps[1..])
  }

  /** The consumes among them. */
  function Consumes(ops: seq<StoreOp>): seq<StoreOp>
  {
    if ops == [] then [] else (if ops[0].ConsumeOp? then [ops[0]] else []) + Consumes(ops[1..])
  }

  /** The call a step belongs to; the two others belong to none. */
  function CallOf(step: Step): Option<nat>
  {
    match step
    case Tick(_) => None
    case Expire(_) => None
    case Begin(c, _, _, _) => Some(c)
    case Planned(c, _, _, _) => Some(c)
    case InsertRow(c) => Some(c)
    case UpdateRow(c) => Some(c)
    case SelectRow(c) => Some(c)
    case Resume(c) => Some(c)
    case Interrupt(c) => Some(c)
  }

  predicate HasAnswer(s: State, c: nat) { c in s.calls && s.calls[c].phase.Resuming? }

  /** The answer a call is about to be judged on, as the consume that gave it. */
  function AnswerOf(s: State, c: nat): StoreOp
    requires HasAnswer(s, c)
  {
    var p := s.calls[c].phase;
    ConsumeOp(c, p.job.id, p.job.at, p.found)
  }

  /** What a step tells its call: the answer the call now holds to resume with, and did not hold before. */
  function TellsOf(s: State, step: Step, t: State): seq<StoreOp>
  {
    match CallOf(step)
    case None => []
    case Some(c) =>
      if HasAnswer(t, c) && !HasAnswer(s, c) then [AnswerOf(t, c)] else []
  }

  /** Every answer that any call came to hold in a run, in order. */
  ghost function Told(s: State, steps: seq<Step>): seq<StoreOp>
    requires Legal(s, steps)
    decreases |steps|
  {
    if steps == [] then []
    else
      var t := Next(s, steps[0]);
      TellsOf(s, steps[0], t) + Told(t, steps[1..])
  }

  /** A step moves no call but its own, so an answer once held is the one the call is judged on. */
  lemma OnlyItsCallMoves(s: State, step: Step, d: nat)
    requires Enabled(s, step) && CallOf(step) != Some(d)
    ensures d in Next(s, step).calls <==> d in s.calls
    ensures d in s.calls ==> Next(s, step).calls[d] == s.calls[d]
  {
    hide Judge, DiffHash, AfterPlan, NewCall;
    match step
    case Begin(_, _, _, _) =>
    case Planned(_, _, _, _) =>
    case Resume(_) =>
    case _ =>
  }

  /** What a step tells its call is the answer of the consume that takes effect in it. */
  lemma TellsWhatTookEffect(s: State, step: Step)
    requires Enabled(s, step)
    ensures TellsOf(s, step, Next(s, step)) == Consumes(OpsOf(s, step))
  {
    hide Judge, DiffHash, IdOf, TokenText;
    match step
    case Begin(_, _, _, _) =>
    case Planned(_, _, _, _) =>
    case Resume(_) =>
    case _ =>
  }

  lemma AtMostOneOp(s: State, step: Step)
    requires Enabled(s, step)
    ensures |OpsOf(s, step)| <= 1
  {
  }

  lemma ConsumesPrepend(op: StoreOp, ops: seq<StoreOp>)
    ensures Consumes([op] + ops) == Consumes([op]) + Consumes(ops)
  {
    assert ([op] + ops)[1..] == ops && [op][1..] == [];
  }

  lemma {:induction false} ToldIsConsumed(s: State, steps: seq<Step>)
    requires Legal(s, steps)
    ensures Told(s, steps) == Consumes(Ops(s, steps))
    decreases |steps|
  {
    hide OpsOf, TellsOf, Next;
    if steps != [] {
      TellsWhatTookEffect(s, steps[0]);
      ToldIsConsumed(Next(s, steps[0]), steps[1..]);
      var first, rest := OpsOf(s, steps[0]), Ops(Next(s, steps[0]), steps[1..]);
      AtMostOneOp(s, steps[0]);
      if first == [] {
        assert first + rest == rest;
      } else {
        assert first == [first[0]];
        ConsumesPrepend(first[0], rest);
      }
    }
  }

  /** An answer once held stays as it is until the call goes on. */
  lemma StepKeepsAnswer(s: State, step: Step, c: nat)
    requires Enabled(s, step) && HasAnswer(s, c) && HasAnswer(Next(s, step), c)
    ensures AnswerOf(Next(s, step), c) == AnswerOf(s, c)
  {
    hide Judge, DiffHash, AfterPlan, NewCall;
    match step
    case Begin(_, _, _, _) =>
    case Planned(_, _, _, _) =>
    case Resume(_) =>
    case _ =>
  }

  lemma {:induction false} HeldAnswerWasTold(s: State, steps: seq<Step>, c: nat)
    requires Legal(s, steps) && HasAnswer(Run(s, steps), c)
    ensures
      || (HasAnswer(s, c) && AnswerOf(Run(s, steps), c) == AnswerOf(s, c))
      || AnswerOf(Run(s, steps), c) in Told(s, steps)
    decreases |steps|
  {
    hide Next, AnswerOf, HasAnswer, Enabled;
    if steps != [] {
      var t := Next(s, steps[0]);
      HeldAnswerWasTold(t, steps[1..], c);
      if HasAnswer(t, c) {
        if HasAnswer(s, c) { StepKeepsAnswer(s, steps[0], c); } else { AnswerIsTold(s, steps[0], c); }
      }
    }
  }

  lemma AnswerIsTold(s: State, step: Step, c: nat)
    requires Enabled(s, step) && HasAnswer(Next(s, step), c) && !HasAnswer(s, c)
    ensures AnswerOf(Next(s, step), c) in TellsOf(s, step, Next(s, step))
  {
    hide Next, AnswerOf, Enabled;
    if CallOf(step) != Some(c) { OnlyItsCallMoves(s, step, c); }
  }

  lemma {:induction false} ConsumesAreOps(ops: seq<StoreOp>)
    ensures forall op <- Consumes(ops) :: op in ops
  {
    if ops != [] { ConsumesAreOps(ops[1..]); }
  }

  /**
   In every run, what a call is judged on when it resumes is the answer of a consume of its own in the replayed
   list, and the call executes exactly when that answer is accepted.
  */
  lemma EveryAnswerIsReplayed(clock: int, configured: bool, steps: seq<Step>, c: nat)
    requires Legal(Start(clock, configured), steps) && Enabled(Run(Start(clock, configured), steps), Resume(c))
    ensures
      var s := Run(Start(clock, configured), steps);
      var p := s.calls[c].phase;
      && ConsumeOp(c, p.job.id, p.job.at, p.found) in Ops(Start(clock, configured), steps)
      && (Next(s, Resume(c)).calls[c].phase == Finished(Applied) <==>
            Judge(p.found, p.job.token, p.job.hash, s.calls[c].subject, p.job.at).Accepted?)
  {
    hide Judge, Legal, Run, Ops, Told, Consumes;
    var start := Start(clock, configured);
    HeldAnswerWasTold(start, steps, c);
    ToldIsConsumed(start, steps);
    ConsumesAreOps(Ops(start, steps));
  }

  /** How many of these consumes of an id answered with a row not consumed before. */
  function WinsOf(ops: seq<StoreOp>, id: Text): nat
  {
    if ops == [] then 0
    else
      (if ops[0].ConsumeOp? && ops[0].id == id && Wins(ops[0].answer) then 1 else 0) + WinsOf(ops[1..], id)
  }

  /** One step tells of a win only where its id was never attempted, and then it has been. */
  lemma StepWinsOnce(s: State, step: Step, id: Text)
    requires AttemptsBurn(s) && Enabled(s, step)
    ensures
      var won := WinsOf(TellsOf(s, step, Next(s, step)), id);
      won == 0 || (won == 1 && id !in s.first && id in Next(s, step).first)
  {
    hide Judge, DiffHash, IdOf, TokenText, TellsOf;
    TellsWhatTookEffect(s, step);
    match step
    case UpdateRow(_) =>
    case SelectRow(_) =>
    case Begin(_, _, _, _) =>
    case Planned(_, _, _, _) =>
    case _ =>
  }

  lemma WinsPrepend(op: StoreOp, ops: seq<StoreOp>, id: Text)
    ensures WinsOf([op] + ops, id) == WinsOf([op], id) + WinsOf(ops, id)
  {
    assert ([op] + ops)[1..] == ops && [op][1..] == [];
  }

  lemma OneOpIsTold(s: State, step: Step)
    requires Enabled(s, step)
    ensures |TellsOf(s, step, Next(s, step))| <= 1
  {
    hide Next, Enabled;
  }

  /**
   In any run at most one call is ever told, for an id, of a row that was not consumed; and none is when some
   attempt on the id has been made already.
  */
  lemma {:induction false} AtMostOneWins(s: State, steps: seq<Step>, id: Text, bond: Bond)
    requires Inv(s, bond) && Computed(bond) && Legal(s, steps)
    ensures WinsOf(Told(s, steps), id) <= if id in s.first then 0 else 1
    decreases |steps|
  {
    hide Next, TellsOf, Computed, Enabled, AttemptsBurn;
    if steps != [] {
      var t := Next(s, steps[0]);
      var first, rest := TellsOf(s, steps[0], t), Told(t, steps[1..]);
      StepKeepsInv(s, steps[0], bond);
      StepWinsOnce(s, steps[0], id);
      if id in s.first { FirstIsKept(s, steps[0], id); }
      AtMostOneWins(t, steps[1..], id, bond);
      OneOpIsTold(s, steps[0]);
      if first == [] {
        assert first + rest == rest;
      } else {
        assert first == [first[0]];
        WinsPrepend(first[0], rest, id);
      }
    }
  }

  /** The in-memory store, given these operations one after the other, gives these answers and ends with `after`. */
  ghost predicate Replays(rows: Rows, ops: seq<StoreOp>, after: Rows)
    decreases |ops|
  {
    if ops == [] then rows == after
    else
      match ops[0]
      case CreateOp(row) => Replays(rows[row.id := row], ops[1..], after)
      case ConsumeOp(_, id, at, answer) =>
        Consume(rows, id, at).1 == answer && Replays(Consume(rows, id, at).0, ops[1..], after)
      case DeleteOp(before) => Replays(DeleteExpired(rows, before), ops[1..], after)
  }

  lemma ReplaysNext(rows: Rows, op: StoreOp, ops: seq<StoreOp>, after: Rows)
    ensures ([op] + ops)[0] == op && ([op] + ops)[1..] == ops
  {
  }

  lemma ProgressReplays(s: State, step: Step, ops: seq<StoreOp>, after: Rows)
    requires AttemptsBurn(s) && CanProgress(s, step)
    requires Replays(Progress(s, step).rows, ops, after)
    ensures Replays(s.rows, OpsOf(s, step) + ops, after)
  {
    match step
    case InsertRow(c) => ReplaysNext(s.rows, OpsOf(s, step)[0], ops, after);
    case UpdateRow(c) =>
      var job := s.calls[c].phase.job;
      if Live(s.rows, job.id) {
        ReplaysNext(s.rows, OpsOf(s, step)[0], ops, after);
      } else {
        assert OpsOf(s, step) + ops == ops;
      }
    case SelectRow(c) =>
      var job := s.calls[c].phase.job;
      ReplaysNext(s.rows, OpsOf(s, step)[0], ops, after);
      assert Consume(s.rows, job.id, job.at).0 == s.rows;
    case Expire(before) => ReplaysNext(s.rows, OpsOf(s, step)[0], ops, after);
    case Tick(_) => assert OpsOf(s, step) + ops == ops;
    case Resume(_) => assert OpsOf(s, step) + ops == ops;
    case Interrupt(_) => assert OpsOf(s, step) + ops == ops;
    case _ =>
  }

  lemma StepReplays(s: State, step: Step, ops: seq<StoreOp>, after: Rows)
    requires AttemptsBurn(s) && Enabled(s, step)
    requires Replays(Next(s, step).rows, ops, after)
    ensures Replays(s.rows, OpsOf(s, step) + ops, after)
  {
    match step
    case Begin(_, _, _, _) => assert OpsOf(s, step) + ops == ops;
    case Planned(_, _, _, _) => assert OpsOf(s, step) + ops == ops;
    case _ => ProgressReplays(s, step, ops, after);
  }

  lemma {:induction false} RunReplays(s: State, steps: seq<Step>, bond: Bond)
    requires Inv(s, bond) && Computed(bond) && Legal(s, steps)
    ensures Replays(s.rows, Ops(s, steps), Run(s, steps).rows)
    decreases |steps|
  {
    if steps != [] {
      var next := Next(s, steps[0]);
      StepKeepsInv(s, steps[0], bond);
      RunReplays(next, steps[1..], bond);
      StepReplays(s, steps[0], Ops(next, steps[1..]), Run(next, steps[1..]).rows);
    }
  }

  /**
   The two-statement consume is linearizable: whatever interleaves, the answers that the calls are told, in order,
   are those the in-memory store gives to the same operations in the order they took effect.
  */
  lemma SqlStoreRefinesMemoryStore(s: State, steps: seq<Step>, bond: Bond)
    requires Inv(s, bond) && Computed(bond) && Legal(s, steps)
    ensures Replays(s.rows, Ops(s, steps), Run(s, steps).rows)
    ensures Told(s, steps) == Consumes(Ops(s, steps))
  {
    hide Inv;
    RunReplays(s, steps, bond);
    ToldIsConsumed(s, steps);
  }

  /**
   Why an id must not be presented before its row exists: an UPDATE that finds no row, followed by the INSERT and
   then the SELECT, answers with a live row. The verification is accepted and nothing has been consumed.
  */
  lemma EarlyPresentationIsNotConsumed(
      rows: Rows, operation: Text, diffHash: Digest, subject: Text, id: Text, secret: Text, issuedAt: int, now: int)
    requires id !in rows && now < issuedAt + 120_000
    ensures
      var row := IssuedRow(operation, diffHash, subject, id, secret, issuedAt);
      var (missed, won) := Update(rows, id, now);
      var inserted := missed[id := row];
      && won.None?
      && Judge(Find(inserted, id), TokenText(id, secret), diffHash, subject, now) == Accepted(row)
      && Live(inserted, id)
  {
  }
}
