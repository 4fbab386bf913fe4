/**
 What each call of a write tool is told, stated on the fields of the call itself: when a plan leads nowhere, when it
 leads to a token, and that a call says it applied a plan exactly when it executed one.
*/
module Outcomes {
  import opened Texts
  import opened Json
  import opened Hashing
  import opened Confirmation
  import opened Plans
  import opened Protocol

  /** A call presents the id its token names, when its token is a string that names one. */
  ghost predicate PresentsItsToken(call: Call)
  {
    call.presents == if call.token.String? then IdOf(call.token.units) else None
  }

  ghost predicate IsExecutionOf(e: Event, c: nat) { e.Execute? && e.call == c }

  ghost predicate Executed(log: seq<Event>, c: nat)
  {
    exists k :: 0 <= k < |log| && IsExecutionOf(log[k], c)
  }

  ghost predicate SaysApplied(s: State, c: nat)
  {
    c in s.calls && s.calls[c].phase == Finished(Applied)
  }

  /** What every reachable state satisfies. */
  ghost predicate Honest(s: State)
  {
    && (forall c :: c in s.calls ==> PresentsItsToken(s.calls[c]))
    && (forall c :: SaysApplied(s, c) <==> Executed(s.log, c))
  }

  // ---------------------------------------------------------------------------------------------------------
  // One step at a time.

  /** A call begins with what it was asked: its token apart, every other argument kept. */
  lemma BeginsAsAsked(s: State, c: nat, tool: Text, input: seq<Member>, subject: Text)
    requires Enabled(s, Begin(c, tool, input, subject))
    ensures c in Next(s, Begin(c, tool, input, subject)).calls
    ensures
      var call := Next(s, Begin(c, tool, input, subject)).calls[c];
      && call.tool == tool && call.subject == subject && call.phase == Planning
      && call.token == Get(input, CONFIRMATION_TOKEN) && PresentsItsToken(call)
      && call.arguments.Object?
      && (forall m :: m in call.arguments.members <==> m in input && m.key != CONFIRMATION_TOKEN)
    ensures
      var t := Next(s, Begin(c, tool, input, subject));
      t.rows == s.rows && t.log == s.log && t.clock == s.clock && t.configured == s.configured
  {
    hide IdOf;
  }

  /**
   What the resolution of a plan does to its call, outcome by outcome. Without a token: nothing to do when the plan
   changes nothing, a row to insert when it does and there is a service. With one: a verification to make when it is
   a string that names an id and there is a service. And what refuses it in every other case.
  */
  lemma PlannedOutcomes(s: State, c: nat, plan: ToolPlan, id: Text, secret: Text)
    requires Enabled(s, Planned(c, plan, id, secret)) && PresentsItsToken(s.calls[c])
    ensures c in Next(s, Planned(c, plan, id, secret)).calls
    ensures
      var call, phase := s.calls[c], Next(s, Planned(c, plan, id, secret)).calls[c].phase;
      && Next(s, Planned(c, plan, id, secret)).calls[c] == call.(phase := phase)
      && (phase == Finished(NothingToDo) <==> call.token.Undefined? && plan.changes == [])
      && (phase == Finished(Refused(NoConfirmationService)) <==>
            !s.configured && ((call.token.Undefined? && plan.changes != []) || call.token.String?))
      && (phase == Finished(Refused(NotAString)) <==> !call.token.Undefined? && !call.token.String?)
      && (phase == Finished(Refused(Unconfirmed(Malformed))) <==>
            call.token.String? && s.configured && IdOf(call.token.units).None?)
      && (phase.Inserting? <==> call.token.Undefined? && plan.changes != [] && s.configured)
      && (phase.Updating? <==> call.token.String? && s.configured && IdOf(call.token.units).Some?)
      && (phase.Inserting? || phase.Updating?
          || phase in {Finished(NothingToDo), Finished(Refused(NoConfirmationService)),
                       Finished(Refused(NotAString)), Finished(Refused(Unconfirmed(Malformed)))})
  {
    hide IdOf, DiffHash, TokenText, IssuedRow;
  }

  /** The row a dry run inserts, field by field, and the verification a token asks for. */
  lemma PlannedFields(s: State, c: nat, plan: ToolPlan, id: Text, secret: Text)
    requires Enabled(s, Planned(c, plan, id, secret)) && PresentsItsToken(s.calls[c])
    ensures c in Next(s, Planned(c, plan, id, secret)).calls
    ensures
      var call, phase := s.calls[c], Next(s, Planned(c, plan, id, secret)).calls[c].phase;
      phase.Inserting? ==>
        && phase.request == Request(call.tool, call.arguments, plan)
        && phase.token == PREFIX + id + [DOT] + secret
        && phase.row.id == id && phase.row.subject == call.subject
        && phase.row.operation == MCP + call.tool
        && phase.row.diffHash == DiffHash(phase.request)
        && phase.row.fingerprint == Sha256(phase.token)
        && phase.row.issuedAt == s.clock && phase.row.expiresAt == s.clock + 120_000
        && phase.row.consumedAt.None?
    ensures
      var call, phase := s.calls[c], Next(s, Planned(c, plan, id, secret)).calls[c].phase;
      phase.Updating? ==>
        && phase.job.request == Request(call.tool, call.arguments, plan)
        && phase.job.hash == DiffHash(phase.job.request)
        && call.token.String? && Some(phase.job.id) == IdOf(call.token.units) && phase.job.token == call.token.units
        && phase.job.at == s.clock
    ensures
      var t := Next(s, Planned(c, plan, id, secret));
      t.rows == s.rows && t.log == s.log && t.clock == s.clock && t.first == s.first
  {
    hide IdOf, DiffHash;
  }

  /** An inserted row ends the dry run, which shows its token. */
  lemma InsertedIsShown(s: State, c: nat)
    requires Enabled(s, InsertRow(c))
    ensures
      var t, p := Next(s, InsertRow(c)), s.calls[c].phase;
      && c in t.calls && t.calls[c] == s.calls[c].(phase := Finished(Shown(p.token)))
      && t.rows == s.rows[p.row.id := p.row]
      && t.log == s.log + [DryRun(p.request, p.row, p.token)]
  {
  }

  /** A statement of a verification never ends the call: it waits for the other one, or to resume. */
  lemma StatementsEndNothing(s: State, step: Step)
    requires Enabled(s, step) && (step.UpdateRow? || step.SelectRow?)
    ensures
      var t, c := Next(s, step), step.c;
      && c in t.calls && t.log == s.log
      && (step.SelectRow? ==> t.calls[c].phase == Resuming(s.calls[c].phase.job, Find(s.rows, s.calls[c].phase.job.id)))
      && (step.UpdateRow? ==>
            var job := s.calls[c].phase.job;
            t.calls[c].phase ==
              if job.id in s.rows && s.rows[job.id].consumedAt.None? then Resuming(job, Some(s.rows[job.id]))
              else Selecting(job))
  {
  }

  /** A call that resumes is refused for exactly the reason its answer is rejected for, or has applied its plan. */
  lemma ResumedOutcomes(s: State, c: nat)
    requires Enabled(s, Resume(c))
    ensures
      var t, call := Next(s, Resume(c)), s.calls[c];
      var p := call.phase;
      var verdict := Judge(p.found, p.job.token, p.job.hash, call.subject, p.job.at);
      && c in t.calls
      && (forall r :: (t.calls[c].phase == Finished(Refused(Unconfirmed(r))) <==> verdict == Rejected(r)))
      && (t.calls[c].phase == Finished(Applied) <==> verdict.Accepted?)
      && t.log == (if verdict.Accepted? then s.log + [Execute(c, p.job, call.subject)] else s.log)
      && t.rows == s.rows
  {
    hide Judge;
  }

  /** A call interrupted says so, and nothing else moves. */
  lemma InterruptedSaysSo(s: State, c: nat)
    requires Enabled(s, Interrupt(c))
    ensures
      var t := Next(s, Interrupt(c));
      && c in t.calls && t.calls[c] == s.calls[c].(phase := Finished(Refused(Interrupted)))
      && t.log == s.log && t.rows == s.rows
  {
  }

  // ---------------------------------------------------------------------------------------------------------
  // Every run.

  /** What a step leaves in the log: at most an execution by its own call, exactly when that says it applied. */
  ghost predicate LogsOwn(s: State, step: Step, t: State)
  {
    && |s.log| <= |t.log| <= |s.log| + 1 && s.log <= t.log
    && (|t.log| == |s.log| + 1 && t.log[|s.log|].Execute? ==>
          CallOf(step) == Some(t.log[|s.log|].call) && SaysApplied(t, t.log[|s.log|].call))
    && (CallOf(step).Some? ==>
          var c := CallOf(step).value;
          && !SaysApplied(s, c)
          && (SaysApplied(t, c) ==> |t.log| == |s.log| + 1 && IsExecutionOf(t.log[|s.log|], c)))
  }

  lemma StepLogsOwn(s: State, step: Step)
    requires Honest(s) && Enabled(s, step)
    ensures LogsOwn(s, step, Next(s, step))
  {
    hide Judge, DiffHash, IdOf, TokenText, AfterPlan, NewCall, PresentsItsToken, Executed;
    match step
    case Begin(c, tool, input, subject) => BeginsAsAsked(s, c, tool, input, subject);
    case Planned(c, plan, id, secret) =>
      PlannedOutcomes(s, c, plan, id, secret);
      PlannedFields(s, c, plan, id, secret);
    case Resume(c) => ResumedOutcomes(s, c);
    case _ =>
  }

  lemma ExecutedGrows(s: State, step: Step, c: nat)
    requires Honest(s) && Enabled(s, step) && LogsOwn(s, step, Next(s, step))
    ensures SaysApplied(Next(s, step), c) <==> Executed(Next(s, step).log, c)
  {
    hide Next, Enabled, PresentsItsToken;
    var t := Next(s, step);
    if CallOf(step) != Some(c) { OnlyItsCallMoves(s, step, c); }
    if Executed(s.log, c) {
      var k :| 0 <= k < |s.log| && IsExecutionOf(s.log[k], c);
      assert IsExecutionOf(t.log[k], c);
    }
    if Executed(t.log, c) {
      var k :| 0 <= k < |t.log| && IsExecutionOf(t.log[k], c);
      if k < |s.log| { assert IsExecutionOf(s.log[k], c); }
    }
  }

  lemma StepKeepsPresents(s: State, step: Step, c: nat)
    requires Honest(s) && Enabled(s, step) && c in Next(s, step).calls
    ensures PresentsItsToken(Next(s, step).calls[c])
  {
    hide Judge, DiffHash, IdOf, TokenText, AfterPlan, NewCall, Executed, SaysApplied;
    if CallOf(step) != Some(c) {
      OnlyItsCallMoves(s, step, c);
    } else {
      match step
      case Begin(_, tool, input, subject) => BeginsAsAsked(s, c, tool, input, subject);
      case Planned(_, plan, id, secret) =>
      case Resume(_) =>
      case _ =>
    }
  }

  lemma StepKeepsHonest(s: State, step: Step)
    requires Honest(s) && Enabled(s, step)
    ensures Honest(Next(s, step))
  {
    hide Next, Enabled, SaysApplied, Executed, PresentsItsToken, LogsOwn;
    StepLogsOwn(s, step);
    forall c ensures SaysApplied(Next(s, step), c) <==> Executed(Next(s, step).log, c) {
      ExecutedGrows(s, step, c);
    }
    forall c | c in Next(s, step).calls ensures PresentsItsToken(Next(s, step).calls[c]) {
      StepKeepsPresents(s, step, c);
    }
  }

  lemma {:induction false} RunKeepsHonest(s: State, steps: seq<Step>)
    requires Honest(s) && Legal(s, steps)
    ensures Honest(Run(s, steps))
    decreases |steps|
  {
    hide Honest, Next, Enabled;
    if steps != [] {
      StepKeepsHonest(s, steps[0]);
      RunKeepsHonest(Next(s, steps[0]), steps[1..]);
    }
  }

  /** In every run, a call says that it applied its plan exactly when it executed one. */
  lemma AppliedIsExecuted(clock: int, configured: bool, steps: seq<Step>, c: nat)
    requires Legal(Start(clock, configured), steps)
    ensures
      var s := Run(Start(clock, configured), steps);
      c in s.calls && s.calls[c].phase == Finished(Applied) <==>
        exists k :: 0 <= k < |s.log| && s.log[k].Execute? && s.log[k].call == c
  {
    hide Legal, Run;
    var start := Start(clock, configured);
    assert Honest(start);
    RunKeepsHonest(start, steps);
    var s := Run(start, steps);
    assert SaysApplied(s, c) <==> Executed(s.log, c);
    if k :| 0 <= k < |s.log| && s.log[k].Execute? && s.log[k].call == c {
      assert IsExecutionOf(s.log[k], c);
    }
  }

  /** And in every run the resolution of a plan comes out as `PlannedOutcomes` says. */
  lemma PresentsInEveryRun(clock: int, configured: bool, steps: seq<Step>, c: nat)
    requires Legal(Start(clock, configured), steps) && c in Run(Start(clock, configured), steps).calls
    ensures PresentsItsToken(Run(Start(clock, configured), steps).calls[c])
  {
    hide Legal, Run;
    assert Honest(Start(clock, configured));
    RunKeepsHonest(Start(clock, configured), steps);
  }
}
