/**
 The kill switch: one row in the store, a two-second cache in every replica, and calls that race with each other
 at every `await`.
*/
module WriteSwitch {
  import opened Texts

  datatype Mode = Outward | All

  datatype Switch = Switch(
    engaged: bool, mode: Mode, changedAt: Option<int>, changedBy: Option<Text>, reason: Option<Text>)

  const RELEASED := Switch(false, Outward, None, None, None)
  const CACHE_TTL_MS := 2_000
  const RELEASED_REASON: Text := [0x72, 0x65, 0x6C, 0x65, 0x61, 0x73, 0x65, 0x64]  // released

  /** What `engage` and `release` ask the store to hold. */
  datatype Change = Engage(mode: Mode, actor: Text, reason: Text) | Release(actor: Text)

  function RecordOf(change: Change, now: int): Switch
  {
    match change
    case Engage(mode, actor, reason) => Switch(true, mode, Some(now), Some(actor), Some(reason))
    case Release(actor) => RELEASED.(changedAt := Some(now), changedBy := Some(actor), reason := Some(RELEASED_REASON))
  }

  /** The closure variables of one process. */
  datatype Replica = Replica(cached: Option<Switch>, readAt: int)

  /**
   Where a call is. `sample` is its own clock sample; an answered call also keeps what it returned, when, and
   whether its read of the store failed.
  */
  datatype Call =
    | Reading(replica: nat, sample: int)
    | HasRead(replica: nat, sample: int, value: Switch)
    | Answered(sample: int, value: Switch, doneAt: int, failed: bool)
    | Writing(replica: nat, sample: int, record: Switch)
    | HasWritten(replica: nat, sample: int, record: Switch)
    | Closed

  /** A value of the store's row and the instant it was written. */
  datatype Version = Version(at: int, value: Switch)

  datatype State = State(clock: int, versions: seq<Version>, replicas: map<nat, Replica>, calls: map<nat, Call>)

  datatype Step =
    | Tick(ms: nat)
    | Boot(replica: nat)
    | StartCurrent(c: nat, replica: nat)
    | ReadRow(c: nat)
    | ResumeRead(c: nat)
    | FailRead(c: nat)
    | StartChange(c: nat, replica: nat, change: Change)
    | WriteRow(c: nat)
    | ResumeChange(c: nat)
    | FailChange(c: nat)
    | EditRow(value: Switch)

  predicate Enabled(s: State, step: Step)
  {
    match step
    case Tick(_) => true
    case Boot(r) => true
    case StartCurrent(c, r) => c !in s.calls && r in s.replicas
    case ReadRow(c) => c in s.calls && s.calls[c].Reading?
    case ResumeRead(c) => c in s.calls && s.calls[c].HasRead? && s.calls[c].replica in s.replicas
    case FailRead(c) => c in s.calls && (s.calls[c].Reading? || s.calls[c].HasRead?) && s.calls[c].replica in s.replicas
    case StartChange(c, r, _) => c !in s.calls && r in s.replicas
    case WriteRow(c) => c in s.calls && s.calls[c].Writing?
    case ResumeChange(c) => c in s.calls && s.calls[c].HasWritten? && s.calls[c].replica in s.replicas
    case FailChange(c) => c in s.calls && (s.calls[c].Writing? || s.calls[c].HasWritten?)
    case EditRow(_) => true
  }

  function Next(s: State, step: Step): State
    requires Enabled(s, step) && s.versions != []
  {
    match step
    case Tick(ms) => s.(clock := s.clock + ms)
    case Boot(r) => s.(replicas := s.replicas[r := Replica(None, 0)])
    case StartCurrent(c, r) =>
      var replica := s.replicas[r];
      if replica.cached.Some? && s.clock - replica.readAt < CACHE_TTL_MS
      then s.(calls := s.calls[c := Answered(s.clock, replica.cached.value, s.clock, false)])
      else s.(calls := s.calls[c := Reading(r, s.clock)])
    case ReadRow(c) =>
      var call := s.calls[c];
      s.(calls := s.calls[c := HasRead(call.replica, call.sample, s.versions[|s.versions| - 1].value)])
    case ResumeRead(c) =>
      var call := s.calls[c];
      s.(replicas := s.replicas[call.replica := Replica(Some(call.value), call.sample)],
         calls := s.calls[c := Answered(call.sample, call.value, s.clock, false)])
    case FailRead(c) =>
      var call := s.calls[c];
      var cached := s.replicas[call.replica].cached;
      s.(calls := s.calls[c := Answered(call.sample, if cached.Some? then cached.value else RELEASED, s.clock, true)])
    case StartChange(c, r, change) => s.(calls := s.calls[c := Writing(r, s.clock, RecordOf(change, s.clock))])
    case WriteRow(c) =>
      var call := s.calls[c];
      s.(versions := s.versions + [Version(s.clock, call.record)],
         calls := s.calls[c := HasWritten(call.replica, call.sample, call.record)])
    case ResumeChange(c) =>
      var call := s.calls[c];
      s.(replicas := s.replicas[call.replica := Replica(Some(call.record), call.sample)], calls := s.calls[c := Closed])
    case FailChange(c) => s.(calls := s.calls[c := Closed])
    case EditRow(value) => s.(versions := s.versions + [Version(s.clock, value)])
  }

  /** The clock is past 1970, where a replica's `readAt` starts. */
  function Start(clock: nat, value: Switch): State
  {
    State(clock, [Version(clock, value)], map[], map[])
  }

  // ---------------------------------------------------------------------------------------------------------
  // What every step keeps.

  /** Version i was the store's value at some instant of [from, to]. */
  predicate HeldAt(versions: seq<Version>, i: int, value: Switch, from: int, to: int)
  {
    && 0 <= i < |versions| && versions[i].value == value
    && versions[i].at <= to
    && (i + 1 < |versions| ==> from <= versions[i + 1].at)
  }

  ghost predicate Held(versions: seq<Version>, value: Switch, from: int, to: int)
  {
    exists i :: HeldAt(versions, i, value, from, to)
  }

  /** What a call has read, written or answered is no older than it may be. */
  ghost predicate CallIsFresh(call: Call, versions: seq<Version>, clock: int)
  {
    match call
    case Reading(_, sample) => sample <= clock
    case HasRead(_, sample, value) => sample <= clock && Held(versions, value, sample, clock)
    case Writing(_, sample, _) => sample <= clock
    case HasWritten(_, sample, record) => sample <= clock && Held(versions, record, sample, clock)
    case Answered(sample, value, doneAt, failed) =>
      sample <= doneAt <= clock && (!failed ==> Held(versions, value, sample - CACHE_TTL_MS + 1, doneAt))
    case Closed => true
  }

  ghost predicate ReplicaIsFresh(r: Replica, versions: seq<Version>, clock: int)
  {
    r.readAt <= clock && (r.cached.Some? ==> Held(versions, r.cached.value, r.readAt, clock))
  }

  ghost predicate Inv(s: State)
  {
    && 0 <= s.clock && s.versions != []
    && (forall i :: 0 <= i < |s.versions| ==> s.versions[i].at <= s.clock)
    && (forall i, j :: 0 <= i < j < |s.versions| ==> s.versions[i].at <= s.versions[j].at)
    && (forall r :: r in s.replicas ==> ReplicaIsFresh(s.replicas[r], s.versions, s.clock))
    && (forall c :: c in s.calls ==> CallIsFresh(s.calls[c], s.versions, s.clock))
  }

  lemma HeldStays(versions: seq<Version>, value: Switch, from: int, to: int, added: Version, from': int, to': int)
    requires Held(versions, value, from, to) && from' <= from && to <= to' && from <= added.at
    ensures Held(versions, value, from', to') && Held(versions + [added], value, from', to')
  {
    var i :| HeldAt(versions, i, value, from, to);
    assert HeldAt(versions, i, value, from', to');
    assert HeldAt(versions + [added], i, value, from', to');
  }

  /** Time passing and the row being rewritten make nothing older than it was. */
  lemma FreshStays(call: Call, r: Replica, versions: seq<Version>, clock: int, value: Switch, later: int)
    requires clock <= later
    ensures CallIsFresh(call, versions, clock) ==> CallIsFresh(call, versions, later)
    ensures CallIsFresh(call, versions, clock) ==> CallIsFresh(call, versions + [Version(later, value)], later)
    ensures ReplicaIsFresh(r, versions, clock) ==> ReplicaIsFresh(r, versions, later)
    ensures ReplicaIsFresh(r, versions, clock) ==> ReplicaIsFresh(r, versions + [Version(later, value)], later)
  {
    hide Held;
    var added := Version(later, value);
    if CallIsFresh(call, versions, clock) {
      match call
      case HasRead(_, sample, v) => HeldStays(versions, v, sample, clock, added, sample, later);
      case HasWritten(_, sample, v) => HeldStays(versions, v, sample, clock, added, sample, later);
      case Answered(sample, v, doneAt, failed) =>
        if !failed {
          HeldStays(versions, v, sample - CACHE_TTL_MS + 1, doneAt, added, sample - CACHE_TTL_MS + 1, doneAt);
        }
      case _ =>
    }
    if ReplicaIsFresh(r, versions, clock) && r.cached.Some? {
      HeldStays(versions, r.cached.value, r.readAt, clock, added, r.readAt, later);
    }
  }

  lemma LastIsHeld(versions: seq<Version>, from: int, clock: int)
    requires versions != [] && versions[|versions| - 1].at <= clock
    ensures Held(versions, versions[|versions| - 1].value, from, clock)
  {
    assert HeldAt(versions, |versions| - 1, versions[|versions| - 1].value, from, clock);
  }

  lemma HeldWidens(versions: seq<Version>, value: Switch, from: int, to: int, from': int)
    requires Held(versions, value, from, to) && from' <= from
    ensures Held(versions, value, from', to)
  {
    var i :| HeldAt(versions, i, value, from, to);
    assert HeldAt(versions, i, value, from', to);
  }

  lemma TimeKeepsInv(s: State, later: int)
    requires Inv(s) && s.clock <= later
    ensures Inv(s.(clock := later))
  {
    hide CallIsFresh, ReplicaIsFresh;
    var any := RELEASED;
    forall c | c in s.calls ensures CallIsFresh(s.calls[c], s.versions, later) {
      FreshStays(s.calls[c], Replica(None, 0), s.versions, s.clock, any, later);
    }
    forall r | r in s.replicas ensures ReplicaIsFresh(s.replicas[r], s.versions, later) {
      FreshStays(Closed, s.replicas[r], s.versions, s.clock, any, later);
    }
  }

  lemma RewriteKeepsInv(s: State, value: Switch)
    requires Inv(s)
    ensures Inv(s.(versions := s.versions + [Version(s.clock, value)]))
  {
    hide CallIsFresh, ReplicaIsFresh;
    var versions := s.versions + [Version(s.clock, value)];
    forall c | c in s.calls ensures CallIsFresh(s.calls[c], versions, s.clock) {
      FreshStays(s.calls[c], Replica(None, 0), s.versions, s.clock, value, s.clock);
    }
    forall r | r in s.replicas ensures ReplicaIsFresh(s.replicas[r], versions, s.clock) {
      FreshStays(Closed, s.replicas[r], s.versions, s.clock, value, s.clock);
    }
  }

  lemma CallKeepsInv(s: State, c: nat, call: Call)
    requires Inv(s) && CallIsFresh(call, s.versions, s.clock)
    ensures Inv(s.(calls := s.calls[c := call]))
  {
    hide CallIsFresh, ReplicaIsFresh;
  }

  lemma ReplicaKeepsInv(s: State, r: nat, replica: Replica)
    requires Inv(s) && ReplicaIsFresh(replica, s.versions, s.clock)
    ensures Inv(s.(replicas := s.replicas[r := replica]))
  {
    hide CallIsFresh, ReplicaIsFresh;
  }

  lemma StepKeepsInv(s: State, step: Step)
    requires Inv(s) && Enabled(s, step)
    ensures Inv(Next(s, step))
  {
    hide Held;
    var t := Next(s, step);
    match step
    case Tick(ms) => TimeKeepsInv(s, s.clock + ms);
    case Boot(r) => ReplicaKeepsInv(s, r, Replica(None, 0));
    case StartCurrent(c, r) =>
      if t.calls[c].Answered? {
        HeldWidens(s.versions, s.replicas[r].cached.value, s.replicas[r].readAt, s.clock, s.clock - CACHE_TTL_MS + 1);
      }
      CallKeepsInv(s, c, t.calls[c]);
    case ReadRow(c) =>
      LastIsHeld(s.versions, s.calls[c].sample, s.clock);
      CallKeepsInv(s, c, t.calls[c]);
    case ResumeRead(c) =>
      var call := s.calls[c];
      HeldWidens(s.versions, call.value, call.sample, s.clock, call.sample - CACHE_TTL_MS + 1);
      CallKeepsInv(s, c, t.calls[c]);
      ReplicaKeepsInv(s.(calls := t.calls), call.replica, t.replicas[call.replica]);
    case FailRead(c) => CallKeepsInv(s, c, t.calls[c]);
    case StartChange(c, r, change) => CallKeepsInv(s, c, t.calls[c]);
    case WriteRow(c) =>
      RewriteKeepsInv(s, s.calls[c].record);
      LastIsHeld(t.versions, s.calls[c].sample, s.clock);
      CallKeepsInv(s.(versions := t.versions), c, t.calls[c]);
    case ResumeChange(c) =>
      CallKeepsInv(s, c, Closed);
      ReplicaKeepsInv(s.(calls := t.calls), s.calls[c].replica, t.replicas[s.calls[c].replica]);
    case FailChange(c) => CallKeepsInv(s, c, Closed);
    case EditRow(value) => RewriteKeepsInv(s, value);
  }

  // ---------------------------------------------------------------------------------------------------------
  // Every run.

  ghost predicate Legal(s: State, steps: seq<Step>)
    decreases |steps|
  {
    steps == [] || (s.versions != [] && Enabled(s, steps[0]) && Legal(Next(s, steps[0]), steps[1..]))
  }

  ghost function Run(s: State, steps: seq<Step>): State
    requires Legal(s, steps)
    decreases |steps|
  {
    if steps == [] then s else Run(Next(s, steps[0]), steps[1..])
  }

  lemma Prefixed(s: State, step: Step, rest: seq<Step>)
    requires s.versions != [] && Enabled(s, step) && Legal(Next(s, step), rest)
    ensures Legal(s, [step] + rest) && Run(s, [step] + rest) == Run(Next(s, step), rest)
  {
    assert ([step] + rest)[1..] == rest;
  }

  lemma NothingMore(s: State)
    ensures Legal(s, []) && Run(s, []) == s
  {
  }

  lemma {:induction false} RunKeepsInv(s: State, steps: seq<Step>)
    requires Inv(s) && Legal(s, steps)
    ensures Inv(Run(s, steps))
    decreases |steps|
  {
    if steps != [] {
      StepKeepsInv(s, steps[0]);
      RunKeepsInv(Next(s, steps[0]), steps[1..]);
    }
  }

  lemma StartIsInv(clock: nat, value: Switch)
    ensures Inv(Start(clock, value))
  {
  }

  /**
   Whatever interleaves, a `current` whose read did not fail returns a record the store held at an instant less
   than two seconds before the call's own clock sample, or later.
  */
  lemma AnswersAreFresh(clock: nat, value: Switch, steps: seq<Step>, c: nat)
    requires Legal(Start(clock, value), steps)
    requires c in Run(Start(clock, value), steps).calls && Run(Start(clock, value), steps).calls[c].Answered?
    ensures
      var s := Run(Start(clock, value), steps);
      !s.calls[c].failed ==>
        Held(s.versions, s.calls[c].value, s.calls[c].sample - 2_000 + 1, s.calls[c].doneAt)
  {
    RunKeepsInv(Start(clock, value), steps);
  }

  lemma NewestIsAnswered(s: State, c: nat)
    requires Inv(s) && c in s.calls && s.calls[c].Answered?
    ensures
      var newest := s.versions[|s.versions| - 1];
      !s.calls[c].failed && s.calls[c].sample >= newest.at + 2_000 ==> s.calls[c].value == newest.value
  {
    var call := s.calls[c];
    var last := |s.versions| - 1;
    if !call.failed && call.sample >= s.versions[last].at + 2_000 {
      var i :| HeldAt(s.versions, i, call.value, call.sample - CACHE_TTL_MS + 1, call.doneAt);
      if i < last {
        assert s.versions[i + 1].at <= s.versions[last].at;
      }
    }
  }

  /**
   So a change of the switch reaches everyone within two seconds: while a version stays the newest, every
   successful `current` on any replica that samples its clock two seconds or more after it was written returns it.
  */
  lemma ChangeReachesEveryReplica(clock: nat, value: Switch, steps: seq<Step>, c: nat)
    requires Legal(Start(clock, value), steps)
    requires c in Run(Start(clock, value), steps).calls && Run(Start(clock, value), steps).calls[c].Answered?
    ensures
      var s := Run(Start(clock, value), steps);
      s.versions != [] &&
      var newest := s.versions[|s.versions| - 1];
      !s.calls[c].failed && s.calls[c].sample >= newest.at + 2_000 ==> s.calls[c].value == newest.value
  {
    StartIsInv(clock, value);
    RunKeepsInv(Start(clock, value), steps);
    NewestIsAnswered(Run(Start(clock, value), steps), c);
  }

  lemma {:induction false} VersionsStay(s: State, steps: seq<Step>)
    requires Legal(s, steps)
    ensures s.versions <= Run(s, steps).versions
    decreases |steps|
  {
    if steps != [] { VersionsStay(Next(s, steps[0]), steps[1..]); }
  }

  /** Marked as failed are exactly the answers of calls whose read failed. */
  lemma {:induction false} FailedExactly(s: State, steps: seq<Step>, c: nat)
    requires Legal(s, steps) && c !in s.calls
    requires c in Run(s, steps).calls && Run(s, steps).calls[c].Answered?
    ensures Run(s, steps).calls[c].failed <==> FailRead(c) in steps
    decreases |steps|
  {
    hide Next, Enabled;
    if steps != [] {
      var t := Next(s, steps[0]);
      NotYetFailed(s, steps[0], c);
      if c in t.calls {
        FailedExactlyFrom(t, steps[1..], c);
      } else {
        FailedExactly(t, steps[1..], c);
      }
      assert steps == [steps[0]] + steps[1..];
    }
  }

  lemma NotYetFailed(s: State, step: Step, c: nat)
    requires s.versions != [] && Enabled(s, step) && c !in s.calls
    ensures step != FailRead(c)
    ensures c in Next(s, step).calls && Next(s, step).calls[c].Answered? ==> !Next(s, step).calls[c].failed
  {
  }

  /** An answered call takes no more steps; any other is failed by its `FailRead` and by nothing else. */
  lemma StepFailsExactly(s: State, step: Step, c: nat)
    requires s.versions != [] && Enabled(s, step) && c in s.calls
    ensures c in Next(s, step).calls
    ensures s.calls[c].Answered? ==> Next(s, step).calls[c] == s.calls[c] && step != FailRead(c)
    ensures !s.calls[c].Answered? && Next(s, step).calls[c].Answered? ==>
      (Next(s, step).calls[c].failed <==> step == FailRead(c))
    ensures step == FailRead(c) ==> Next(s, step).calls[c].Answered?
  {
  }

  lemma {:induction false} FailedExactlyFrom(s: State, steps: seq<Step>, c: nat)
    requires Legal(s, steps) && c in s.calls
    requires c in Run(s, steps).calls && Run(s, steps).calls[c].Answered?
    ensures Run(s, steps).calls[c].failed <==> FailRead(c) in steps || (s.calls[c].Answered? && s.calls[c].failed)
    decreases |steps|
  {
    hide Next, Enabled;
    if steps != [] {
      StepFailsExactly(s, steps[0], c);
      FailedExactlyFrom(Next(s, steps[0]), steps[1..], c);
      assert steps == [steps[0]] + steps[1..];
    }
  }

  // ---------------------------------------------------------------------------------------------------------
  // What a change of the switch leaves.

  /** The record says what the change asked for, as of the instant it was started. */
  ghost predicate Says(record: Switch, change: Change, startedAt: int)
  {
    && record.changedAt == Some(startedAt)
    && (change.Engage? ==>
          record.engaged && record.mode == change.mode && record.changedBy == Some(change.actor)
          && record.reason == Some(change.reason))
    && (change.Release? ==>
          !record.engaged && record.changedBy == Some(change.actor) && record.reason == Some(RELEASED_REASON))
  }

  /** A change on its way into the store, or out of it, is as it was when it was sent. */
  lemma StepKeepsChange(s: State, step: Step, c: nat)
    requires s.versions != [] && Enabled(s, step)
    requires c in s.calls && c in Next(s, step).calls
    requires s.calls[c].Writing? || s.calls[c].HasWritten?
    requires Next(s, step).calls[c].Writing? || Next(s, step).calls[c].HasWritten?
    ensures Next(s, step).calls[c].record == s.calls[c].record && Next(s, step).calls[c].sample == s.calls[c].sample
    ensures Next(s, step).calls[c].replica == s.calls[c].replica
  {
  }

  predicate Changing(s: State, c: nat) { c in s.calls && (s.calls[c].Writing? || s.calls[c].HasWritten?) }

  /** Once over or never begun as a change, a call is not one later. */
  lemma StepBeginsNoChange(s: State, step: Step, c: nat)
    requires s.versions != [] && Enabled(s, step) && c in s.calls && !Changing(s, c)
    ensures c in Next(s, step).calls && !Changing(Next(s, step), c)
  {
  }

  lemma {:induction false} RunBeginsNoChange(s: State, steps: seq<Step>, c: nat)
    requires Legal(s, steps) && c in s.calls && !Changing(s, c)
    ensures c in Run(s, steps).calls && !Changing(Run(s, steps), c)
    decreases |steps|
  {
    hide Next, Enabled, Changing;
    if steps != [] {
      StepBeginsNoChange(s, steps[0], c);
      RunBeginsNoChange(Next(s, steps[0]), steps[1..], c);
    }
  }

  lemma StepKeepsCall(s: State, step: Step, c: nat)
    requires s.versions != [] && Enabled(s, step) && c in s.calls
    ensures c in Next(s, step).calls
  {
  }

  lemma {:induction false} RunKeepsChange(s: State, steps: seq<Step>, c: nat)
    requires Legal(s, steps) && Changing(s, c) && Changing(Run(s, steps), c)
    ensures Run(s, steps).calls[c].record == s.calls[c].record
    ensures Run(s, steps).calls[c].replica == s.calls[c].replica
    ensures Run(s, steps).calls[c].sample == s.calls[c].sample
    decreases |steps|
  {
    hide Next, Enabled;
    if steps != [] {
      var t := Next(s, steps[0]);
      StepKeepsCall(s, steps[0], c);
      if Changing(t, c) {
        StepKeepsChange(s, steps[0], c);
        RunKeepsChange(t, steps[1..], c);
      } else {
        RunBeginsNoChange(t, steps[1..], c);
      }
    }
  }

  /**
   A change started at an instant leaves, whenever its row is written and whatever runs in between, a newest version
   that says what the change asked for, as of the instant it was started and written now.
  */
  lemma ChangeLands(s: State, c: nat, r: nat, change: Change, between: seq<Step>)
    requires s.versions != [] && Enabled(s, StartChange(c, r, change))
    requires Legal(Next(s, StartChange(c, r, change)), between)
    requires Enabled(Run(Next(s, StartChange(c, r, change)), between), WriteRow(c))
    requires Run(Next(s, StartChange(c, r, change)), between).versions != []
    ensures
      var u := Run(Next(s, StartChange(c, r, change)), between);
      var t := Next(u, WriteRow(c));
      && |t.versions| == |u.versions| + 1 && t.versions[..|u.versions|] == u.versions
      && t.versions[|u.versions|].at == u.clock && Says(t.versions[|u.versions|].value, change, s.clock)
      && c in t.calls && t.calls[c].HasWritten? && t.calls[c].record == t.versions[|u.versions|].value
      && t.calls[c].replica == r
  {
    hide Legal, Run;
    RunKeepsChange(Next(s, StartChange(c, r, change)), between, c);
  }

  /** And when the change resumes, its process has that very record cached, as of the change's own start. */
  lemma ChangeIsCached(s: State, c: nat, r: nat, change: Change, between: seq<Step>)
    requires s.versions != [] && Enabled(s, StartChange(c, r, change))
    requires Legal(Next(s, StartChange(c, r, change)), between)
    requires Enabled(Run(Next(s, StartChange(c, r, change)), between), ResumeChange(c))
    requires Run(Next(s, StartChange(c, r, change)), between).versions != []
    ensures
      var u := Run(Next(s, StartChange(c, r, change)), between);
      var t := Next(u, ResumeChange(c));
      && r in t.replicas && t.replicas[r].cached.Some? && Says(t.replicas[r].cached.value, change, s.clock)
      && t.replicas[r].readAt == s.clock && t.versions == u.versions
  {
    hide Legal, Run;
    RunKeepsChange(Next(s, StartChange(c, r, change)), between, c);
  }

  /** The run of a change: some steps, its start, more steps, its row written, and then whatever comes. */
  ghost predicate ChangeRun(clock: nat, value: Switch, before: seq<Step>, c: nat, r: nat, change: Change,
                            between: seq<Step>, after: seq<Step>)
  {
    Legal(Start(clock, value), before) &&
    var s := Run(Start(clock, value), before);
    s.versions != [] && Enabled(s, StartChange(c, r, change)) && Legal(Next(s, StartChange(c, r, change)), between) &&
    var u := Run(Next(s, StartChange(c, r, change)), between);
    u.versions != [] && Enabled(u, WriteRow(c)) && Legal(Next(u, WriteRow(c)), after)
  }

  /** The state when its row is written, and the state at the end. */
  ghost function Landed(clock: nat, value: Switch, before: seq<Step>, c: nat, r: nat, change: Change,
                        between: seq<Step>, after: seq<Step>): (State, State)
    requires ChangeRun(clock, value, before, c, r, change, between, after)
  {
    var s := Run(Start(clock, value), before);
    var landed := Next(Run(Next(s, StartChange(c, r, change)), between), WriteRow(c));
    (landed, Run(landed, after))
  }

  /**
   Two seconds after a change has landed, with nothing newer in the store, every successful `current` on any
   replica answers a record that says what the change asked for.
  */
  lemma LandedChangeIsAnswered(clock: nat, value: Switch, before: seq<Step>, c: nat, r: nat, change: Change,
                               between: seq<Step>, after: seq<Step>, d: nat)
    requires ChangeRun(clock, value, before, c, r, change, between, after)
    requires
      var (landed, end) := Landed(clock, value, before, c, r, change, between, after);
      && |end.versions| == |landed.versions|
      && d in end.calls && end.calls[d].Answered? && !end.calls[d].failed
      && end.calls[d].sample >= landed.clock + 2_000
    ensures
      var end := Landed(clock, value, before, c, r, change, between, after).1;
      Says(end.calls[d].value, change, Run(Start(clock, value), before).clock)
  {
    hide Legal, Run, Says, Inv;
    var s := Run(Start(clock, value), before);
    var begun := Next(s, StartChange(c, r, change));
    var u := Run(begun, between);
    var (landed, end) := Landed(clock, value, before, c, r, change, between, after);
    StartIsInv(clock, value);
    RunKeepsInv(Start(clock, value), before);
    StepKeepsInv(s, StartChange(c, r, change));
    RunKeepsInv(begun, between);
    StepKeepsInv(u, WriteRow(c));
    RunKeepsInv(landed, after);
    ChangeLands(s, c, r, change, between);
    VersionsStay(landed, after);
    InvHasVersions(end);
    NewestIsAnswered(end, d);
  }

  lemma InvHasVersions(s: State)
    requires Inv(s)
    ensures s.versions != []
  {
  }

  // ---------------------------------------------------------------------------------------------------------
  // A call left alone.

  /** A read of the switch can always go on: to the row, and then to an answer, which the process keeps. */
  lemma ReadGoesOn(s: State, c: nat, r: nat)
    requires s.versions != [] && c !in s.calls && r in s.replicas
    requires s.replicas[r].cached.None? || s.clock - s.replicas[r].readAt >= 2_000
    ensures
      var steps := [StartCurrent(c, r)] + ([ReadRow(c)] + ([ResumeRead(c)] + []));
      var newest := s.versions[|s.versions| - 1].value;
      && Legal(s, steps)
      && var t := Run(s, steps);
         && c in t.calls && t.calls[c] == Answered(s.clock, newest, s.clock, false)
         && r in t.replicas && t.replicas[r] == Replica(Some(newest), s.clock) && t.versions == s.versions
    ensures
      && Enabled(Next(s, StartCurrent(c, r)), FailRead(c))
      && Enabled(Next(Next(s, StartCurrent(c, r)), ReadRow(c)), FailRead(c))
  {
    hide Legal, Run;
    var s1 := Next(s, StartCurrent(c, r));
    var s2 := Next(s1, ReadRow(c));
    var s3 := Next(s2, ResumeRead(c));
    NothingMore(s3);
    Prefixed(s2, ResumeRead(c), []);
    Prefixed(s1, ReadRow(c), [ResumeRead(c)] + []);
    Prefixed(s, StartCurrent(c, r), [ReadRow(c)] + ([ResumeRead(c)] + []));
  }

  /** A change can always go on too, and may fail before or after its row is written. */
  lemma ChangeGoesOn(s: State, c: nat, r: nat, change: Change)
    requires s.versions != [] && c !in s.calls && r in s.replicas
    ensures
      var steps := [StartChange(c, r, change)] + ([WriteRow(c)] + ([ResumeChange(c)] + []));
      && Legal(s, steps)
      && var t := Run(s, steps);
         && |t.versions| == |s.versions| + 1 && t.versions[..|s.versions|] == s.versions
         && Says(t.versions[|s.versions|].value, change, s.clock)
         && r in t.replicas && t.replicas[r] == Replica(Some(t.versions[|s.versions|].value), s.clock)
    ensures
      && Enabled(Next(s, StartChange(c, r, change)), FailChange(c))
      && Enabled(Next(Next(s, StartChange(c, r, change)), WriteRow(c)), FailChange(c))
  {
    hide Legal, Run;
    var s1 := Next(s, StartChange(c, r, change));
    var s2 := Next(s1, WriteRow(c));
    var s3 := Next(s2, ResumeChange(c));
    NothingMore(s3);
    Prefixed(s2, ResumeChange(c), []);
    Prefixed(s1, WriteRow(c), [ResumeChange(c)] + []);
    Prefixed(s, StartChange(c, r, change), [WriteRow(c)] + ([ResumeChange(c)] + []));
  }

  /** A failed change is over: it moves no row and no cache, then or ever after. */
  lemma FailedChangeIsOver(s: State, c: nat, after: seq<Step>)
    requires s.versions != [] && Enabled(s, FailChange(c)) && Legal(Next(s, FailChange(c)), after)
    ensures Next(s, FailChange(c)).versions == s.versions && Next(s, FailChange(c)).replicas == s.replicas
    ensures
      var t := Run(Next(s, FailChange(c)), after);
      !Enabled(t, WriteRow(c)) && !Enabled(t, ResumeChange(c)) && !Enabled(t, FailChange(c))
  {
    hide Legal, Run;
    RunBeginsNoChange(Next(s, FailChange(c)), after, c);
  }

  // ---------------------------------------------------------------------------------------------------------
  // What a failed read answers.

  /** What a step does to whether a process has ever learned the switch: a read or a change of its own teaches it. */
  function Learns(s: State, step: Step, r: nat, knew: bool): bool
    requires Enabled(s, step)
  {
    match step
    case Boot(q) => if q == r then false else knew
    case ResumeRead(c) => knew || s.calls[c].replica == r
    case ResumeChange(c) => knew || s.calls[c].replica == r
    case _ => knew
  }

  /** Since it last started, the process has completed a read or a change of the switch. */
  ghost predicate HasLearned(s: State, steps: seq<Step>, r: nat, knew: bool)
    requires Legal(s, steps)
    decreases |steps|
  {
    if steps == [] then knew else HasLearned(Next(s, steps[0]), steps[1..], r, Learns(s, steps[0], r, knew))
  }

  predicate Knows(s: State, r: nat) { r in s.replicas && s.replicas[r].cached.Some? }

  /** A process has something cached exactly when it has learned it, and nothing but starting anew takes it away. */
  lemma {:induction false} CachedExactlyWhenLearned(s: State, steps: seq<Step>, r: nat)
    requires Legal(s, steps)
    ensures Knows(Run(s, steps), r) <==> HasLearned(s, steps, r, Knows(s, r))
    decreases |steps|
  {
    if steps != [] {
      assert Knows(Next(s, steps[0]), r) == Learns(s, steps[0], r, Knows(s, r));
      CachedExactlyWhenLearned(Next(s, steps[0]), steps[1..], r);
    }
  }

  /**
   In every run, a call whose read fails answers released only in a process that has learned nothing since it
   started; in any other it answers a record the store held at or after `readAt`, the clock sample of the read or
   change that the process has it from. And no process learns or forgets anything by it.
  */
  lemma FailedReadIsLastKnown(clock: nat, value: Switch, steps: seq<Step>, c: nat)
    requires Legal(Start(clock, value), steps)
    requires Enabled(Run(Start(clock, value), steps), FailRead(c))
    ensures
      var s := Run(Start(clock, value), steps);
      var r := s.calls[c].replica;
      s.versions != [] &&
      var t := Next(s, FailRead(c));
      && t.calls[c].Answered? && t.replicas == s.replicas
      && (!HasLearned(Start(clock, value), steps, r, false) ==> t.calls[c].value == RELEASED)
      && (HasLearned(Start(clock, value), steps, r, false) ==>
            Held(t.versions, t.calls[c].value, s.replicas[r].readAt, t.calls[c].doneAt))
  {
    hide Legal, Run, HasLearned, Held;
    StartIsInv(clock, value);
    RunKeepsInv(Start(clock, value), steps);
    var s := Run(Start(clock, value), steps);
    var r := s.calls[c].replica;
    CachedExactlyWhenLearned(Start(clock, value), steps, r);
    assert ReplicaIsFresh(s.replicas[r], s.versions, s.clock);
  }

  // ---------------------------------------------------------------------------------------------------------
  // The bound is reached.

  /** A process reads the switch, the row changes at once, and `ms` later the process is asked again. */
  function StaleSteps(changed: Switch, ms: nat): seq<Step>
  {
    [Boot(0)] + ([StartCurrent(0, 0)] + ([ReadRow(0)] + ([ResumeRead(0)]
      + ([EditRow(changed)] + ([Tick(ms)] + ([StartCurrent(1, 0)] + []))))))
  }

  /** The run of those steps, state by state: the second call is answered from the cache while that is young. */
  lemma StaleRun(clock: nat, value: Switch, changed: Switch, ms: nat)
    ensures
      var steps := StaleSteps(changed, ms);
      && Legal(Start(clock, value), steps)
      && var s := Run(Start(clock, value), steps);
         && s.versions == [Version(clock, value), Version(clock, changed)] && 1 in s.calls
         && s.calls[1] == if ms < 2_000 then Answered(clock + ms, value, clock + ms, false) else Reading(0, clock + ms)
  {
    hide Legal, Run, Enabled, Next;
    var s0 := Start(clock, value);
    var s1, s2, s3, s4 := StaleRead(clock, value);
    var b5, b6, b7 := EditRow(changed), Tick(ms), StartCurrent(1, 0);
    var s5, s6, s7 := StaleAsk(s4, clock, value, changed, ms);
    NothingMore(s7);
    Prefixed(s6, b7, []);
    Prefixed(s5, b6, [b7] + []);
    Prefixed(s4, b5, [b6] + ([b7] + []));
    Prefixed(s3, ResumeRead(0), [b5] + ([b6] + ([b7] + [])));
    Prefixed(s2, ReadRow(0), [ResumeRead(0)] + ([b5] + ([b6] + ([b7] + []))));
    Prefixed(s1, StartCurrent(0, 0), [ReadRow(0)] + ([ResumeRead(0)] + ([b5] + ([b6] + ([b7] + [])))));
    Prefixed(s0, Boot(0), [StartCurrent(0, 0)] + ([ReadRow(0)] + ([ResumeRead(0)] + ([b5] + ([b6] + ([b7] + []))))));
  }

  lemma StaleRead(clock: nat, value: Switch) returns (s1: State, s2: State, s3: State, s4: State)
    ensures
      var s0 := Start(clock, value);
      && s0.versions == s1.versions == s2.versions == s3.versions == s4.versions == [Version(clock, value)]
      && Enabled(s0, Boot(0)) && s1 == Next(s0, Boot(0))
      && Enabled(s1, StartCurrent(0, 0)) && s2 == Next(s1, StartCurrent(0, 0))
      && Enabled(s2, ReadRow(0)) && s3 == Next(s2, ReadRow(0))
      && Enabled(s3, ResumeRead(0)) && s4 == Next(s3, ResumeRead(0))
      && s4.clock == clock && 0 in s4.replicas && 1 !in s4.calls
      && s4.replicas[0] == Replica(Some(value), clock)
  {
    s1 := Next(Start(clock, value), Boot(0));
    s2 := Next(s1, StartCurrent(0, 0));
    s3 := Next(s2, ReadRow(0));
    s4 := Next(s3, ResumeRead(0));
  }

  lemma StaleAsk(s4: State, clock: nat, value: Switch, changed: Switch, ms: nat)
    returns (s5: State, s6: State, s7: State)
    requires s4.versions == [Version(clock, value)] && s4.clock == clock && 0 in s4.replicas && 1 !in s4.calls
    requires s4.replicas[0] == Replica(Some(value), clock)
    ensures
      && s5.versions == s6.versions == s7.versions == [Version(clock, value), Version(clock, changed)]
      && Enabled(s4, EditRow(changed)) && s5 == Next(s4, EditRow(changed))
      && Enabled(s5, Tick(ms)) && s6 == Next(s5, Tick(ms))
      && Enabled(s6, StartCurrent(1, 0)) && s7 == Next(s6, StartCurrent(1, 0)) && 1 in s7.calls
      && s7.calls[1] == if ms < 2_000 then Answered(clock + ms, value, clock + ms, false) else Reading(0, clock + ms)
  {
    s5 := Next(s4, EditRow(changed));
    s6 := Next(s5, Tick(ms));
    s7 := Next(s6, StartCurrent(1, 0));
  }

  /**
   Two seconds is the least bound there is: a run answers, without failing, a record that left the store 1,999 ms
   before the call's clock sample; and asked a millisecond later the same process reads the row.
  */
  lemma BoundIsReached(clock: nat, value: Switch, changed: Switch)
    requires value != changed
    ensures
      && Legal(Start(clock, value), StaleSteps(changed, 1_999))
      && var s := Run(Start(clock, value), StaleSteps(changed, 1_999));
         && 1 in s.calls && s.calls[1].Answered? && !s.calls[1].failed && s.calls[1].value == value
         && Held(s.versions, value, s.calls[1].sample - 1_999, s.calls[1].doneAt)
         && !Held(s.versions, value, s.calls[1].sample - 1_998, s.calls[1].doneAt)
    ensures
      && Legal(Start(clock, value), StaleSteps(changed, 2_000))
      && var s := Run(Start(clock, value), StaleSteps(changed, 2_000));
         1 in s.calls && s.calls[1].Reading?
  {
    hide Legal, Run, StaleSteps;
    StaleRun(clock, value, changed, 1_999);
    StaleRun(clock, value, changed, 2_000);
    assert HeldAt([Version(clock, value), Version(clock, changed)], 0, value, clock, clock + 1_999);
  }
}
