/**
 The authorizer: one credential, verified, then the origin check, the rate limiter and the write freeze, in that
 order. Verifying a credential is a function handed in; everything the answer depends on after that is here.
*/
module Authorizer {
  import opened Texts
  import opened RateLimit
  import WriteSwitch

  // ---------------------------------------------------------------------------------------------------------
  // Scopes.

  datatype Verb = Read | Write | Admin

  datatype Resource =
    | Areas | Backlog | Focus | Objectives | Tasks | Reviews | Kpi | Timeline | Adoption | Sync | Meta
    | Initiative | Capture | Project | Objective | Review | Ritual | Takeaway | Settings | Tokens

  datatype Scope = Scope(verb: Verb, resource: Resource)

  const SCOPE_NAMES: seq<Scope> :=
    [ Scope(Read, Areas), Scope(Read, Backlog), Scope(Read, Focus), Scope(Read, Objectives), Scope(Read, Tasks),
      Scope(Read, Reviews), Scope(Read, Kpi), Scope(Read, Timeline), Scope(Read, Adoption), Scope(Read, Sync),
      Scope(Read, Meta),
      Scope(Write, Initiative), Scope(Write, Capture), Scope(Write, Project), Scope(Write, Objective),
      Scope(Write, Review), Scope(Write, Ritual), Scope(Write, Takeaway), Scope(Write, Adoption), Scope(Write, Sync),
      Scope(Admin, Areas), Scope(Admin, Settings), Scope(Admin, Tokens) ]

  function Filtered(scopes: seq<Scope>, keep: Scope -> bool): (r: seq<Scope>)
    ensures forall x :: x in r <==> x in scopes && keep(x)
  {
    if scopes == [] then []
    else (if keep(scopes[0]) then [scopes[0]] else []) + Filtered(scopes[1..], keep)
  }

  const OUTWARD_WRITE_SCOPES: seq<Scope> := [Scope(Write, Sync)]

  function WithheldScopes(record: WriteSwitch.Switch): seq<Scope>
  {
    if !record.engaged then []
    else if record.mode.Outward? then OUTWARD_WRITE_SCOPES
    else Filtered(SCOPE_NAMES, (s: Scope) => s.verb.Write?)
  }

  /** What a freeze takes away: nothing while released, one scope outward, every write of the vocabulary for all. */
  lemma FreezeWithholds(record: WriteSwitch.Switch, scope: Scope)
    requires scope in SCOPE_NAMES
    ensures scope in WithheldScopes(record) <==>
      record.engaged && scope.verb.Write? && (record.mode.All? || scope.resource.Sync?)
  {
    assert SCOPE_NAMES[19] == Scope(Write, Sync);
  }

  /** Engaging in a mode freezes that mode's scopes, and releasing freezes none. */
  lemma ChangesDecideFreeze(change: WriteSwitch.Change, now: int, scope: Scope)
    requires scope in SCOPE_NAMES
    ensures scope in WithheldScopes(WriteSwitch.RecordOf(change, now)) <==>
      change.Engage? && scope.verb.Write? && (change.mode.All? || scope.resource.Sync?)
  {
    FreezeWithholds(WriteSwitch.RecordOf(change, now), scope);
  }

  // ---------------------------------------------------------------------------------------------------------
  // Which credential.

  datatype Kind = Human | Agent

  datatype Principal = Principal(kind: Kind, subject: Text, scopes: seq<Scope>)

  datatype TokenCheck = TokenAccepted(id: Text, scopes: seq<Scope>) | TokenRejected | TokenFailed

  datatype AssertionCheck = AssertionAccepted(subject: Text) | AssertionRejected | AssertionFailed

  /**
   The two headers, trimmed, and what the Bearer pattern takes from the second. `assertion` is absent when the
   instance has no identity provider, as there is then no header to read.
  */
  datatype Credentials = Credentials(assertion: Option<Text>, authorization: Option<Text>, bearer: Option<Text>)

  datatype Refusal =
    | Unauthenticated | InternalError | Forbidden | RateLimited(retryAfterSeconds: int) | Locked | Failed

  datatype Authentication = Authenticated(principal: Principal) | NotAuthenticated(refusal: Refusal)

  /** `token:` and the id is the subject of an agent. */
  const TOKEN: Text := [0x74, 0x6F, 0x6B, 0x65, 0x6E, 0x3A]
  const SUB: Text := [0x73, 0x75, 0x62, 0x3A]  // sub:
  const COLON: CodeUnit := 0x3A

  function Authenticate(
      c: Credentials, verifyToken: Text -> TokenCheck, verifyAssertion: Text -> AssertionCheck): Authentication
  {
    if c.assertion.Some? && c.assertion.value != [] && c.authorization.Some? then NotAuthenticated(Unauthenticated)
    else if c.bearer.Some? then
      match verifyToken(c.bearer.value)
      case TokenAccepted(id, scopes) => Authenticated(Principal(Agent, TOKEN + id, scopes))
      case TokenRejected => NotAuthenticated(Unauthenticated)
      case TokenFailed => NotAuthenticated(Failed)
    else if c.authorization.Some? then NotAuthenticated(Unauthenticated)
    else if c.assertion.None? || c.assertion.value == [] then NotAuthenticated(Unauthenticated)
    else
      match verifyAssertion(c.assertion.value)
      case AssertionAccepted(subject) => Authenticated(Principal(Human, subject, SCOPE_NAMES))
      case AssertionRejected => NotAuthenticated(Unauthenticated)
      case AssertionFailed => NotAuthenticated(InternalError)
  }

  predicate PresentsAssertion(c: Credentials) { c.assertion.Some? && c.assertion.value != [] }

  /**
   Assertion or bearer, never both and never neither: a caller is named exactly when one is presented and it
   verifies, and is whom verifying that one names.
  */
  lemma OneCredentialNamesTheCaller(
      c: Credentials, verifyToken: Text -> TokenCheck, verifyAssertion: Text -> AssertionCheck)
    requires c.bearer.Some? ==> c.authorization.Some?
    ensures
      var outcome := Authenticate(c, verifyToken, verifyAssertion);
      outcome.Authenticated? <==>
        || (PresentsAssertion(c) && c.authorization.None? && verifyAssertion(c.assertion.value).AssertionAccepted?)
        || (!PresentsAssertion(c) && c.bearer.Some? && verifyToken(c.bearer.value).TokenAccepted?)
    ensures
      var outcome := Authenticate(c, verifyToken, verifyAssertion);
      outcome.Authenticated? ==>
        && PresentsAssertion(c) != c.authorization.Some?
        && (outcome.principal.kind.Human? <==> PresentsAssertion(c))
        && (outcome.principal.kind.Human? ==>
              verifyAssertion(c.assertion.value) == AssertionAccepted(outcome.principal.subject)
              && outcome.principal.scopes == SCOPE_NAMES)
        && (outcome.principal.kind.Agent? ==>
              c.bearer.Some? && |outcome.principal.subject| >= |TOKEN|
              && verifyToken(c.bearer.value)
                 == TokenAccepted(outcome.principal.subject[|TOKEN|..], outcome.principal.scopes)
              && outcome.principal.subject[..|TOKEN|] == TOKEN)
    ensures
      var outcome := Authenticate(c, verifyToken, verifyAssertion);
      outcome.NotAuthenticated? ==>
        && (outcome.refusal == InternalError <==>
              PresentsAssertion(c) && c.authorization.None? && verifyAssertion(c.assertion.value).AssertionFailed?)
        && (outcome.refusal == Failed <==>
              !PresentsAssertion(c) && c.bearer.Some? && verifyToken(c.bearer.value).TokenFailed?)
        && outcome.refusal in {Unauthenticated, InternalError, Failed}
  {
    var outcome := Authenticate(c, verifyToken, verifyAssertion);
    if outcome.Authenticated? && c.bearer.Some? {
      var id := verifyToken(c.bearer.value).id;
      assert (TOKEN + id)[|TOKEN|..] == id;
    }
  }

  // ---------------------------------------------------------------------------------------------------------
  // The limiter's key.

  const W: CodeUnit := 0x77
  const R: CodeUnit := 0x72

  function KeyOf(kind: Kind, subject: Text, stateChanging: bool): Text
  {
    (if kind.Human? then SUB else TOKEN) + subject + [COLON, if stateChanging then W else R]
  }

  /** Two requests share a bucket exactly when they have the same credential and both change state or both do not. */
  lemma KeyIsInjective(k: Kind, s: Text, w: bool, k': Kind, s': Text, w': bool)
    ensures KeyOf(k, s, w) == KeyOf(k', s', w') <==> k == k' && s == s' && w == w'
  {
    var a, b := KeyOf(k, s, w), KeyOf(k', s', w');
    if a == b {
      assert a[0] == (if k.Human? then SUB else TOKEN)[0];
      assert b[0] == (if k'.Human? then SUB else TOKEN)[0];
      assert k == k';
      var n := if k.Human? then |SUB| else |TOKEN|;
      assert a[n..|a| - 2] == s && b[n..|b| - 2] == s';
      assert a[|a| - 1] == if w then W else R;
      assert b[|b| - 1] == if w' then W else R;
    }
  }

  /** The policy a key is taken with: its last letter says which. */
  function PolicyFor(key: Text): Policy
  {
    if key != [] && key[|key| - 1] == W then WRITE_LIMIT else READ_LIMIT
  }

  lemma PolicyOfKey(kind: Kind, subject: Text, stateChanging: bool)
    ensures PolicyFor(KeyOf(kind, subject, stateChanging)) == if stateChanging then WRITE_LIMIT else READ_LIMIT
  {
  }

  // ---------------------------------------------------------------------------------------------------------
  // Authorizing.

  datatype Request = Request(
    credentials: Credentials, scope: Scope, stateChanging: bool, origin: Option<Text>, refererOrigin: Option<Text>)

  datatype Identity = Identity(kind: Kind, subject: Text, scopes: seq<Scope>)

  datatype Answer = Granted(identity: Identity) | Refused(refusal: Refusal)

  const NULL: Text := [0x6E, 0x75, 0x6C, 0x6C]

  predicate SameOrigin(request: Request, allowedOrigins: seq<Text>)
  {
    var raw := if request.origin.Some? then request.origin else request.refererOrigin;
    !request.stateChanging || (raw.Some? && raw.value != NULL && raw.value in allowedOrigins)
  }

  /** An allowed origin, other than `null`, that the request says it comes from; the referer speaks only for want. */
  ghost predicate SentFrom(request: Request, allowedOrigins: seq<Text>)
  {
    exists o <- allowedOrigins :: o != [0x6E, 0x75, 0x6C, 0x6C] &&
      (request.origin == Some(o) || (request.origin.None? && request.refererOrigin == Some(o)))
  }

  /** The check passes what changes nothing, and otherwise exactly what comes from an allowed origin. */
  lemma OriginIsCheckedExactly(request: Request, allowedOrigins: seq<Text>)
    ensures SameOrigin(request, allowedOrigins) <==> !request.stateChanging || SentFrom(request, allowedOrigins)
  {
  }

  /** Who reaches the limiter. */
  function Arrives(request: Request, allowedOrigins: seq<Text>,
                   verifyToken: Text -> TokenCheck, verifyAssertion: Text -> AssertionCheck): Authentication
  {
    match Authenticate(request.credentials, verifyToken, verifyAssertion)
    case NotAuthenticated(refusal) => NotAuthenticated(refusal)
    case Authenticated(principal) =>
      if principal.kind.Human? && !SameOrigin(request, allowedOrigins) then NotAuthenticated(Forbidden)
      else Authenticated(principal)
  }

  /**
   A named agent always reaches the limiter; a named human does exactly when the request changes nothing or comes
   from an allowed origin, and is otherwise forbidden; and no one else reaches it.
  */
  lemma ArrivesExactly(request: Request, allowedOrigins: seq<Text>,
                       verifyToken: Text -> TokenCheck, verifyAssertion: Text -> AssertionCheck)
    ensures
      var outcome := Authenticate(request.credentials, verifyToken, verifyAssertion);
      var arrival := Arrives(request, allowedOrigins, verifyToken, verifyAssertion);
      && (arrival.Authenticated? <==>
            && outcome.Authenticated?
            && (outcome.principal.kind.Agent? || !request.stateChanging || SentFrom(request, allowedOrigins)))
      && (arrival.Authenticated? ==> arrival == outcome)
      && (outcome.NotAuthenticated? ==> arrival == outcome)
      && (outcome.Authenticated? && arrival.NotAuthenticated? ==> arrival.refusal == Forbidden)
  {
    OriginIsCheckedExactly(request, allowedOrigins);
  }

  /** What a caller the limiter admitted is given. */
  function Admit(principal: Principal, scope: Scope, record: WriteSwitch.Switch): Answer
  {
    var withheld := WithheldScopes(record);
    if scope in withheld then Refused(Locked)
    else if withheld == [] then Granted(Identity(principal.kind, principal.subject, principal.scopes))
    else Granted(Identity(principal.kind, principal.subject, Filtered(principal.scopes, (s: Scope) => s !in withheld)))
  }

  class RequestAuthorizer {
    const limiter: RateLimiter
    const allowedOrigins: seq<Text>

    constructor (allowedOrigins: seq<Text>)
      ensures this.allowedOrigins == allowedOrigins && fresh(limiter) && limiter.buckets == map[]
    {
      this.allowedOrigins := allowedOrigins;
      limiter := new RateLimiter();
    }

    /**
     `authorize`. `record` is what the switch's `current` answers once the limiter has admitted the request. A
     request that names no caller, or comes from another origin, leaves every bucket as it was.
    */
    method Authorize(request: Request, verifyToken: Text -> TokenCheck, verifyAssertion: Text -> AssertionCheck,
                     record: WriteSwitch.Switch, now: int)
      returns (answer: Answer)
      modifies limiter
      ensures
        var arrival := Arrives(request, allowedOrigins, verifyToken, verifyAssertion);
        match arrival
        case NotAuthenticated(refusal) => answer == Refused(refusal) && limiter.buckets == old(limiter.buckets)
        case Authenticated(p) =>
          (limiter.buckets, answer)
          == Visit(old(limiter.buckets), Visitor(p, request.scope, request.stateChanging, record, now))
      ensures
        var outcome := Authenticate(request.credentials, verifyToken, verifyAssertion);
        outcome.NotAuthenticated? ==> answer == Refused(outcome.refusal) && limiter.buckets == old(limiter.buckets)
      ensures
        var outcome := Authenticate(request.credentials, verifyToken, verifyAssertion);
        outcome.Authenticated? && outcome.principal.kind.Human? && request.stateChanging
        && !SentFrom(request, allowedOrigins) ==>
          answer == Refused(Forbidden) && limiter.buckets == old(limiter.buckets)
      ensures
        var outcome := Authenticate(request.credentials, verifyToken, verifyAssertion);
        outcome.Authenticated?
        && (outcome.principal.kind.Agent? || !request.stateChanging || SentFrom(request, allowedOrigins)) ==>
          var p := outcome.principal;
          var key := KeyOf(p.kind, p.subject, request.stateChanging);
          var (after, decision) :=
            Take(old(limiter.buckets), key, if request.stateChanging then WRITE_LIMIT else READ_LIMIT, now);
          && limiter.buckets == after
          && answer == if decision.allowed then Admit(p, request.scope, record)
                       else Refused(RateLimited(decision.retryAfterSeconds))
    {
      OriginIsCheckedExactly(request, allowedOrigins);
      var outcome := Authenticate(request.credentials, verifyToken, verifyAssertion);
      if outcome.NotAuthenticated? { return Refused(outcome.refusal); }
      var principal := outcome.principal;
      if principal.kind.Human? && !SameOrigin(request, allowedOrigins) { return Refused(Forbidden); }
      var policy := if request.stateChanging then WRITE_LIMIT else READ_LIMIT;
      PolicyOfKey(principal.kind, principal.subject, request.stateChanging);
      var decision := limiter.TakeToken(KeyOf(principal.kind, principal.subject, request.stateChanging), policy, now);
      if !decision.allowed { return Refused(RateLimited(decision.retryAfterSeconds)); }
      return Admit(principal, request.scope, record);
    }
  }

  /** A request whose caller is known, as it reaches the limiter. */
  datatype Visitor = Visitor(
    principal: Principal, scope: Scope, stateChanging: bool, record: WriteSwitch.Switch, now: int)

  function KeyOfVisitor(v: Visitor): Text { KeyOf(v.principal.kind, v.principal.subject, v.stateChanging) }

  function Visit(buckets: Buckets, v: Visitor): (r: (Buckets, Answer))
  {
    var key := KeyOfVisitor(v);
    var (after, decision) := Take(buckets, key, PolicyFor(key), v.now);
    (after, if decision.allowed then Admit(v.principal, v.scope, v.record)
            else Refused(RateLimited(decision.retryAfterSeconds)))
  }

  /**
   A grant holds the caller's own scopes less exactly what the freeze withholds: never a scope the
   caller did not have, never without a read or an admin scope the caller had. And the scope the request needs is
   not frozen.
  */
  lemma GrantsOnlySubtract(principal: Principal, scope: Scope, record: WriteSwitch.Switch)
    requires scope in SCOPE_NAMES && forall s <- principal.scopes :: s in SCOPE_NAMES
    ensures Admit(principal, scope, record) == Refused(Locked) <==> scope in WithheldScopes(record)
    ensures Admit(principal, scope, record).Granted? ==>
      var id := Admit(principal, scope, record).identity;
      && id.kind == principal.kind && id.subject == principal.subject
      && (forall s :: s in id.scopes <==>
            s in principal.scopes && !(record.engaged && s.verb.Write? && (record.mode.All? || s.resource.Sync?)))
      && (!record.engaged ==> id.scopes == principal.scopes)
  {
    hide WithheldScopes;
    forall s | s in SCOPE_NAMES
      ensures s in WithheldScopes(record) <==>
        record.engaged && s.verb.Write? && (record.mode.All? || s.resource.Sync?)
    {
      FreezeWithholds(record, s);
    }
    if !record.engaged { ReleasedWithholdsNothing(record); }
  }

  lemma ReleasedWithholdsNothing(record: WriteSwitch.Switch)
    requires !record.engaged
    ensures WithheldScopes(record) == []
  {
  }

  /** No freeze locks out the call that lifts it: `admin:settings` is granted under every record. */
  lemma ReleaseIsNeverLocked(principal: Principal, record: WriteSwitch.Switch)
    requires forall s <- principal.scopes :: s in SCOPE_NAMES
    requires Scope(Admin, Settings) in principal.scopes
    ensures
      var answer := Admit(principal, Scope(Admin, Settings), record);
      answer.Granted? && Scope(Admin, Settings) in answer.identity.scopes
  {
    hide Admit;
    FreezeWithholds(record, Scope(Admin, Settings));
    assert SCOPE_NAMES[21] == Scope(Admin, Settings);
    GrantsOnlySubtract(principal, Scope(Admin, Settings), record);
    var answer := Admit(principal, Scope(Admin, Settings), record);
    assert answer.Granted? by { AdmittedOrLocked(principal, Scope(Admin, Settings), record); }
  }

  lemma AdmittedOrLocked(principal: Principal, scope: Scope, record: WriteSwitch.Switch)
    ensures Admit(principal, scope, record).Granted? || Admit(principal, scope, record) == Refused(Locked)
  {
  }

  /**
   Two seconds after a freeze of every write is the store's newest record, no replica grants a write whose read of
   the switch succeeded, however the calls interleave.
  */
  lemma FreezeStopsEveryReplica(clock: nat, value: WriteSwitch.Switch, steps: seq<WriteSwitch.Step>, c: nat,
                                principal: Principal, scope: Scope)
    requires WriteSwitch.Legal(WriteSwitch.Start(clock, value), steps)
    requires scope in SCOPE_NAMES && scope.verb.Write?
    requires
      var s := WriteSwitch.Run(WriteSwitch.Start(clock, value), steps);
      && c in s.calls && s.calls[c].Answered? && !s.calls[c].failed && s.versions != []
      && var newest := s.versions[|s.versions| - 1];
         newest.value.engaged && newest.value.mode.All? && s.calls[c].sample >= newest.at + 2_000
    ensures
      var s := WriteSwitch.Run(WriteSwitch.Start(clock, value), steps);
      Admit(principal, scope, s.calls[c].value) == Refused(Locked)
  {
    WriteSwitch.ChangeReachesEveryReplica(clock, value, steps, c);
    FreezeWithholds(WriteSwitch.Run(WriteSwitch.Start(clock, value), steps).calls[c].value, scope);
  }

  /**
   So an emergency stop stops: two seconds after an `engage` of every write has landed, with nothing newer in the
   store, no replica grants a write whose read of the switch succeeded; and an outward one withholds `write:sync`.
  */
  lemma EngageStopsEveryReplica(
      clock: nat, value: WriteSwitch.Switch, before: seq<WriteSwitch.Step>, c: nat, r: nat, mode: WriteSwitch.Mode,
      actor: Text, reason: Text, between: seq<WriteSwitch.Step>, after: seq<WriteSwitch.Step>, d: nat,
      principal: Principal, scope: Scope)
    requires WriteSwitch.ChangeRun(
      clock, value, before, c, r, WriteSwitch.Engage(mode, actor, reason), between, after)
    requires
      var (landed, end) := WriteSwitch.Landed(
        clock, value, before, c, r, WriteSwitch.Engage(mode, actor, reason), between, after);
      && |end.versions| == |landed.versions|
      && d in end.calls && end.calls[d].Answered? && !end.calls[d].failed
      && end.calls[d].sample >= landed.clock + 2_000
    requires scope in SCOPE_NAMES && scope.verb.Write? && (mode.All? || scope.resource.Sync?)
    ensures
      var end := WriteSwitch.Landed(
        clock, value, before, c, r, WriteSwitch.Engage(mode, actor, reason), between, after).1;
      Admit(principal, scope, end.calls[d].value) == Refused(Locked)
  {
    var change := WriteSwitch.Engage(mode, actor, reason);
    var end := WriteSwitch.Landed(clock, value, before, c, r, change, between, after).1;
    WriteSwitch.LandedChangeIsAnswered(clock, value, before, c, r, change, between, after, d);
    FreezeWithholds(end.calls[d].value, scope);
  }

  // ---------------------------------------------------------------------------------------------------------
  // Runs of requests.

  /** What happens to the limiter: a known caller's request, or a sweep. */
  datatype Event = Arrival(visitor: Visitor) | Sweeping(at: int)

  function OpOf(e: Event): Op
  {
    match e
    case Arrival(v) => TakeOp(KeyOfVisitor(v), v.now)
    case Sweeping(at) => SweepOp(at)
  }

  function OpsOf(events: seq<Event>): (r: seq<Op>)
    ensures |r| == |events| && forall i :: 0 <= i < |events| ==> r[i] == OpOf(events[i])
  {
    if events == [] then [] else [OpOf(events[0])] + OpsOf(events[1..])
  }

  /** The requests of one credential granted in a window of a run: those that change state, or those that do not. */
  function GrantedIn(
      buckets: Buckets, events: seq<Event>, kind: Kind, subject: Text, stateChanging: bool, from: int, to: int): nat
    decreases |events|
  {
    if events == [] then 0
    else
      match events[0]
      case Sweeping(at) => GrantedIn(Sweep(buckets, at), events[1..], kind, subject, stateChanging, from, to)
      case Arrival(v) =>
        var (after, answer) := Visit(buckets, v);
        (if v.principal.kind == kind && v.principal.subject == subject && v.stateChanging == stateChanging
            && from <= v.now <= to && answer.Granted? then 1 else 0)
        + GrantedIn(after, events[1..], kind, subject, stateChanging, from, to)
  }

  lemma PoliciesRefill()
    ensures AllRefill(PolicyFor)
  {
    ShippedPoliciesRefill();
  }

  lemma {:induction false} GrantsAreAdmitted(
      buckets: Buckets, events: seq<Event>, kind: Kind, subject: Text, stateChanging: bool, from: int, to: int)
    requires AllRefill(PolicyFor)
    ensures GrantedIn(buckets, events, kind, subject, stateChanging, from, to)
         <= AdmittedIn(Outcomes(buckets, OpsOf(events), PolicyFor), KeyOf(kind, subject, stateChanging), from, to)
    decreases |events|
  {
    hide KeyOf, Take, Admit, PolicyFor;
    if events != [] {
      var key := KeyOf(kind, subject, stateChanging);
      assert OpsOf(events)[1..] == OpsOf(events[1..]);
      OpCounts(buckets, OpsOf(events), PolicyFor, key, from, to);
      match events[0]
      case Sweeping(at) => GrantsAreAdmitted(Sweep(buckets, at), events[1..], kind, subject, stateChanging, from, to);
      case Arrival(v) =>
        GrantsAreAdmitted(Visit(buckets, v).0, events[1..], kind, subject, stateChanging, from, to);
        KeyIsInjective(kind, subject, stateChanging, v.principal.kind, v.principal.subject, v.stateChanging);
    }
  }

  /** The credential's requests of that kind can be tracked whenever they are taken. */
  ghost predicate GrantsTracked(buckets: Buckets, events: seq<Event>, kind: Kind, subject: Text, stateChanging: bool)
  {
    PoliciesRefill();
    Tracked(buckets, OpsOf(events), PolicyFor, KeyOf(kind, subject, stateChanging))
  }

  /** How many of them in a window found the map full of other keys. */
  ghost function GrantsUntracked(
      buckets: Buckets, events: seq<Event>, kind: Kind, subject: Text, stateChanging: bool, from: int, to: int): nat
  {
    PoliciesRefill();
    UntrackedIn(buckets, OpsOf(events), PolicyFor, KeyOf(kind, subject, stateChanging), from, to)
  }

  /** What may be granted in so many milliseconds. */
  function Allowance(stateChanging: bool, ms: int): real
  {
    if stateChanging then 20.0 + 2.0 * (ms as real / 1000.0) else 120.0 + 20.0 * (ms as real / 1000.0)
  }

  /**
   One credential is granted at most 20 + 2 per second state-changing requests in any window and 120 + 20 per second
   others, whatever every other credential does meanwhile, and one more for each of its requests that finds the
   limiter's map full of others.
  */
  lemma GrantsAreAccounted(
      buckets: Buckets, events: seq<Event>, kind: Kind, subject: Text, stateChanging: bool,
      from: int, to: int, now: int)
    requires Monotone(OpsOf(events), now) && Settled(buckets, now) && from <= to
    ensures GrantedIn(buckets, events, kind, subject, stateChanging, from, to) as real
         <= Allowance(stateChanging, to - from)
            + GrantsUntracked(buckets, events, kind, subject, stateChanging, from, to) as real
  {
    hide KeyOf, GrantedIn, AdmittedIn, Outcomes, Settled, Monotone, UntrackedIn;
    PoliciesRefill();
    EveryWindowIsBounded(buckets, OpsOf(events), PolicyFor, KeyOf(kind, subject, stateChanging), from, to, now);
    GrantsAreAdmitted(buckets, events, kind, subject, stateChanging, from, to);
    PolicyOfKey(kind, subject, stateChanging);
  }

  /** So it keeps to the allowance while its own requests can be tracked, however many keys come and go. */
  lemma GrantsAreBounded(
      buckets: Buckets, events: seq<Event>, kind: Kind, subject: Text, stateChanging: bool,
      from: int, to: int, now: int)
    requires Monotone(OpsOf(events), now) && Settled(buckets, now) && from <= to
    requires GrantsTracked(buckets, events, kind, subject, stateChanging)
    ensures GrantedIn(buckets, events, kind, subject, stateChanging, from, to) as real
         <= Allowance(stateChanging, to - from)
  {
    hide KeyOf, GrantedIn, Settled, Monotone, UntrackedIn, Tracked;
    PoliciesRefill();
    GrantsAreAccounted(buckets, events, kind, subject, stateChanging, from, to, now);
    TrackedIsNeverUntracked(buckets, OpsOf(events), PolicyFor, KeyOf(kind, subject, stateChanging), from, to);
  }

  /** In particular when the keys of the run fit the limiter's map at once. */
  lemma GrantsAreBoundedWithRoom(
      buckets: Buckets, events: seq<Event>, keys: set<Text>, kind: Kind, subject: Text, stateChanging: bool,
      from: int, to: int, now: int)
    requires Monotone(OpsOf(events), now) && Settled(buckets, now) && from <= to
    requires |keys| <= MAX_BUCKETS && buckets.Keys <= keys
    requires forall e <- events :: e.Arrival? ==> KeyOfVisitor(e.visitor) in keys
    ensures GrantedIn(buckets, events, kind, subject, stateChanging, from, to) as real
         <= Allowance(stateChanging, to - from)
  {
    hide KeyOf, GrantedIn, Settled, Monotone, Tracked;
    PoliciesRefill();
    assert Room(buckets, OpsOf(events), keys);
    RoomTracksRun(buckets, OpsOf(events), PolicyFor, keys, KeyOf(kind, subject, stateChanging));
    GrantsAreBounded(buckets, events, kind, subject, stateChanging, from, to, now);
  }
}
