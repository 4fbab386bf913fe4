/**
 What a dry run describes and how it is hashed: the envelope of tool, arguments and plan.
*/
module Plans {
  import opened Texts
  import opened Sorting
  import opened Json
  import opened Hashing

  const TOOL: Text := [0x74, 0x6F, 0x6F, 0x6C]  // tool
  const ARGUMENTS: Text := [0x61, 0x72, 0x67, 0x75, 0x6D, 0x65, 0x6E, 0x74, 0x73]  // arguments
  const PLAN: Text := [0x70, 0x6C, 0x61, 0x6E]  // plan
  const SUMMARY: Text := [0x73, 0x75, 0x6D, 0x6D, 0x61, 0x72, 0x79]  // summary
  const CHANGES: Text := [0x63, 0x68, 0x61, 0x6E, 0x67, 0x65, 0x73]  // changes
  const WARNINGS: Text := [0x77, 0x61, 0x72, 0x6E, 0x69, 0x6E, 0x67, 0x73]  // warnings

  /** The text confirmationToken. */
  const CONFIRMATION_TOKEN: Text :=
    [0x63, 0x6F, 0x6E, 0x66, 0x69, 0x72, 0x6D, 0x61, 0x74, 0x69, 0x6F, 0x6E, 0x54, 0x6F, 0x6B, 0x65, 0x6E]

  /** A tool's plan; `warnings` may be missing. */
  datatype ToolPlan = ToolPlan(summary: Text, changes: seq<Json>, warnings: Option<seq<Text>>)

  ghost predicate PlainPlan(plan: ToolPlan)
  {
    forall c <- plan.changes :: Plain(c)
  }

  function Strings(ts: seq<Text>): (r: seq<Json>)
    ensures |r| == |ts| && forall i :: 0 <= i < |ts| ==> r[i] == String(ts[i])
  {
    if ts == [] then [] else [String(ts[0])] + Strings(ts[1..])
  }

  function WarningsOf(plan: ToolPlan): seq<Text>
  {
    match plan.warnings
    case None => []
    case Some(ws) => ws
  }

  function Normalise(plan: ToolPlan): Json
  {
    Object([Member(SUMMARY, String(plan.summary)), Member(CHANGES, Array(plan.changes)),
            Member(WARNINGS, Array(Strings(WarningsOf(plan))))])
  }

  /** What one call asks for: a tool, its arguments, and the plan derived for them. */
  datatype Request = Request(tool: Text, arguments: Json, plan: ToolPlan)

  ghost predicate PlainRequest(r: Request)
  {
    Plain(r.arguments) && r.arguments.Object? && PlainPlan(r.plan)
  }

  function Envelope(r: Request): Json
  {
    Object([Member(TOOL, String(r.tool)), Member(ARGUMENTS, r.arguments), Member(PLAN, Normalise(r.plan))])
  }

  function DiffHash(r: Request): Digest
  {
    HashPlan(Envelope(r))
  }

  /** `delete object[key]`. */
  function Without(ms: seq<Member>, key: Text): (r: seq<Member>)
    ensures forall m :: m in r <==> m in ms && m.key != key
  {
    if ms == [] then []
    else if ms[0].key == key then Without(ms[1..], key)
    else [ms[0]] + Without(ms[1..], key)
  }

  lemma {:induction false} WithoutKeepsDistinct(ms: seq<Member>, key: Text)
    requires DistinctBy(ms, KeyOf)
    ensures DistinctBy(Without(ms, key), KeyOf)
  {
    if ms != [] {
      var rest := Without(ms[1..], key);
      assert forall i, j :: 0 <= i < j < |ms[1..]| ==> KeyOf(ms[1..][i]) != KeyOf(ms[1..][j]);
      WithoutKeepsDistinct(ms[1..], key);
      forall j | 0 <= j < |rest| ensures KeyOf(rest[j]) != KeyOf(ms[0]) {
        assert rest[j] in rest;
        var i :| 0 <= i < |ms[1..]| && ms[1..][i] == rest[j];
        assert KeyOf(ms[0]) != KeyOf(ms[i + 1]);
      }
    }
  }

  lemma WithoutStaysPlain(ms: seq<Member>, key: Text)
    requires Plain(Object(ms))
    ensures Plain(Object(Without(ms, key)))
  {
    WithoutKeepsDistinct(ms, key);
    var r := Without(ms, key);
    forall j | 0 <= j < |r| ensures Plain(r[j].value) {
      assert r[j] in r;
      var i :| 0 <= i < |ms| && ms[i] == r[j];
    }
  }

  /** The same request and the same diff, as far as JSON can tell. */
  ghost predicate SameRequest(r: Request, q: Request)
  {
    && r.tool == q.tool
    && Same(r.arguments, q.arguments)
    && r.plan.summary == q.plan.summary
    && Same(Array(r.plan.changes), Array(q.plan.changes))
    && WarningsOf(r.plan) == WarningsOf(q.plan)
  }

  lemma ThreeKeys(a: Member, b: Member, c: Member)
    requires a.key != b.key && a.key != c.key && b.key != c.key
    ensures DistinctBy([a, b, c], KeyOf)
    ensures Get([a, b, c], a.key) == a.value && Get([a, b, c], b.key) == b.value && Get([a, b, c], c.key) == c.value
  {
    assert [a, b, c][1..] == [b, c] && [b, c][1..] == [c];
    assert Get([b, c], c.key) == Get([c], c.key);
  }

  lemma EnvelopeKeys()
    ensures TOOL != ARGUMENTS && TOOL != PLAN && ARGUMENTS != PLAN
    ensures SUMMARY != CHANGES && SUMMARY != WARNINGS && CHANGES != WARNINGS
  {
    assert TOOL[0] != ARGUMENTS[0] && TOOL[0] != PLAN[0] && ARGUMENTS[0] != PLAN[0];
    assert SUMMARY[0] != CHANGES[0] && SUMMARY[0] != WARNINGS[0] && CHANGES[0] != WARNINGS[0];
  }

  lemma SameThree(a: Member, b: Member, c: Member, a': Member, b': Member, c': Member)
    requires a.key == a'.key && b.key == b'.key && c.key == c'.key
    requires a.key != b.key && a.key != c.key && b.key != c.key
    requires !a.value.Undefined? && !b.value.Undefined? && !c.value.Undefined?
    requires Same(Object([a, b, c]), Object([a', b', c']))
    ensures Same(a.value, a'.value) && Same(b.value, b'.value) && Same(c.value, c'.value)
  {
    ThreeKeys(a, b, c);
    ThreeKeys(a', b', c');
    var ms, ws := [a, b, c], [a', b', c'];
    SameObjects(ms, ws);
    assert SameAt(ms, ws, a.key) && SameAt(ms, ws, b.key) && SameAt(ms, ws, c.key);
  }

  lemma PlanIsPlain(plan: ToolPlan)
    requires PlainPlan(plan)
    ensures Plain(Normalise(plan))
  {
    EnvelopeKeys();
    var ws := Strings(WarningsOf(plan));
    assert Plain(Array(ws));
    assert Plain(Array(plan.changes));
    var ms := Normalise(plan).members;
    ThreeKeys(ms[0], ms[1], ms[2]);
  }

  lemma EnvelopeIsPlain(r: Request)
    requires PlainRequest(r)
    ensures Plain(Envelope(r))
  {
    EnvelopeKeys();
    PlanIsPlain(r.plan);
    var ms := Envelope(r).members;
    ThreeKeys(ms[0], ms[1], ms[2]);
  }

  lemma SameStrings(a: seq<Text>, b: seq<Text>)
    requires Same(Array(Strings(a)), Array(Strings(b)))
    ensures a == b
  {
    assert |a| == |Strings(a)| == |b|;
    forall i | 0 <= i < |a| ensures a[i] == b[i] {
      assert Same(Strings(a)[i], Strings(b)[i]);
    }
  }

  lemma SamePlans(p: ToolPlan, q: ToolPlan)
    requires Same(Normalise(p), Normalise(q))
    ensures p.summary == q.summary && Same(Array(p.changes), Array(q.changes)) && WarningsOf(p) == WarningsOf(q)
  {
    EnvelopeKeys();
    var ms, ws := Normalise(p).members, Normalise(q).members;
    SameThree(ms[0], ms[1], ms[2], ws[0], ws[1], ws[2]);
    SameStrings(WarningsOf(p), WarningsOf(q));
  }

  lemma GetOfThree(a: Member, b: Member, c: Member, key: Text)
    ensures Get([a, b, c], key) ==
      if key == a.key then a.value else if key == b.key then b.value else if key == c.key then c.value else Undefined
  {
    assert [a, b, c][1..] == [b, c] && [b, c][1..] == [c] && [c][1..] == [];
    assert Get([c], key) == if key == c.key then c.value else Undefined;
    assert Get([b, c], key) == if key == b.key then b.value else Get([c], key);
  }

  lemma ThreeSame(a: Member, b: Member, c: Member, a': Member, b': Member, c': Member)
    requires a.key == a'.key && b.key == b'.key && c.key == c'.key
    requires !a.value.Undefined? && !b.value.Undefined? && !c.value.Undefined?
    requires !a'.value.Undefined? && !b'.value.Undefined? && !c'.value.Undefined?
    requires Same(a.value, a'.value) && Same(b.value, b'.value) && Same(c.value, c'.value)
    ensures Same(Object([a, b, c]), Object([a', b', c']))
  {
    hide Same;
    var ms, ws := [a, b, c], [a', b', c'];
    forall k ensures SameAt(ms, ws, k) {
      GetOfThree(a, b, c, k);
      GetOfThree(a', b', c', k);
    }
    SameObjects(ms, ws);
  }

  lemma SameRequestsSameEnvelopes(r: Request, q: Request)
    requires PlainRequest(r) && PlainRequest(q) && SameRequest(r, q)
    ensures Same(Envelope(r), Envelope(q))
  {
    var ms, ws := Normalise(r.plan).members, Normalise(q.plan).members;
    ThreeSame(ms[0], ms[1], ms[2], ws[0], ws[1], ws[2]);
    var es, fs := Envelope(r).members, Envelope(q).members;
    ThreeSame(es[0], es[1], es[2], fs[0], fs[1], fs[2]);
  }

  /** One diff hash: exactly one tool with the same arguments and the same plan, as far as JSON can tell. */
  lemma DiffHashDecidesRequest(r: Request, q: Request)
    requires PlainRequest(r) && PlainRequest(q)
    ensures DiffHash(r) == DiffHash(q) <==> SameRequest(r, q)
  {
    hide HashPlan, Envelope;
    EnvelopeIsPlain(r);
    EnvelopeIsPlain(q);
    HashPlanDecidesSame(Envelope(r), Envelope(q));
    if DiffHash(r) == DiffHash(q) { SameEnvelopesSameRequests(r, q); }
    if SameRequest(r, q) { SameRequestsSameEnvelopes(r, q); }
  }

  lemma SameEnvelopesSameRequests(r: Request, q: Request)
    requires PlainRequest(r) && PlainRequest(q) && Same(Envelope(r), Envelope(q))
    ensures SameRequest(r, q)
  {
    hide Normalise;
    EnvelopeKeys();
    var ms, ws := Envelope(r).members, Envelope(q).members;
    assert ms[2].value == Normalise(r.plan) && ws[2].value == Normalise(q.plan);
    PlanIsObject(r.plan);
    PlanIsObject(q.plan);
    SameThree(ms[0], ms[1], ms[2], ws[0], ws[1], ws[2]);
    SamePlans(r.plan, q.plan);
  }

  lemma PlanIsObject(plan: ToolPlan)
    ensures Normalise(plan).Object?
  {
  }
}
