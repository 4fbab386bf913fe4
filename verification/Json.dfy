/**
 Plain JSON values as a plan holds them, and two independent readings of "the same value": a normal form, and
 a relation that never sorts anything.
*/
module Json {
  import opened Texts
  import opened Sorting

  /** `Undefined` is JavaScript's `undefined`. A number is the text ECMA-262 gives it, so -0 and 0 are one value. */
  datatype Json =
    | Undefined
    | Null
    | Bool(b: bool)
    | Number(numeral: Text)
    | String(units: Text)
    | Array(items: seq<Json>)
    | Object(members: seq<Member>)

  datatype Member = Member(key: Text, value: Json)

  function KeyOf(m: Member): Text { m.key }

  predicate IsNumeralUnit(u: CodeUnit)
  {
    0x30 <= u <= 0x39 || u in {0x2B, 0x2D, 0x2E, 0x45, 0x65}  // digits and + - . E e
  }

  /** Holds of every text that `Number::toString` gives a finite number. */
  predicate IsNumeral(n: Text)
  {
    n != [] && (0x30 <= n[0] <= 0x39 || n[0] == 0x2D) && forall i :: 0 <= i < |n| ==> IsNumeralUnit(n[i])
  }

  /** What every JavaScript value of this shape satisfies: an object has each key once. */
  ghost predicate Plain(v: Json)
  {
    match v
    case Number(n) => IsNumeral(n)
    case Array(items) => forall i :: 0 <= i < |items| ==> Plain(items[i])
    case Object(ms) =>
      DistinctBy(ms, KeyOf) && forall i :: 0 <= i < |ms| ==> Plain(ms[i].value)
    case _ => true
  }

  function Size(v: Json): (n: nat)
    ensures n > 0
  {
    match v
    case Array(items) => 1 + SizeItems(items)
    case Object(ms) => 1 + SizeMembers(ms)
    case _ => 1
  }

  function SizeItems(items: seq<Json>): nat
  {
    if items == [] then 0 else Size(items[0]) + SizeItems(items[1..])
  }

  function SizeMembers(ms: seq<Member>): nat
  {
    if ms == [] then 0 else Size(ms[0].value) + SizeMembers(ms[1..])
  }

  /** The entries of an object that are not `undefined`. */
  function Defined(ms: seq<Member>): (r: seq<Member>)
    ensures SizeMembers(r) <= SizeMembers(ms)
    ensures forall m :: m in r <==> m in ms && !m.value.Undefined?
  {
    if ms == [] then []
    else if ms[0].value.Undefined? then Defined(ms[1..])
    else [ms[0]] + Defined(ms[1..])
  }

  lemma {:induction false} SizeOfInsert(m: Member, ms: seq<Member>)
    ensures SizeMembers(Insert(m, ms, KeyOf)) == Size(m.value) + SizeMembers(ms)
  {
    if ms != [] && Less(ms[0].key, m.key) {
      SizeOfInsert(m, ms[1..]);
      var r := Insert(m, ms[1..], KeyOf);
      assert Insert(m, ms, KeyOf) == [ms[0]] + r;
      assert ([ms[0]] + r)[1..] == r;
    } else {
      assert ([m] + ms)[1..] == ms;
    }
  }

  lemma {:induction false} SizeOfSorted(ms: seq<Member>)
    ensures SizeMembers(SortBy(ms, KeyOf)) == SizeMembers(ms)
  {
    if ms != [] {
      SizeOfSorted(ms[1..]);
      SizeOfInsert(ms[0], SortBy(ms[1..], KeyOf));
    }
  }

  /** The entries as they are written: without `undefined`, in key order. */
  function Ordered(ms: seq<Member>): (r: seq<Member>)
    ensures SizeMembers(r) <= SizeMembers(ms)
    ensures forall m :: m in r <==> m in ms && !m.value.Undefined?
  {
    SizeOfSorted(Defined(ms));
    SortBy(Defined(ms), KeyOf)
  }

  lemma {:induction false} DefinedKeepsDistinct(ms: seq<Member>)
    requires DistinctBy(ms, KeyOf)
    ensures DistinctBy(Defined(ms), KeyOf)
  {
    if ms != [] {
      assert forall i, j :: 0 <= i < j < |ms[1..]| ==> KeyOf(ms[1..][i]) != KeyOf(ms[1..][j]);
      DefinedKeepsDistinct(ms[1..]);
    }
  }

  /** In an object of distinct keys, the written keys ascend strictly. */
  lemma OrderedAscends(ms: seq<Member>)
    requires DistinctBy(ms, KeyOf)
    ensures forall i, j :: 0 <= i < j < |Ordered(ms)| ==> Less(Ordered(ms)[i].key, Ordered(ms)[j].key)
  {
    var r := Ordered(ms);
    DefinedKeepsDistinct(ms);
    SortByKeepsDistinct(Defined(ms), KeyOf);
    SortByIsSorted(Defined(ms), KeyOf);
    forall i, j | 0 <= i < j < |r|
      ensures Less(r[i].key, r[j].key)
    {
      assert KeyOf(r[i]) != KeyOf(r[j]) && !Less(KeyOf(r[j]), KeyOf(r[i]));
      LessIsTotal(r[i].key, r[j].key);
    }
  }

  /** The value with `undefined` written as JSON writes it and every object in key order. */
  function Norm(v: Json): Json
    decreases Size(v), 0
  {
    match v
    case Undefined => Null
    case Array(items) => Array(NormItems(items))
    case Object(ms) => Object(NormMembers(Ordered(ms)))
    case _ => v
  }

  function NormItems(items: seq<Json>): (r: seq<Json>)
    ensures |r| == |items|
    ensures forall i :: 0 <= i < |items| ==> Size(items[i]) <= SizeItems(items) && r[i] == Norm(items[i])
    decreases SizeItems(items), 1 + |items|
  {
    if items == [] then [] else [Norm(items[0])] + NormItems(items[1..])
  }

  function NormMembers(ms: seq<Member>): (r: seq<Member>)
    ensures |r| == |ms|
    ensures forall i :: 0 <= i < |ms| ==>
      Size(ms[i].value) <= SizeMembers(ms) && r[i] == Member(ms[i].key, Norm(ms[i].value))
    decreases SizeMembers(ms), 1 + |ms|
  {
    if ms == [] then [] else [Member(ms[0].key, Norm(ms[0].value))] + NormMembers(ms[1..])
  }

  /** Reading a property: `undefined` when the key is absent. */
  function Get(ms: seq<Member>, key: Text): (r: Json)
    ensures !r.Undefined? ==> Member(key, r) in ms
  {
    if ms == [] then Undefined
    else if ms[0].key == key then ms[0].value
    else Get(ms[1..], key)
  }

  lemma {:induction false} GetFindsMember(ms: seq<Member>, i: int)
    requires DistinctBy(ms, KeyOf) && 0 <= i < |ms|
    ensures Get(ms, ms[i].key) == ms[i].value
  {
    if i > 0 {
      assert KeyOf(ms[0]) != KeyOf(ms[i]);
      assert forall a, b :: 0 <= a < b < |ms[1..]| ==> KeyOf(ms[1..][a]) != KeyOf(ms[1..][b]);
      GetFindsMember(ms[1..], i - 1);
    }
  }

  /**
   Equal up to key order, dropped `undefined` entries, and JSON's reading of `undefined` elsewhere as null.
   No order is mentioned: two objects are the same when reading any key of either gives the same value.
  */
  ghost predicate Same(v: Json, w: Json)
  {
    match v
    case Undefined => w.Undefined? || w.Null?
    case Null => w.Undefined? || w.Null?
    case Array(items) =>
      w.Array? && |w.items| == |items| && forall i :: 0 <= i < |items| ==> Same(items[i], w.items[i])
    case Object(ms) =>
      w.Object? && forall k ::
        && Get(ms, k).Undefined? == Get(w.members, k).Undefined?
        && (!Get(ms, k).Undefined? ==> Same(Get(ms, k), Get(w.members, k)))
    case _ => w == v
  }

  /** Position p of the written list holds what reading its key gives. */
  lemma OrderedHolds(ms: seq<Member>, p: int)
    requires DistinctBy(ms, KeyOf) && 0 <= p < |Ordered(ms)|
    ensures Ordered(ms)[p].value == Get(ms, Ordered(ms)[p].key) && !Ordered(ms)[p].value.Undefined?
  {
    assert Ordered(ms)[p] in Ordered(ms);
    var i :| 0 <= i < |ms| && ms[i] == Ordered(ms)[p];
    GetFindsMember(ms, i);
  }

  /** Every key that reads as present has its position in the written list. */
  lemma PositionOf(ms: seq<Member>, k: Text) returns (p: int)
    requires !Get(ms, k).Undefined?
    ensures 0 <= p < |Ordered(ms)| && Ordered(ms)[p] == Member(k, Get(ms, k))
  {
    assert Member(k, Get(ms, k)) in Ordered(ms);
    p :| 0 <= p < |Ordered(ms)| && Ordered(ms)[p] == Member(k, Get(ms, k));
  }

  function Keys(ms: seq<Member>): (r: seq<Text>)
    ensures |r| == |ms| && forall i :: 0 <= i < |ms| ==> r[i] == ms[i].key
  {
    if ms == [] then [] else [ms[0].key] + Keys(ms[1..])
  }

  lemma WrittenKeys(ms: seq<Member>, k: Text)
    requires DistinctBy(ms, KeyOf)
    ensures k in Keys(Ordered(ms)) <==> !Get(ms, k).Undefined?
  {
    if k in Keys(Ordered(ms)) {
      var p :| 0 <= p < |Ordered(ms)| && Keys(Ordered(ms))[p] == k;
      OrderedHolds(ms, p);
    }
    if !Get(ms, k).Undefined? {
      var p := PositionOf(ms, k);
      assert Keys(Ordered(ms))[p] == k;
    }
  }

  lemma SameKeys(ms: seq<Member>, ws: seq<Member>)
    requires DistinctBy(ms, KeyOf) && DistinctBy(ws, KeyOf)
    requires forall k :: Get(ms, k).Undefined? == Get(ws, k).Undefined?
    ensures Keys(Ordered(ms)) == Keys(Ordered(ws))
  {
    OrderedAscends(ms);
    OrderedAscends(ws);
    forall k
      ensures k in Keys(Ordered(ms)) <==> k in Keys(Ordered(ws))
    {
      WrittenKeys(ms, k);
      WrittenKeys(ws, k);
    }
    AscendingIsUnique(Keys(Ordered(ms)), Keys(Ordered(ws)));
  }

  /** Reading k gives values with one normal form, or is `undefined` on both sides. */
  ghost predicate ReadAlike(ms: seq<Member>, ws: seq<Member>, k: Text)
  {
    && Get(ms, k).Undefined? == Get(ws, k).Undefined?
    && (!Get(ms, k).Undefined? ==> Norm(Get(ms, k)) == Norm(Get(ws, k)))
  }

  lemma PresentReadsAlike(ms: seq<Member>, ws: seq<Member>, k: Text)
    requires DistinctBy(ws, KeyOf) && !Get(ms, k).Undefined?
    requires NormMembers(Ordered(ms)) == NormMembers(Ordered(ws))
    ensures !Get(ws, k).Undefined? && Norm(Get(ms, k)) == Norm(Get(ws, k))
  {
    var p := PositionOf(ms, k);
    assert |Ordered(ms)| == |NormMembers(Ordered(ws))|;
    assert NormMembers(Ordered(ms))[p] == NormMembers(Ordered(ws))[p];
    OrderedHolds(ws, p);
  }

  lemma EqualNormReadsAlike(ms: seq<Member>, ws: seq<Member>, k: Text)
    requires DistinctBy(ms, KeyOf) && DistinctBy(ws, KeyOf)
    requires NormMembers(Ordered(ms)) == NormMembers(Ordered(ws))
    ensures ReadAlike(ms, ws, k)
  {
    if !Get(ms, k).Undefined? {
      PresentReadsAlike(ms, ws, k);
    } else if !Get(ws, k).Undefined? {
      PresentReadsAlike(ws, ms, k);
    }
  }

  lemma ReadingAlikeEqualNorm(ms: seq<Member>, ws: seq<Member>)
    requires DistinctBy(ms, KeyOf) && DistinctBy(ws, KeyOf)
    requires forall k :: ReadAlike(ms, ws, k)
    ensures NormMembers(Ordered(ms)) == NormMembers(Ordered(ws))
  {
    var a, b := Ordered(ms), Ordered(ws);
    assert forall k :: ReadAlike(ms, ws, k) ==> Get(ms, k).Undefined? == Get(ws, k).Undefined?;
    SameKeys(ms, ws);
    assert |a| == |Keys(a)| == |Keys(b)| == |b|;
    forall p | 0 <= p < |a|
      ensures NormMembers(a)[p] == NormMembers(b)[p]
    {
      OrderedHolds(ms, p);
      OrderedHolds(ws, p);
      assert a[p].key == Keys(a)[p] == Keys(b)[p] == b[p].key;
      assert ReadAlike(ms, ws, a[p].key);
    }
  }

  /** The normal form decides sameness. */
  lemma {:induction false} NormDecidesSame(v: Json, w: Json)
    requires Plain(v) && Plain(w)
    ensures Norm(v) == Norm(w) <==> Same(v, w)
    decreases v
  {
    match v
    case Array(items) =>
      if w.Array? && |w.items| == |items| {
        forall i | 0 <= i < |items|
          ensures Norm(items[i]) == Norm(w.items[i]) <==> Same(items[i], w.items[i])
        {
          NormDecidesSame(items[i], w.items[i]);
        }
        NormItemsAgree(items, w.items);
      }
    case Object(ms) =>
      if w.Object? {
        forall k ensures DecidedAt(ms, w.members, k) {
          if !Get(ms, k).Undefined? && !Get(w.members, k).Undefined? {
            NormDecidesSame(Get(ms, k), Get(w.members, k));
          }
        }
        ObjectCase(ms, w.members);
        SameObjects(ms, w.members);
      }
    case _ =>
  }

  /** The induction hypothesis at one key. */
  ghost predicate DecidedAt(ms: seq<Member>, ws: seq<Member>, k: Text)
  {
    !Get(ms, k).Undefined? && !Get(ws, k).Undefined? ==>
      (Norm(Get(ms, k)) == Norm(Get(ws, k)) <==> Same(Get(ms, k), Get(ws, k)))
  }

  ghost predicate SameAt(ms: seq<Member>, ws: seq<Member>, k: Text)
  {
    && Get(ms, k).Undefined? == Get(ws, k).Undefined?
    && (!Get(ms, k).Undefined? ==> Same(Get(ms, k), Get(ws, k)))
  }

  lemma SameObjects(ms: seq<Member>, ws: seq<Member>)
    ensures Same(Object(ms), Object(ws)) <==> forall k :: SameAt(ms, ws, k)
  {
    if forall k :: SameAt(ms, ws, k) {
      forall k
        ensures Get(ms, k).Undefined? == Get(ws, k).Undefined?
        ensures !Get(ms, k).Undefined? ==> Same(Get(ms, k), Get(ws, k))
      {
        assert SameAt(ms, ws, k);
      }
    }
  }

  lemma ObjectCase(ms: seq<Member>, ws: seq<Member>)
    requires DistinctBy(ms, KeyOf) && DistinctBy(ws, KeyOf)
    requires forall k :: DecidedAt(ms, ws, k)
    ensures NormMembers(Ordered(ms)) == NormMembers(Ordered(ws)) <==> forall k :: SameAt(ms, ws, k)
  {
    if NormMembers(Ordered(ms)) == NormMembers(Ordered(ws)) {
      forall k ensures SameAt(ms, ws, k) {
        EqualNormReadsAlike(ms, ws, k);
        assert DecidedAt(ms, ws, k);
      }
    }
    if forall k :: SameAt(ms, ws, k) {
      forall k ensures ReadAlike(ms, ws, k) {
        assert SameAt(ms, ws, k) && DecidedAt(ms, ws, k);
      }
      ReadingAlikeEqualNorm(ms, ws);
    }
  }

  lemma NormItemsAgree(items: seq<Json>, others: seq<Json>)
    requires |items| == |others|
    ensures NormItems(items) == NormItems(others) <==>
      forall i :: 0 <= i < |items| ==> Norm(items[i]) == Norm(others[i])
  {
    if NormItems(items) == NormItems(others) {
      assert forall i :: 0 <= i < |items| ==> NormItems(items)[i] == NormItems(others)[i];
    }
  }
}
