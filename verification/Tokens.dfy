/**
 API tokens: the verification cache, and verification itself with its two awaits. Argon2 is a function of the
 stored hash and the presented secret, and a token's fingerprint is an ideal hash of the text presented.
*/
module Tokens {
  import opened Texts
  import opened Hashing

  const CACHE_TTL_MS := 60_000
  const CACHE_MAX := 1_000

  datatype CacheEntry = CacheEntry(matched: bool, tokenId: Text, at: int)

  // ---------------------------------------------------------------------------------------------------------
  // The cache: a Map, whose iteration order is the order of insertion.

  datatype Cache = Cache(keys: seq<Digest>, entries: map<Digest, CacheEntry>)

  const EMPTY := Cache([], map[])

  ghost predicate ValidCache(c: Cache)
  {
    && (forall i, j :: 0 <= i < j < |c.keys| ==> c.keys[i] != c.keys[j])
    && (forall k :: k in c.entries <==> k in c.keys)
    && |c.keys| <= CACHE_MAX
  }

  function Drop(keys: seq<Digest>, key: Digest): (r: seq<Digest>)
    ensures forall k :: k in r <==> k in keys && k != key
  {
    if keys == [] then []
    else if keys[0] == key then Drop(keys[1..], key)
    else [keys[0]] + Drop(keys[1..], key)
  }

  /** `cached`: the entry, unless it is more than a minute old; then it is deleted. */
  function Lookup(c: Cache, key: Digest, now: int): (Cache, Option<CacheEntry>)
  {
    if key !in c.entries then (c, None)
    else if now - c.entries[key].at > CACHE_TTL_MS then (Cache(Drop(c.keys, key), c.entries - {key}), None)
    else (c, Some(c.entries[key]))
  }

  /** `remember`: at the cap the oldest key goes first, then the entry is set. */
  function Remember(c: Cache, key: Digest, entry: CacheEntry): Cache
  {
    var room := if |c.keys| >= CACHE_MAX then Cache(c.keys[1..], c.entries - {c.keys[0]}) else c;
    if key in room.entries then room.(entries := room.entries[key := entry])
    else Cache(room.keys + [key], room.entries[key := entry])
  }

  lemma {:induction false} DropKeepsOrder(keys: seq<Digest>, key: Digest)
    requires forall i, j :: 0 <= i < j < |keys| ==> keys[i] != keys[j]
    ensures
      var r := Drop(keys, key);
      |r| <= |keys| && forall i, j :: 0 <= i < j < |r| ==> r[i] != r[j]
  {
    if keys != [] {
      DropKeepsOrder(keys[1..], key);
      var rest := Drop(keys[1..], key);
      forall j | 0 <= j < |rest| ensures rest[j] != keys[0] {
        assert rest[j] in rest && rest[j] in keys[1..];
      }
    }
  }

  /** The first key goes, and its entry with it. */
  lemma FirstGoes(c: Cache)
    requires ValidCache(c) && c.keys != []
    ensures ValidCache(Cache(c.keys[1..], c.entries - {c.keys[0]}))
  {
    var rest := c.keys[1..];
    assert forall k :: k in rest <==> k in c.keys && k != c.keys[0];
  }

  lemma SetStaysValid(c: Cache, key: Digest, entry: CacheEntry)
    requires ValidCache(c) && |c.keys| < CACHE_MAX
    ensures ValidCache(
      if key in c.entries then c.(entries := c.entries[key := entry])
      else Cache(c.keys + [key], c.entries[key := entry]))
  {
  }

  /** Neither operation breaks the cache or takes it past a thousand entries. */
  lemma CacheStaysValid(c: Cache, key: Digest, entry: CacheEntry, now: int)
    requires ValidCache(c)
    ensures ValidCache(Lookup(c, key, now).0) && ValidCache(Remember(c, key, entry))
  {
    LookupStaysValid(c, key, now);
    RememberStaysValid(c, key, entry);
  }

  lemma LookupStaysValid(c: Cache, key: Digest, now: int)
    requires ValidCache(c)
    ensures ValidCache(Lookup(c, key, now).0)
  {
    DropKeepsOrder(c.keys, key);
  }

  lemma RememberStaysValid(c: Cache, key: Digest, entry: CacheEntry)
    requires ValidCache(c)
    ensures ValidCache(Remember(c, key, entry))
  {
    if |c.keys| >= CACHE_MAX {
      FirstGoes(c);
      hide ValidCache;
      SetStaysValid(Cache(c.keys[1..], c.entries - {c.keys[0]}), key, entry);
    } else {
      SetStaysValid(c, key, entry);
    }
  }

  /** After `remember` the entry is there, and every other entry is one that was there before. */
  lemma RememberedEntries(c: Cache, key: Digest, entry: CacheEntry, k: Digest)
    ensures Remember(c, key, entry).entries.Keys <= c.entries.Keys + {key}
    ensures k in Remember(c, key, entry).entries ==>
      Remember(c, key, entry).entries[k] == if k == key then entry else c.entries[k]
  {
  }

  /** A hit is the entry under its key and no more than a minute old; on a miss no entry is left there. */
  lemma HitIsRecent(c: Cache, key: Digest, now: int)
    ensures
      var (after, hit) := Lookup(c, key, now);
      && (hit.Some? <==> key in c.entries && now <= c.entries[key].at + 60_000)
      && (hit.Some? ==> after == c && hit.value == c.entries[key])
      && (hit.None? ==> key !in after.entries)
      && (forall k :: k != key ==> (k in after.entries <==> k in c.entries))
      && (forall k :: k in after.entries ==> after.entries[k] == c.entries[k])
  {
  }

  class VerificationCache {
    var cache: Cache

    constructor ()
      ensures cache == EMPTY
    {
      cache := EMPTY;
    }

    method Cached(key: Digest, now: int) returns (hit: Option<CacheEntry>)
      modifies this
      ensures (cache, hit) == Lookup(old(cache), key, now)
      ensures hit.Some? <==> key in old(cache).entries && now <= old(cache).entries[key].at + 60_000
      ensures hit.Some? ==> cache == old(cache) && hit.value == cache.entries[key]
      ensures hit.None? ==> key !in cache.entries
    {
      if key !in cache.entries {
        return None;
      }
      var entry := cache.entries[key];
      if now - entry.at > CACHE_TTL_MS {
        cache := Cache(Drop(cache.keys, key), cache.entries - {key});
        return None;
      }
      return Some(entry);
    }

    method RememberEntry(key: Digest, entry: CacheEntry)
      requires ValidCache(cache)
      modifies this
      ensures cache == Remember(old(cache), key, entry) && ValidCache(cache)
    {
      CacheStaysValid(cache, key, entry, 0);
      if |cache.entries| >= CACHE_MAX {
        EntriesAndKeys(cache);
        cache := Cache(cache.keys[1..], cache.entries - {cache.keys[0]});
      } else {
        EntriesAndKeys(cache);
      }
      var keys := if key in cache.entries then cache.keys else cache.keys + [key];
      cache := Cache(keys, cache.entries[key := entry]);
    }
  }

  lemma EntriesAndKeys(c: Cache)
    requires ValidCache(c)
    ensures |c.entries| == |c.keys|
  {
    DistinctKeysCount(c.keys);
    assert c.entries.Keys == set k | k in c.keys;
    assert |c.entries| == |c.entries.Keys|;
  }

  lemma {:induction false} DistinctKeysCount(keys: seq<Digest>)
    requires forall i, j :: 0 <= i < j < |keys| ==> keys[i] != keys[j]
    ensures |set k | k in keys| == |keys|
  {
    if keys != [] {
      DistinctKeysCount(keys[1..]);
      assert (set k | k in keys) == {keys[0]} + (set k | k in keys[1..]);
    }
  }

  // ---------------------------------------------------------------------------------------------------------
  // Verification.

  /** `hash` is fixed when a token is minted; the other fields a request may find changed. */
  datatype TokenRecord = TokenRecord(
    id: Text, hash: Text, revokedAt: Option<int>, expiresAt: int, lastUsedAt: Option<int>)

  datatype Parsed = Parsed(id: Text, secret: Text)

  datatype Outcome = Verified(subject: TokenRecord) | Malformed | Unknown | Secret | Revoked | Expired

  /** `parseToken` and `argon2Verify`: what they say of a text, and of a hash and a secret. */
  datatype Checks = Checks(parse: Text -> Option<Parsed>, matches: (Text, Text) -> bool)

  /** The verdict on a record that was found, given whether the secret matched. */
  function Decide(record: TokenRecord, matched: bool, now: int): Outcome
  {
    if !matched then Secret
    else if record.revokedAt.Some? then Revoked
    else if record.expiresAt <= now then Expired
    else Verified(record)
  }

  /** Verification with no cache at all. */
  function Uncached(checks: Checks, presented: Text, found: Option<TokenRecord>, now: int): Outcome
  {
    match checks.parse(presented)
    case None => Malformed
    case Some(p) =>
      match found
      case None => Unknown
      case Some(record) => Decide(record, checks.matches(record.hash, p.secret), now)
  }

  /** Where a `verify` waits. `foundAt` counts the store's changes when its lookup ran. */
  datatype Call =
    | Finding(presented: Text)
    | Found(presented: Text, row: Option<TokenRecord>, foundAt: nat)
    | Hashing(presented: Text, record: TokenRecord, foundAt: nat, now: int)
    | Done(presented: Text, row: Option<TokenRecord>, foundAt: nat, now: int, outcome: Outcome)

  /** One change of the token table. */
  datatype Change =
    | Create(record: TokenRecord)
    | Revoke(id: Text, at: int)
    | RevokeAll(at: int)
    | Touch(id: Text, at: int)

  type Table = map<Text, TokenRecord>

  /** `history` is every table the store has held, newest last. */
  datatype State = State(clock: int, history: seq<Table>, cache: Cache, calls: map<nat, Call>)

  datatype Step =
    | Tick(ms: nat)
    | Alter(change: Change)
    | Begin(c: nat, presented: Text)
    | FindRow(c: nat)
    | Resume(c: nat)
    | Hashed(c: nat)

  function Now(s: State): Table
    requires s.history != []
  {
    s.history[|s.history| - 1]
  }

  function Altered(table: Table, change: Change): Table
  {
    match change
    case Create(record) => table[record.id := record.(lastUsedAt := None, revokedAt := None)]
    case Revoke(id, at) =>
      if id in table && table[id].revokedAt.None? then table[id := table[id].(revokedAt := Some(at))] else table
    case RevokeAll(at) =>
      map id | id in table :: if table[id].revokedAt.None? then table[id].(revokedAt := Some(at)) else table[id]
    case Touch(id, at) => if id in table then table[id := table[id].(lastUsedAt := Some(at))] else table
  }

  /** A new token has a new id; nothing else constrains the interleaving. */
  predicate Enabled(s: State, step: Step)
    requires s.history != []
  {
    match step
    case Tick(_) => true
    case Alter(change) => change.Create? ==> change.record.id !in Now(s)
    case Begin(c, _) => c !in s.calls
    case FindRow(c) => c in s.calls && s.calls[c].Finding?
    case Resume(c) => c in s.calls && s.calls[c].Found?
    case Hashed(c) => c in s.calls && s.calls[c].Hashing?
  }

  function Key(presented: Text): Digest { Sha256(presented) }

  /** The code between the lookup and the next await, or the answer. */
  function AfterFind(s: State, presented: Text, found: Option<TokenRecord>, foundAt: nat): (Cache, Call)
  {
    match found
    case None => (s.cache, Done(presented, None, foundAt, s.clock, Unknown))
    case Some(record) =>
      var (cache, hit) := Lookup(s.cache, Key(presented), s.clock);
      if hit.Some? && hit.value.tokenId == record.id
      then (cache, Done(presented, found, foundAt, s.clock, Decide(record, hit.value.matched, s.clock)))
      else (cache, Hashing(presented, record, foundAt, s.clock))
  }

  /** The code after `argon2Verify` resolves: the cache learns its answer, and the live checks follow. */
  function AfterHash(checks: Checks, s: State, call: Call): (Cache, Call)
    requires call.Hashing? && checks.parse(call.presented).Some?
  {
    var matched := checks.matches(call.record.hash, checks.parse(call.presented).value.secret);
    (Remember(s.cache, Key(call.presented), CacheEntry(matched, call.record.id, call.now)),
     Done(call.presented, Some(call.record), call.foundAt, call.now, Decide(call.record, matched, call.now)))
  }

  function Next(checks: Checks, s: State, step: Step): State
    requires s.history != [] && Enabled(s, step)
    requires step.Hashed? ==> checks.parse(s.calls[step.c].presented).Some?
  {
    match step
    case Tick(ms) => s.(clock := s.clock + ms)
    case Alter(change) => s.(history := s.history + [Altered(Now(s), change)])
    case Begin(c, presented) =>
      var call := if checks.parse(presented).None? then Done(presented, None, |s.history|, s.clock, Malformed)
                  else Finding(presented);
      s.(calls := s.calls[c := call])
    case FindRow(c) =>
      var presented := s.calls[c].presented;
      var id := if checks.parse(presented).Some? then checks.parse(presented).value.id else [];
      var found := if id in Now(s) then Some(Now(s)[id]) else None;
      s.(calls := s.calls[c := Found(presented, found, |s.history|)])
    case Resume(c) =>
      var call := s.calls[c];
      var (cache, call') := AfterFind(s, call.presented, call.row, call.foundAt);
      s.(cache := cache, calls := s.calls[c := call'])
    case Hashed(c) =>
      var (cache, call') := AfterHash(checks, s, s.calls[c]);
      s.(cache := cache, calls := s.calls[c := call'])
  }

  function Start(clock: int): State { State(clock, [map[]], EMPTY, map[]) }

  // ---------------------------------------------------------------------------------------------------------
  // What every step keeps.

  /** A cached match is the truth about its token's hash, for whatever text has that fingerprint. */
  ghost predicate EntryIsTrue(checks: Checks, table: Table, key: Digest, e: CacheEntry)
  {
    && e.tokenId in table
    && checks.parse(key.preimage).Some?
    && e.matched == checks.matches(table[e.tokenId].hash, checks.parse(key.preimage).value.secret)
  }

  /** The newest table knows every record a call holds, under its id and with its hash. */
  ghost predicate Knows(table: Table, record: TokenRecord)
  {
    record.id in table && table[record.id].hash == record.hash
  }

  ghost predicate CallIsTrue(checks: Checks, s: State, call: Call)
    requires s.history != []
  {
    match call
    case Finding(presented) => checks.parse(presented).Some?
    case Found(presented, found, foundAt) =>
      checks.parse(presented).Some? && FoundThen(checks, s, presented, found, foundAt)
      && (found.Some? ==> Knows(Now(s), found.value))
    case Hashing(presented, record, foundAt, now) =>
      checks.parse(presented).Some? && FoundThen(checks, s, presented, Some(record), foundAt)
      && Knows(Now(s), record)
    case Done(presented, found, foundAt, now, outcome) =>
      && outcome == Uncached(checks, presented, found, now)
      && (outcome != Malformed ==> FoundThen(checks, s, presented, found, foundAt))
  }

  /** The lookup's answer is what the store held when it ran. */
  ghost predicate FoundThen(checks: Checks, s: State, presented: Text, found: Option<TokenRecord>, foundAt: nat)
  {
    && 0 < foundAt <= |s.history| && checks.parse(presented).Some?
    && var table, id := s.history[foundAt - 1], checks.parse(presented).value.id;
       found == if id in table then Some(table[id]) else None
  }

  /** Rows stay under their own id, keep their hash, and a revocation is never taken back. */
  ghost predicate Grows(a: Table, b: Table)
  {
    forall id :: id in a ==>
      && id in b && b[id].hash == a[id].hash && b[id].id == a[id].id
      && (a[id].revokedAt.Some? ==> b[id].revokedAt == a[id].revokedAt)
  }

  ghost predicate Inv(checks: Checks, s: State)
  {
    && s.history != [] && ValidCache(s.cache)
    && (forall id :: id in Now(s) ==> Now(s)[id].id == id)
    && (forall i, j :: 0 <= i <= j < |s.history| ==> Grows(s.history[i], s.history[j]))
    && (forall k :: k in s.cache.entries ==> EntryIsTrue(checks, Now(s), k, s.cache.entries[k]))
    && (forall c :: c in s.calls ==> CallIsTrue(checks, s, s.calls[c]))
  }

  lemma GrowthIsTransitive(a: Table, b: Table, c: Table)
    requires Grows(a, b) && Grows(b, c)
    ensures Grows(a, c)
  {
  }

  lemma AlteringGrows(table: Table, change: Change)
    requires forall id :: id in table ==> table[id].id == id
    requires change.Create? ==> change.record.id !in table
    ensures Grows(table, Altered(table, change))
    ensures forall id :: id in Altered(table, change) ==> Altered(table, change)[id].id == id
  {
  }

  /** A change of the table leaves every call's story and every cached answer true. */
  lemma AlterKeepsInv(checks: Checks, s: State, change: Change)
    requires Inv(checks, s) && Enabled(s, Alter(change))
    ensures Inv(checks, Next(checks, s, Alter(change)))
  {
    hide ValidCache, Altered;
    var t := Next(checks, s, Alter(change));
    AlteringGrows(Now(s), change);
    var n := |s.history|;
    forall i, j | 0 <= i <= j < |t.history| ensures Grows(t.history[i], t.history[j]) {
      if j == n && i < n {
        GrowthIsTransitive(s.history[i], Now(s), t.history[n]);
      }
    }
    forall c | c in t.calls ensures CallIsTrue(checks, t, t.calls[c]) {
      CallStaysTrue(checks, s, t, t.calls[c]);
    }
  }

  lemma CallStaysTrue(checks: Checks, s: State, t: State, call: Call)
    requires s.history != [] && CallIsTrue(checks, s, call)
    requires t.history != [] && t.history == s.history + [Now(t)] && Grows(Now(s), Now(t))
    ensures CallIsTrue(checks, t, call)
  {
    hide Uncached;
    assert forall i :: 0 <= i < |s.history| ==> t.history[i] == s.history[i];
  }

  lemma CallKeepsInv(checks: Checks, s: State, c: nat, call: Call, cache: Cache)
    requires Inv(checks, s) && ValidCache(cache)
    requires forall k :: k in cache.entries ==> EntryIsTrue(checks, Now(s), k, cache.entries[k])
    requires CallIsTrue(checks, s, call)
    ensures Inv(checks, s.(cache := cache, calls := s.calls[c := call]))
  {
    hide ValidCache, EntryIsTrue, Grows, Uncached;
    var t := s.(cache := cache, calls := s.calls[c := call]);
    forall d | d in t.calls ensures CallIsTrue(checks, t, t.calls[d]) {
      assert CallIsTrue(checks, s, t.calls[d]);
    }
    assert Now(t) == Now(s);
  }

  lemma FindKeepsInv(checks: Checks, s: State, c: nat)
    requires Inv(checks, s) && Enabled(s, FindRow(c))
    ensures Inv(checks, Next(checks, s, FindRow(c)))
  {
    hide ValidCache, Grows;
    CallKeepsInv(checks, s, c, Next(checks, s, FindRow(c)).calls[c], s.cache);
  }

  /** A hit for this very token says what Argon2 would say. */
  lemma HitIsTrue(checks: Checks, table: Table, presented: Text, record: TokenRecord, e: CacheEntry)
    requires EntryIsTrue(checks, table, Key(presented), e) && Knows(table, record) && e.tokenId == record.id
    ensures e.matched == checks.matches(record.hash, checks.parse(presented).value.secret)
  {
  }

  lemma ResumeKeepsInv(checks: Checks, s: State, c: nat)
    requires Inv(checks, s) && Enabled(s, Resume(c))
    ensures Inv(checks, Next(checks, s, Resume(c)))
  {
    hide ValidCache, Grows, EntryIsTrue, Decide;
    var call := s.calls[c];
    var key := Key(call.presented);
    CacheStaysValid(s.cache, key, CacheEntry(false, [], 0), s.clock);
    var (cache, call') := AfterFind(s, call.presented, call.row, call.foundAt);
    assert CallIsTrue(checks, s, call);
    if call.row.Some? && key in s.cache.entries && s.cache.entries[key].tokenId == call.row.value.id {
      HitIsTrue(checks, Now(s), call.presented, call.row.value, s.cache.entries[key]);
    }
    CallKeepsInv(checks, s, c, call', cache);
  }

  lemma HashedKeepsInv(checks: Checks, s: State, c: nat)
    requires Inv(checks, s) && Enabled(s, Hashed(c))
    ensures checks.parse(s.calls[c].presented).Some? && Inv(checks, Next(checks, s, Hashed(c)))
  {
    hide ValidCache, Grows, Decide;
    var call := s.calls[c];
    assert CallIsTrue(checks, s, call);
    var key := Key(call.presented);
    var (cache, call') := AfterHash(checks, s, call);
    var entry := CacheEntry(
      checks.matches(call.record.hash, checks.parse(call.presented).value.secret), call.record.id, call.now);
    CacheStaysValid(s.cache, key, entry, 0);
    forall k | k in cache.entries ensures EntryIsTrue(checks, Now(s), k, cache.entries[k]) {
      RememberedEntries(s.cache, key, entry, k);
    }
    CallKeepsInv(checks, s, c, call', cache);
  }

  lemma StepKeepsInv(checks: Checks, s: State, step: Step)
    requires Inv(checks, s) && Enabled(s, step)
    ensures step.Hashed? ==> checks.parse(s.calls[step.c].presented).Some?
    ensures Inv(checks, Next(checks, s, step))
  {
    hide ValidCache, Grows, EntryIsTrue;
    match step
    case Tick(_) =>
      var t := Next(checks, s, step);
      assert Now(t) == Now(s);
      forall d | d in t.calls ensures CallIsTrue(checks, t, t.calls[d]) {
        assert CallIsTrue(checks, s, t.calls[d]);
      }
    case Alter(change) => AlterKeepsInv(checks, s, change);
    case Begin(c, presented) => CallKeepsInv(checks, s, c, Next(checks, s, step).calls[c], s.cache);
    case FindRow(c) => FindKeepsInv(checks, s, c);
    case Resume(c) => ResumeKeepsInv(checks, s, c);
    case Hashed(c) => HashedKeepsInv(checks, s, c);
  }

  // ---------------------------------------------------------------------------------------------------------
  // Every run.

  ghost predicate Legal(checks: Checks, s: State, steps: seq<Step>)
    decreases |steps|
  {
    steps == [] || (
      && s.history != [] && Enabled(s, steps[0])
      && (steps[0].Hashed? ==> checks.parse(s.calls[steps[0].c].presented).Some?)
      && Legal(checks, Next(checks, s, steps[0]), steps[1..]))
  }

  ghost function Run(checks: Checks, s: State, steps: seq<Step>): State
    requires Legal(checks, s, steps)
    decreases |steps|
  {
    if steps == [] then s else Run(checks, Next(checks, s, steps[0]), steps[1..])
  }

  lemma {:induction false} RunKeepsInv(checks: Checks, s: State, steps: seq<Step>)
    requires Inv(checks, s) && Legal(checks, s, steps)
    ensures Inv(checks, Run(checks, s, steps))
    decreases |steps|
  {
    hide Inv;
    if steps != [] {
      InvHasHistory(checks, s);
      StepKeepsInv(checks, s, steps[0]);
      RunKeepsInv(checks, Next(checks, s, steps[0]), steps[1..]);
    }
  }

  lemma InvHasHistory(checks: Checks, s: State)
    requires Inv(checks, s)
    ensures s.history != []
  {
  }

  /**
   In every run, a verification with the cache comes out as one without it, on the row the store held when the
   lookup ran and the clock sample taken after it; and the cache stays within a thousand entries.
  */
  lemma CacheIsInvisible(checks: Checks, clock: int, steps: seq<Step>, c: nat)
    requires Legal(checks, Start(clock), steps)
    requires c in Run(checks, Start(clock), steps).calls && Run(checks, Start(clock), steps).calls[c].Done?
    ensures
      var s := Run(checks, Start(clock), steps);
      var call := s.calls[c];
      && call.outcome == Uncached(checks, call.presented, call.row, call.now)
      && (call.outcome != Malformed ==> FoundThen(checks, s, call.presented, call.row, call.foundAt))
      && |s.cache.entries| <= 1_000
  {
    hide Uncached;
    RunKeepsInv(checks, Start(clock), steps);
    var s := Run(checks, Start(clock), steps);
    assert CallIsTrue(checks, s, s.calls[c]);
    EntriesAndKeys(s.cache);
  }

  /**
   In every run a token is accepted exactly when its text parses, the row under its id was found, the secret
   matches that row's hash, and the row is neither revoked nor, at the clock sample taken after the lookup, expired.
  */
  lemma AcceptedExactly(checks: Checks, clock: int, steps: seq<Step>, c: nat)
    requires Legal(checks, Start(clock), steps)
    requires c in Run(checks, Start(clock), steps).calls && Run(checks, Start(clock), steps).calls[c].Done?
    ensures
      var call := Run(checks, Start(clock), steps).calls[c];
      var parsed := checks.parse(call.presented);
      && (call.outcome.Verified? <==>
            && parsed.Some? && call.row.Some?
            && checks.matches(call.row.value.hash, parsed.value.secret)
            && call.row.value.revokedAt.None? && call.now < call.row.value.expiresAt)
      && (call.outcome.Verified? ==> call.row == Some(call.outcome.subject) && call.row.value.id == parsed.value.id)
  {
    hide Legal, Run;
    RunKeepsInv(checks, Start(clock), steps);
    var s := Run(checks, Start(clock), steps);
    var call := s.calls[c];
    assert CallIsTrue(checks, s, call);
    if call.outcome.Verified? {
      var id := checks.parse(call.presented).value.id;
      assert Grows(s.history[call.foundAt - 1], Now(s));
      assert id in s.history[call.foundAt - 1] && Now(s)[id].id == id;
    }
  }

  /** And each refusal says which of those conditions fails first. */
  lemma RefusedExactly(checks: Checks, clock: int, steps: seq<Step>, c: nat)
    requires Legal(checks, Start(clock), steps)
    requires c in Run(checks, Start(clock), steps).calls && Run(checks, Start(clock), steps).calls[c].Done?
    ensures
      var call := Run(checks, Start(clock), steps).calls[c];
      var parsed, row := checks.parse(call.presented), call.row;
      && (call.outcome.Malformed? <==> parsed.None?)
      && (call.outcome.Unknown? <==> parsed.Some? && row.None?)
      && (call.outcome.Secret? <==> parsed.Some? && row.Some? && !checks.matches(row.value.hash, parsed.value.secret))
      && (call.outcome.Revoked? <==>
            parsed.Some? && row.Some? && checks.matches(row.value.hash, parsed.value.secret)
            && row.value.revokedAt.Some?)
      && (call.outcome.Expired? <==>
            parsed.Some? && row.Some? && checks.matches(row.value.hash, parsed.value.secret)
            && row.value.revokedAt.None? && row.value.expiresAt <= call.now)
  {
    hide Legal, Run;
    CacheIsInvisible(checks, clock, steps, c);
  }

  /** A verification whose lookup runs after a revocation of its token is not accepted, cached or not. */
  lemma RevocationIsImmediate(checks: Checks, clock: int, steps: seq<Step>, c: nat, revoked: nat)
    requires Legal(checks, Start(clock), steps)
    requires c in Run(checks, Start(clock), steps).calls && Run(checks, Start(clock), steps).calls[c].Done?
    requires checks.parse(Run(checks, Start(clock), steps).calls[c].presented).Some?
    requires
      var s := Run(checks, Start(clock), steps);
      var id := checks.parse(s.calls[c].presented).value.id;
      && revoked < s.calls[c].foundAt && revoked < |s.history|
      && id in s.history[revoked] && s.history[revoked][id].revokedAt.Some?
    ensures !Run(checks, Start(clock), steps).calls[c].outcome.Verified?
  {
    RunKeepsInv(checks, Start(clock), steps);
    var s := Run(checks, Start(clock), steps);
    var call := s.calls[c];
    assert CallIsTrue(checks, s, call);
    if call.outcome != Malformed {
      assert Grows(s.history[revoked], s.history[call.foundAt - 1]);
    }
  }

  // ---------------------------------------------------------------------------------------------------------
  // A verification left alone.

  lemma Prefixed(checks: Checks, s: State, step: Step, rest: seq<Step>)
    requires s.history != [] && Enabled(s, step)
    requires step.Hashed? ==> checks.parse(s.calls[step.c].presented).Some?
    requires Legal(checks, Next(checks, s, step), rest)
    ensures Legal(checks, s, [step] + rest)
    ensures Run(checks, s, [step] + rest) == Run(checks, Next(checks, s, step), rest)
  {
    assert ([step] + rest)[1..] == rest;
  }

  lemma NothingMore(checks: Checks, s: State)
    ensures Legal(checks, s, []) && Run(checks, s, []) == s
  {
  }

  /** The row that a text presented now would find. */
  function RowOf(checks: Checks, s: State, presented: Text): Option<TokenRecord>
    requires s.history != []
  {
    match checks.parse(presented)
    case None => None
    case Some(p) => if p.id in Now(s) then Some(Now(s)[p.id]) else None
  }

  /** The steps a verification takes: to its row, on after `ms`, and to Argon2 when the cache has no answer for it. */
  ghost predicate GoesOn(checks: Checks, s: State, c: nat, presented: Text, ms: nat, steps: seq<Step>)
  {
    && |steps| <= 5 && |steps| > 0 && steps[0] == Begin(c, presented)
    && Legal(checks, s, steps)
    && var t := Run(checks, s, steps);
       && c in t.calls && t.calls[c].Done? && t.history == s.history
       && s.history != []
       && t.calls[c].outcome == Uncached(checks, presented, RowOf(checks, s, presented), t.calls[c].now)
       && (t.calls[c].outcome != Malformed ==> t.calls[c].now == s.clock + ms)
  }

  /** In any reachable state a verification can begin and come to the answer that there is without a cache. */
  lemma VerifyGoesOn(checks: Checks, s: State, c: nat, presented: Text, ms: nat) returns (steps: seq<Step>)
    requires Inv(checks, s) && c !in s.calls
    ensures GoesOn(checks, s, c, presented, ms, steps)
  {
    hide Legal, Run, Inv, Uncached, Remember, Lookup, Decide, Altered;
    InvHasHistory(checks, s);
    var b1 := Begin(c, presented);
    var s1 := Next(checks, s, b1);
    StepKeepsInv(checks, s, b1);
    if checks.parse(presented).None? {
      steps := [b1] + [];
      NothingMore(checks, s1);
      Prefixed(checks, s, b1, []);
      DoneIsUncached(checks, s1, c);
      return;
    }
    var b2, b3, b4 := FindRow(c), Tick(ms), Resume(c);
    var s2 := Next(checks, s1, b2);
    StepKeepsInv(checks, s1, b2);
    var s3 := Next(checks, s2, b3);
    StepKeepsInv(checks, s2, b3);
    var s4 := Next(checks, s3, b4);
    StepKeepsInv(checks, s3, b4);
    NothingMore(checks, s4);
    var rest: seq<Step> := [];
    if s4.calls[c].Hashing? {
      var b5 := Hashed(c);
      StepKeepsInv(checks, s4, b5);
      var s5 := Next(checks, s4, b5);
      NothingMore(checks, s5);
      Prefixed(checks, s4, b5, []);
      rest := [b5] + [];
      DoneIsUncached(checks, s5, c);
    } else {
      DoneIsUncached(checks, s4, c);
    }
    Prefixed(checks, s3, b4, rest);
    Prefixed(checks, s2, b3, [b4] + rest);
    Prefixed(checks, s1, b2, [b3] + ([b4] + rest));
    Prefixed(checks, s, b1, [b2] + ([b3] + ([b4] + rest)));
    steps := [b1] + ([b2] + ([b3] + ([b4] + rest)));
  }

  lemma DoneIsUncached(checks: Checks, s: State, c: nat)
    requires Inv(checks, s) && c in s.calls && s.calls[c].Done?
    ensures s.calls[c].outcome == Uncached(checks, s.calls[c].presented, s.calls[c].row, s.calls[c].now)
  {
    assert CallIsTrue(checks, s, s.calls[c]);
  }

  /** A token is created unrevoked and unused, under its own id, with the hash and the expiry it was minted with. */
  lemma CreatedIsLive(table: Table, record: TokenRecord)
    ensures
      var after := Altered(table, Create(record));
      && after.Keys == table.Keys + {record.id}
      && after[record.id] == TokenRecord(record.id, record.hash, None, record.expiresAt, None)
      && forall k :: k in table && k != record.id ==> after[k] == table[k]
  {
  }

  /** Using a token moves nothing but when it was last used. */
  lemma TouchedIsTheSame(table: Table, id: Text, at: int)
    ensures
      var after := Altered(table, Touch(id, at));
      && after.Keys == table.Keys
      && (id in table ==> after[id] == table[id].(lastUsedAt := Some(at)))
      && forall k :: k in table && k != id ==> after[k] == table[k]
  {
  }

  // ---------------------------------------------------------------------------------------------------------
  // Revoking.

  /** The tokens that a revocation of them all would change. */
  function Unrevoked(table: Table): set<Text>
  {
    set id | id in table && table[id].revokedAt.None?
  }

  /** The token half of the in-memory store. */
  class TokenStore {
    var tokens: Table

    constructor ()
      ensures tokens == map[]
    {
      tokens := map[];
    }

    /** Whether it revoked. */
    method RevokeToken(id: Text, at: int) returns (revoked: bool)
      modifies this
      ensures tokens == Altered(old(tokens), Revoke(id, at))
      ensures revoked <==> id in Unrevoked(old(tokens))
    {
      if id !in tokens || tokens[id].revokedAt.Some? {
        return false;
      }
      tokens := tokens[id := tokens[id].(revokedAt := Some(at))];
      return true;
    }

    /** How many it revoked. */
    method RevokeAllTokens(at: int) returns (count: nat)
      modifies this
      ensures tokens == Altered(old(tokens), RevokeAll(at))
      ensures count == |Unrevoked(old(tokens))|
    {
      hide Altered, Unrevoked;
      count := 0;
      ghost var was, live := tokens, Unrevoked(tokens);
      UnrevokedMeans(was);
      var todo := tokens.Keys;
      assert live * todo == live;
      while todo != {}
        invariant todo <= tokens.Keys == was.Keys
        invariant forall id :: id in was ==>
          tokens[id] == if id in todo || id !in live then was[id] else was[id].(revokedAt := Some(at))
        invariant count + |live * todo| == |live|
      {
        var id :| id in todo;
        if tokens[id].revokedAt.None? {
          tokens := tokens[id := tokens[id].(revokedAt := Some(at))];
          count := count + 1;
          assert live * todo == live * (todo - {id}) + {id};
        } else {
          assert live * todo == live * (todo - {id});
        }
        todo := todo - {id};
      }
      assert live * todo == {};
      AllRevoked(was, tokens, at);
    }
  }

  lemma UnrevokedMeans(table: Table)
    ensures forall id :: id in Unrevoked(table) <==> id in table && table[id].revokedAt.None?
  {
  }

  lemma AllRevoked(was: Table, after: Table, at: int)
    requires was.Keys == after.Keys
    requires forall id :: id in was ==>
      after[id] == if id !in Unrevoked(was) then was[id] else was[id].(revokedAt := Some(at))
    ensures after == Altered(was, RevokeAll(at))
  {
  }

  /** Revoking changes a token exactly when it was unrevoked, leaves it revoked, and moves no earlier revocation. */
  lemma RevokingRevokes(table: Table, id: Text, at: int)
    ensures Altered(table, Revoke(id, at)) != table <==> id in Unrevoked(table)
    ensures id in table ==> Altered(table, Revoke(id, at))[id].revokedAt.Some?
    ensures forall k :: k in table && k != id ==> Altered(table, Revoke(id, at))[k] == table[k]
    ensures Altered(table, RevokeAll(at)) != table <==> Unrevoked(table) != {}
    ensures Unrevoked(Altered(table, RevokeAll(at))) == {}
    ensures forall k :: k in table ==>
      Altered(table, RevokeAll(at))[k].revokedAt == if table[k].revokedAt.Some? then table[k].revokedAt else Some(at)
  {
    if id in Unrevoked(table) {
      assert Altered(table, Revoke(id, at))[id] != table[id];
    }
    if k :| k in Unrevoked(table) {
      assert Altered(table, RevokeAll(at))[k] != table[k];
    }
    if Unrevoked(table) == {} {
      forall k | k in table ensures table[k].revokedAt.Some? {
        assert k !in Unrevoked(table);
      }
      assert Altered(table, RevokeAll(at)) == table;
    }
  }
}
