/**
 The confirmation service and the store beneath it: issue, verify, and the two ways a row is consumed.
 Times are milliseconds.
*/
module Confirmation {
  import opened Texts
  import opened Hashing

  const CONFIRMATION_TTL_MS := 120 * 1000

  datatype Row = Row(
    id: Text, fingerprint: Digest, diffHash: Digest, operation: Text, subject: Text,
    issuedAt: int, expiresAt: int, consumedAt: Option<int>)

  type Rows = map<Text, Row>

  datatype Reason = Malformed | Unknown | Secret | Consumed | Expired | Stale | Subject

  datatype Verdict = Accepted(row: Row) | Rejected(reason: Reason)

  // ---------------------------------------------------------------------------------------------------------
  // The token text.

  const PREFIX: Text := [0x70, 0x72, 0x69, 0x73, 0x6D, 0x65, 0x5F, 0x63, 0x6E, 0x66, 0x5F]  // prisme_cnf_
  const DOT: CodeUnit := 0x2E
  const ID_LENGTH := 16
  const SECRET_LENGTH := 43

  predicate IsBase64Url(t: Text)
  {
    forall i :: 0 <= i < |t| ==>
      0x41 <= t[i] <= 0x5A || 0x61 <= t[i] <= 0x7A || 0x30 <= t[i] <= 0x39 || t[i] == 0x5F || t[i] == 0x2D
  }

  /** What `String.prototype.trim` removes. */
  predicate IsSpace(u: CodeUnit)
  {
    0x09 <= u <= 0x0D || 0x2000 <= u <= 0x200A
    || u in {0x20, 0xA0, 0x1680, 0x2028, 0x2029, 0x202F, 0x205F, 0x3000, 0xFEFF}
  }

  function TrimStart(t: Text): Text
  {
    if t != [] && IsSpace(t[0]) then TrimStart(t[1..]) else t
  }

  function TrimEnd(t: Text): Text
  {
    if t != [] && IsSpace(t[|t| - 1]) then TrimEnd(t[..|t| - 1]) else t
  }

  function Trim(t: Text): Text { TrimEnd(TrimStart(t)) }

  /** The id a presented token names, when it has the shape of one. The shape is read off the trimmed text. */
  function IdOf(token: Text): Option<Text>
  {
    var t := Trim(token);
    var p := |PREFIX|;
    if && |t| == p + ID_LENGTH + 1 + SECRET_LENGTH && t[..p] == PREFIX
       && IsBase64Url(t[p..p + ID_LENGTH]) && t[p + ID_LENGTH] == DOT && IsBase64Url(t[p + ID_LENGTH + 1..])
    then Some(t[p..p + ID_LENGTH])
    else None
  }

  predicate Minted(id: Text, secret: Text)
  {
    |id| == ID_LENGTH && |secret| == SECRET_LENGTH && IsBase64Url(id) && IsBase64Url(secret)
  }

  function TokenText(id: Text, secret: Text): Text { PREFIX + id + [DOT] + secret }

  function Fingerprint(token: Text): Digest { Sha256(token) }

  lemma BareStays(t: Text)
    requires t != [] && !IsSpace(t[0]) && !IsSpace(t[|t| - 1])
    ensures Trim(t) == t
  {
  }

  lemma IssuedTokenNamesItsId(id: Text, secret: Text)
    requires Minted(id, secret)
    ensures IdOf(TokenText(id, secret)) == Some(id)
  {
    var t := TokenText(id, secret);
    var p := |PREFIX|;
    assert t[0] == PREFIX[0];
    assert t[|t| - 1] == secret[SECRET_LENGTH - 1];
    BareStays(t);
    hide Trim, IsBase64Url, IsSpace;
    assert t[..p] == PREFIX && t[p..p + ID_LENGTH] == id && t[p + ID_LENGTH + 1..] == secret;
  }

  ghost predicate AllSpace(t: Text) { forall i :: 0 <= i < |t| ==> IsSpace(t[i]) }

  lemma {:induction false} PaddingComesOff(before: Text, t: Text, after: Text)
    requires AllSpace(before) && AllSpace(after) && t != [] && !IsSpace(t[0]) && !IsSpace(t[|t| - 1])
    ensures Trim(before + t + after) == t
    decreases |before| + |after|
  {
    var all := before + t + after;
    if before != [] {
      PaddingComesOff(before[1..], t, after);
      assert all[0] == before[0] && all[1..] == before[1..] + t + after;
    } else if after != [] {
      assert all == t + after && TrimStart(all) == all;
      assert all[..|all| - 1] == t + after[..|after| - 1];
      PaddingComesOff([], t, after[..|after| - 1]);
      assert [] + t + after[..|after| - 1] == t + after[..|after| - 1];
    } else {
      assert all == t;
      BareStays(t);
    }
  }

  /** However it is padded, an issued token has the shape and names its id. */
  lemma PaddedTokenNamesItsId(id: Text, secret: Text, before: Text, after: Text)
    requires Minted(id, secret) && AllSpace(before) && AllSpace(after)
    ensures IdOf(before + TokenText(id, secret) + after) == Some(id)
  {
    var t := TokenText(id, secret);
    assert t[0] == PREFIX[0] && t[|t| - 1] == secret[SECRET_LENGTH - 1];
    PaddingComesOff(before, t, after);
    BareStays(t);
    IssuedTokenNamesItsId(id, secret);
  }

  /** A text with the shape of a token is one, padded: with its own id and some secret. */
  lemma ShapedTextIsAToken(token: Text, id: Text) returns (before: Text, secret: Text, after: Text)
    requires IdOf(token) == Some(id)
    ensures Minted(id, secret) && AllSpace(before) && AllSpace(after)
    ensures token == before + TokenText(id, secret) + after
  {
    var t := Trim(token);
    var p := |PREFIX|;
    secret := t[p + ID_LENGTH + 1..];
    assert t == TokenText(id, secret) by {
      assert t == t[..p] + t[p..p + ID_LENGTH] + [t[p + ID_LENGTH]] + secret;
    }
    before := PaddingBefore(token);
    after := PaddingAfter(TrimStart(token));
    assert token == before + (t + after) == before + t + after;
  }

  lemma {:induction false} PaddingBefore(t: Text) returns (before: Text)
    ensures AllSpace(before) && t == before + TrimStart(t)
  {
    if t != [] && IsSpace(t[0]) {
      var more := PaddingBefore(t[1..]);
      before := [t[0]] + more;
      assert t == [t[0]] + t[1..];
    } else {
      before := [];
    }
  }

  lemma {:induction false} PaddingAfter(t: Text) returns (after: Text)
    ensures AllSpace(after) && t == TrimEnd(t) + after
  {
    if t != [] && IsSpace(t[|t| - 1]) {
      var more := PaddingAfter(t[..|t| - 1]);
      after := more + [t[|t| - 1]];
      assert t == t[..|t| - 1] + [t[|t| - 1]];
    } else {
      after := [];
    }
  }

  /** A presented text names an id exactly when it is, padding aside, a token text with that id. */
  lemma NamesIdExactly(token: Text, id: Text)
    ensures IdOf(token) == Some(id) <==>
      exists before, secret, after ::
        Minted(id, secret) && AllSpace(before) && AllSpace(after) && token == before + TokenText(id, secret) + after
  {
    hide IdOf, TokenText, Minted, AllSpace;
    if IdOf(token) == Some(id) {
      var before, secret, after := ShapedTextIsAToken(token, id);
    }
    if before, secret, after :|
      Minted(id, secret) && AllSpace(before) && AllSpace(after) && token == before + TokenText(id, secret) + after
    {
      PaddedTokenNamesItsId(id, secret, before, after);
    }
  }

  /** The base64url character of a value: A to Z, a to z, 0 to 9, - and _ (section 5 of RFC 4648). */
  function Character(value: nat): CodeUnit
    requires value < 64
  {
    if value < 26 then 0x41 + value
    else if value < 52 then 0x61 + value - 26
    else if value < 62 then 0x30 + value - 52
    else if value == 62 then 0x2D
    else 0x5F
  }

  ghost predicate IsCharacter(u: CodeUnit) { exists value: nat :: value < 64 && Character(value) == u }

  lemma CharactersAreExactly(u: CodeUnit)
    ensures IsCharacter(u) <==> 0x41 <= u <= 0x5A || 0x61 <= u <= 0x7A || 0x30 <= u <= 0x39 || u == 0x5F || u == 0x2D
  {
    if 0x41 <= u <= 0x5A { assert Character(u - 0x41) == u; }
    if 0x61 <= u <= 0x7A { assert Character(u - 0x61 + 26) == u; }
    if 0x30 <= u <= 0x39 { assert Character(u - 0x30 + 52) == u; }
    if u == 0x2D { assert Character(62) == u; }
    if u == 0x5F { assert Character(63) == u; }
  }

  lemma Base64UrlIsItsCharacters(t: Text)
    ensures IsBase64Url(t) <==> forall i :: 0 <= i < |t| ==> IsCharacter(t[i])
  {
    hide IsCharacter;
    forall i | 0 <= i < |t| {
      CharactersAreExactly(t[i]);
    }
  }

  /** What is minted is base64url without padding, of twelve bytes and of thirty-two: six bits a character. */
  lemma MintedIsBase64Url(id: Text, secret: Text)
    ensures Minted(id, secret) <==>
      && 6 * (|id| - 1) < 8 * 12 <= 6 * |id| && (forall i :: 0 <= i < |id| ==> IsCharacter(id[i]))
      && 6 * (|secret| - 1) < 8 * 32 <= 6 * |secret| && (forall i :: 0 <= i < |secret| ==> IsCharacter(secret[i]))
  {
    hide IsCharacter, IsBase64Url;
    Base64UrlIsItsCharacters(id);
    Base64UrlIsItsCharacters(secret);
  }

  // ---------------------------------------------------------------------------------------------------------
  // The store, as functions of its rows.

  function Find(rows: Rows, id: Text): Option<Row>
  {
    if id in rows then Some(rows[id]) else None
  }

  predicate Live(rows: Rows, id: Text)
  {
    id in rows && rows[id].consumedAt.None?
  }

  /** Take the row and mark it used in one step; the answer is the row as it was before. */
  function Consume(rows: Rows, id: Text, at: int): (Rows, Option<Row>)
  {
    if id !in rows then (rows, None)
    else
      var row := rows[id];
      (rows[id := row.(consumedAt := if row.consumedAt.None? then Some(at) else row.consumedAt)], Some(row))
  }

  function DeleteExpired(rows: Rows, before: int): Rows
  {
    map id | id in rows && !(rows[id].expiresAt < before) :: rows[id]
  }

  /** First SQL statement: UPDATE … WHERE id = … AND consumed_at IS NULL RETURNING *. */
  function Update(rows: Rows, id: Text, at: int): (Rows, Option<Row>)
  {
    if Live(rows, id) then (rows[id := rows[id].(consumedAt := Some(at))], Some(rows[id])) else (rows, None)
  }

  // ---------------------------------------------------------------------------------------------------------
  // Issue and verify.

  function IssuedRow(operation: Text, diffHash: Digest, subject: Text, id: Text, secret: Text, now: int): Row
  {
    Row(id, Fingerprint(TokenText(id, secret)), diffHash, operation, subject, now, now + CONFIRMATION_TTL_MS, None)
  }

  /** The checks `verify` makes on what the store answered, in their order. */
  function Judge(found: Option<Row>, token: Text, diffHash: Digest, subject: Text, now: int): Verdict
  {
    if found.None? then Rejected(Unknown)
    else
      var row := found.value;
      if row.consumedAt.Some? then Rejected(Consumed)
      else if row.fingerprint != Fingerprint(token) then Rejected(Secret)
      else if row.expiresAt <= now then Rejected(Expired)
      else if row.subject != subject then Rejected(Subject)
      else if row.diffHash != diffHash then Rejected(Stale)
      else Accepted(row)
  }

  /** Which refusal a presented token meets: the first of what is wrong with it, and acceptance when nothing is. */
  lemma JudgedExactly(found: Option<Row>, token: Text, diffHash: Digest, subject: Text, now: int)
    ensures Judge(found, token, diffHash, subject, now) == Rejected(Unknown) <==> found.None?
    ensures Judge(found, token, diffHash, subject, now) != Rejected(Malformed)
    ensures found.Some? ==>
      var row, verdict := found.value, Judge(found, token, diffHash, subject, now);
      var used, forged, late := row.consumedAt.Some?, row.fingerprint.preimage != token, row.expiresAt <= now;
      && (verdict == Rejected(Consumed) <==> used)
      && (verdict == Rejected(Secret) <==> !used && forged)
      && (verdict == Rejected(Expired) <==> !used && !forged && late)
      && (verdict == Rejected(Subject) <==> !used && !forged && !late && row.subject != subject)
      && (verdict == Rejected(Stale) <==>
            !used && !forged && !late && row.subject == subject && row.diffHash != diffHash)
      && (verdict.Accepted? <==> !used && !forged && !late && row.subject == subject && row.diffHash == diffHash)
      && (verdict.Accepted? ==> verdict.row == row)
  {
  }

  /** One whole `verify` against the atomic store. */
  function Verify(rows: Rows, token: Text, diffHash: Digest, subject: Text, now: int): (Rows, Verdict)
  {
    match IdOf(token)
    case None => (rows, Rejected(Malformed))
    case Some(id) =>
      var (rows', found) := Consume(rows, id, now);
      (rows', Judge(found, token, diffHash, subject, now))
  }

  /**
   A token just issued is accepted exactly for its own subject and diff, within two minutes, and untrimmed:
   the shape is read off the trimmed text but the fingerprint is taken of the text as presented. It is rejected as
   stale exactly when everything but the diff is right, and for its secret exactly when it is any other text.
  */
  lemma IssuedTokenIsAcceptedExactly(
      rows: Rows, operation: Text, diffHash: Digest, subject: Text, id: Text, secret: Text, issuedAt: int,
      token: Text, diffHash': Digest, subject': Text, now: int)
    requires Minted(id, secret) && IdOf(token) == Some(id)
    ensures
      var row := IssuedRow(operation, diffHash, subject, id, secret, issuedAt);
      Verify(rows[id := row], token, diffHash', subject', now).1.Accepted? <==>
        && token == TokenText(id, secret)
        && now < issuedAt + 120_000
        && subject' == subject
        && diffHash' == diffHash
    ensures
      var row := IssuedRow(operation, diffHash, subject, id, secret, issuedAt);
      Verify(rows[id := row], token, diffHash', subject', now).1 == Rejected(Stale) <==>
        && token == TokenText(id, secret)
        && now < issuedAt + 120_000
        && subject' == subject
        && diffHash' != diffHash
    ensures
      var row := IssuedRow(operation, diffHash, subject, id, secret, issuedAt);
      Verify(rows[id := row], token, diffHash', subject', now).1 == Rejected(Secret) <==>
        token != TokenText(id, secret)
  {
    hide IdOf, TokenText, Minted;
  }

  /** So an issued token presented with any white space around it is rejected as a wrong secret, and burned. */
  lemma PaddedTokenIsBurned(
      rows: Rows, operation: Text, diffHash: Digest, subject: Text, id: Text, secret: Text, issuedAt: int,
      before: Text, after: Text, diffHash': Digest, subject': Text, now: int)
    requires Minted(id, secret) && AllSpace(before) && AllSpace(after) && before + after != []
    ensures
      var issued := rows[id := IssuedRow(operation, diffHash, subject, id, secret, issuedAt)];
      var (later, verdict) := Verify(issued, before + TokenText(id, secret) + after, diffHash', subject', now);
      && verdict == Rejected(Secret)
      && !Live(later, id)
      && Verify(later, TokenText(id, secret), diffHash, subject, now).1 == Rejected(Consumed)
  {
    hide IdOf, TokenText, Minted, Fingerprint;
    var padded := before + TokenText(id, secret) + after;
    PaddedTokenNamesItsId(id, secret, before, after);
    IssuedTokenNamesItsId(id, secret);
    assert |padded| > |TokenText(id, secret)|;
    IssuedTokenIsAcceptedExactly(
      rows, operation, diffHash, subject, id, secret, issuedAt, padded, diffHash', subject', now);
  }

  /** Any attempt burns the id: whatever is presented later under it is rejected, until the row is deleted. */
  lemma AttemptBurnsToken(
      rows: Rows, token: Text, diffHash: Digest, subject: Text, now: int,
      token': Text, diffHash': Digest, subject': Text, now': int)
    requires IdOf(token).Some? && IdOf(token') == IdOf(token)
    ensures
      var after := Verify(rows, token, diffHash, subject, now).0;
      var second := Verify(after, token', diffHash', subject', now');
      second.1 == Rejected(if IdOf(token).value in rows then Consumed else Unknown) && second.0 == after
  {
    hide IdOf;
  }

  /** The in-memory store. */
  class MemoryAuthStore {
    var confirmations: Rows

    constructor ()
      ensures confirmations == map[]
    {
      confirmations := map[];
    }

    method CreateConfirmation(record: Row)
      modifies this
      ensures confirmations == old(confirmations)[record.id := record]
    {
      confirmations := confirmations[record.id := record];
    }

    method ConsumeConfirmation(id: Text, at: int) returns (found: Option<Row>)
      modifies this
      ensures (confirmations, found) == Consume(old(confirmations), id, at)
    {
      if id !in confirmations {
        return None;
      }
      var record := confirmations[id];
      var consumedAt := if record.consumedAt.Some? then record.consumedAt else Some(at);
      confirmations := confirmations[id := record.(consumedAt := consumedAt)];
      return Some(record);
    }

    method DeleteExpiredConfirmations(before: int) returns (count: nat)
      modifies this
      ensures confirmations == DeleteExpired(old(confirmations), before)
      ensures count == |old(confirmations)| - |confirmations|
    {
      count := 0;
      ghost var rows := confirmations;
      var todo := confirmations.Keys;
      while todo != {}
        invariant todo <= confirmations.Keys <= rows.Keys
        invariant forall id :: id in rows ==>
          (id in confirmations <==> id in todo || !(rows[id].expiresAt < before))
        invariant forall id :: id in confirmations ==> confirmations[id] == rows[id]
        invariant count + |confirmations.Keys| == |rows.Keys|
      {
        var id :| id in todo;
        if confirmations[id].expiresAt < before {
          ghost var was := confirmations.Keys;
          confirmations := confirmations - {id};
          assert confirmations.Keys == was - {id};
          count := count + 1;
        }
        todo := todo - {id};
      }
    }
  }

  /** The service, with its clock and random bytes as arguments. */
  class ConfirmationService {
    const store: MemoryAuthStore

    constructor (store: MemoryAuthStore)
      ensures this.store == store
    {
      this.store := store;
    }

    method Issue(operation: Text, diffHash: Digest, subject: Text, id: Text, secret: Text, now: int)
      returns (token: Text, expiresAt: int)
      modifies store
      ensures token == TokenText(id, secret) && expiresAt == now + CONFIRMATION_TTL_MS
      ensures store.confirmations ==
        old(store.confirmations)[id := IssuedRow(operation, diffHash, subject, id, secret, now)]
    {
      token := PREFIX + id + [DOT] + secret;
      expiresAt := now + CONFIRMATION_TTL_MS;
      store.CreateConfirmation(Row(id, Fingerprint(token), diffHash, operation, subject, now, expiresAt, None));
    }

    method VerifyToken(token: Text, diffHash: Digest, subject: Text, now: int) returns (verdict: Verdict)
      modifies store
      ensures (store.confirmations, verdict) == Verify(old(store.confirmations), token, diffHash, subject, now)
    {
      hide IdOf;
      var id := IdOf(token);
      if id.None? {
        return Rejected(Malformed);
      }
      var found := store.ConsumeConfirmation(id.value, now);
      if found.None? {
        return Rejected(Unknown);
      }
      var record := found.value;
      if record.consumedAt.Some? {
        return Rejected(Consumed);
      }
      if record.fingerprint != Fingerprint(token) {
        return Rejected(Secret);
      }
      if record.expiresAt <= now {
        return Rejected(Expired);
      }
      if record.subject != subject {
        return Rejected(Subject);
      }
      if record.diffHash != diffHash {
        return Rejected(Stale);
      }
      return Accepted(record);
    }
  }
}
