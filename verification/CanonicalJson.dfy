/**
 The canonical serializer behind `hashPlan`, the one behind `contentHash`, and a parser that undoes them.
*/
module CanonicalJson {
  import opened Texts
  import opened Sorting
  import opened Json

  const QUOTE: CodeUnit := 0x22
  const BACKSLASH: CodeUnit := 0x5C
  const COMMA: CodeUnit := 0x2C
  const COLON: CodeUnit := 0x3A
  const OPEN_BRACKET: CodeUnit := 0x5B
  const CLOSE_BRACKET: CodeUnit := 0x5D
  const OPEN_BRACE: CodeUnit := 0x7B
  const CLOSE_BRACE: CodeUnit := 0x7D
  const LOWER_U: CodeUnit := 0x75

  const NULL_TEXT: Text := [0x6E, 0x75, 0x6C, 0x6C]
  const TRUE_TEXT: Text := [0x74, 0x72, 0x75, 0x65]
  const FALSE_TEXT: Text := [0x66, 0x61, 0x6C, 0x73, 0x65]

  // ---------------------------------------------------------------------------------------------------------
  // JSON.stringify of a string: section 7 of RFC 8259, with lone surrogates escaped as ECMA-262 asks.

  predicate IsHigh(u: CodeUnit) { 0xD800 <= u < 0xDC00 }
  predicate IsLow(u: CodeUnit) { 0xDC00 <= u < 0xE000 }

  /** Lower-case hexadecimal. */
  function HexDigit(n: int): (u: CodeUnit)
    requires 0 <= n < 16
  {
    if n < 10 then 0x30 + n else 0x61 + n - 10
  }

  function HexValue(u: CodeUnit): Option<int>
  {
    if 0x30 <= u <= 0x39 then Some(u - 0x30)
    else if 0x61 <= u <= 0x66 then Some(u - 0x61 + 10)
    else if 0x41 <= u <= 0x46 then Some(u - 0x41 + 10)
    else None
  }

  function HexEscape(u: CodeUnit): Text
  {
    [BACKSLASH, LOWER_U,
     HexDigit(u / 0x1000), HexDigit(u / 0x100 % 16), HexDigit(u / 0x10 % 16), HexDigit(u % 16)]
  }

  /** One code unit that is not part of a surrogate pair. */
  function EscapeUnit(u: CodeUnit): Text
  {
    if u == 0x08 then [BACKSLASH, 0x62]
    else if u == 0x09 then [BACKSLASH, 0x74]
    else if u == 0x0A then [BACKSLASH, 0x6E]
    else if u == 0x0C then [BACKSLASH, 0x66]
    else if u == 0x0D then [BACKSLASH, 0x72]
    else if u == QUOTE || u == BACKSLASH then [BACKSLASH, u]
    else if u < 0x20 || IsHigh(u) || IsLow(u) then HexEscape(u)
    else [u]
  }

  function Escape(s: Text): Text
  {
    if s == [] then []
    else if |s| >= 2 && IsHigh(s[0]) && IsLow(s[1]) then s[..2] + Escape(s[2..])
    else EscapeUnit(s[0]) + Escape(s[1..])
  }

  /** The two units that UTF-16 spells a code point with. */
  predicate Encodes(point: int, u: CodeUnit, v: CodeUnit)
  {
    && 0x1_0000 <= point <= 0x10_FFFF
    && u == (point - 0x1_0000) / 0x400 + 0xD800 && v == (point - 0x1_0000) % 0x400 + 0xDC00
  }

  /** Two units are a surrogate pair exactly when they encode a code point past the first 65,536. */
  lemma PairsAreCodePoints(u: CodeUnit, v: CodeUnit)
    ensures IsHigh(u) && IsLow(v) <==> exists point :: Encodes(point, u, v)
  {
    if IsHigh(u) && IsLow(v) {
      var point := (u - 0xD800) * 0x400 + (v - 0xDC00) + 0x1_0000;
      assert Encodes(point, u, v);
    }
  }

  /** A unit stands for itself unless it is a quote, a backslash, a control character or half of a pair. */
  lemma EscapedExactly(u: CodeUnit)
    ensures EscapeUnit(u) != [u] <==> u == QUOTE || u == BACKSLASH || u < 0x20 || 0xD800 <= u <= 0xDFFF
    ensures EscapeUnit(u)[0] == if EscapeUnit(u) == [u] then u else BACKSLASH
  {
  }

  function Quoted(s: Text): Text { [QUOTE] + Escape(s) + [QUOTE] }

  // ---------------------------------------------------------------------------------------------------------
  // The two serializers.

  /** `canonical` of the confirmation service. */
  function Canonical(v: Json): Text
    decreases Size(v), 0
  {
    match v
    case Undefined => NULL_TEXT
    case Null => NULL_TEXT
    case Bool(b) => if b then TRUE_TEXT else FALSE_TEXT
    case Number(n) => n
    case String(s) => Quoted(s)
    case Array(items) => [OPEN_BRACKET] + JoinItems(items) + [CLOSE_BRACKET]
    case Object(ms) => [OPEN_BRACE] + JoinMembers(Ordered(ms)) + [CLOSE_BRACE]
  }

  function JoinItems(items: seq<Json>): Text
    decreases SizeItems(items), 1 + |items|
  {
    if items == [] then []
    else Canonical(items[0]) + (if |items| == 1 then [] else [COMMA] + JoinItems(items[1..]))
  }

  function JoinMembers(ms: seq<Member>): Text
    decreases SizeMembers(ms), 1 + |ms|
  {
    if ms == [] then []
    else Quoted(ms[0].key) + [COLON] + Canonical(ms[0].value)
         + (if |ms| == 1 then [] else [COMMA] + JoinMembers(ms[1..]))
  }

  datatype Rendered = Rendered(key: Text, text: Text)

  function RenderedKey(r: Rendered): Text { r.key }

  /** `canonicalize` of the connectors, on plain JSON: it renders each entry before it sorts. */
  function Canonicalize(v: Json): Text
    decreases Size(v), 0
  {
    match v
    case Undefined => NULL_TEXT
    case Null => NULL_TEXT
    case Bool(b) => if b then TRUE_TEXT else FALSE_TEXT
    case Number(n) => n
    case String(s) => Quoted(s)
    case Array(items) => [OPEN_BRACKET] + Join(RenderItems(items)) + [CLOSE_BRACKET]
    case Object(ms) =>
      [OPEN_BRACE] + Join(Pairs(SortBy(RenderEntries(Defined(ms)), RenderedKey))) + [CLOSE_BRACE]
  }

  function RenderItems(items: seq<Json>): seq<Text>
    decreases SizeItems(items), 1 + |items|
  {
    if items == [] then [] else [Canonicalize(items[0])] + RenderItems(items[1..])
  }

  function RenderEntries(ms: seq<Member>): seq<Rendered>
    decreases SizeMembers(ms), 1 + |ms|
  {
    if ms == [] then []
    else [Rendered(ms[0].key, Canonicalize(ms[0].value))] + RenderEntries(ms[1..])
  }

  function Pairs(rs: seq<Rendered>): seq<Text>
  {
    if rs == [] then [] else [Quoted(rs[0].key) + [COLON] + rs[0].text] + Pairs(rs[1..])
  }

  /** `Array.prototype.join(',')`. */
  function Join(texts: seq<Text>): Text
  {
    if texts == [] then []
    else texts[0] + (if |texts| == 1 then [] else [COMMA] + Join(texts[1..]))
  }

  // ---------------------------------------------------------------------------------------------------------
  // The parser.

  datatype Parsed<+T> = Failed | Read(value: T, rest: Text)

  function ParseEscape(t: Text): (r: Parsed<CodeUnit>)
    ensures r.Read? ==> |r.rest| < |t|
  {
    if t == [] then Failed
    else if t[0] == 0x62 then Read(0x08, t[1..])
    else if t[0] == 0x74 then Read(0x09, t[1..])
    else if t[0] == 0x6E then Read(0x0A, t[1..])
    else if t[0] == 0x66 then Read(0x0C, t[1..])
    else if t[0] == 0x72 then Read(0x0D, t[1..])
    else if t[0] == QUOTE || t[0] == BACKSLASH || t[0] == 0x2F then Read(t[0], t[1..])
    else if t[0] == LOWER_U && |t| >= 5 then
      match (HexValue(t[1]), HexValue(t[2]), HexValue(t[3]), HexValue(t[4]))
      case (Some(a), Some(b), Some(c), Some(d)) =>
        var u := a * 0x1000 + b * 0x100 + c * 0x10 + d;
        if 0 <= u < 0x1_0000 then Read(u, t[5..]) else Failed
      case _ => Failed
    else Failed
  }

  /** The rest of a string literal, after its opening quote. */
  function ParseString(t: Text): (r: Parsed<Text>)
    ensures r.Read? ==> |r.rest| < |t|
    decreases |t|
  {
    if t == [] || t[0] < 0x20 then Failed
    else if t[0] == QUOTE then Read([], t[1..])
    else if t[0] == BACKSLASH then
      match ParseEscape(t[1..])
      case Failed => Failed
      case Read(u, rest) => Prepend(u, ParseString(rest))
    else Prepend(t[0], ParseString(t[1..]))
  }

  function Prepend(u: CodeUnit, p: Parsed<Text>): Parsed<Text>
  {
    match p
    case Failed => Failed
    case Read(s, rest) => Read([u] + s, rest)
  }

  /** The longest run of numeral characters. */
  function NumeralPrefix(t: Text): (n: nat)
    ensures n <= |t|
  {
    if t != [] && IsNumeralUnit(t[0]) then 1 + NumeralPrefix(t[1..]) else 0
  }

  function ParseLiteral(t: Text): (r: Parsed<Json>)
    ensures r.Read? ==> |r.rest| < |t|
  {
    if NULL_TEXT <= t then Read(Null, t[4..])
    else if TRUE_TEXT <= t then Read(Bool(true), t[4..])
    else if FALSE_TEXT <= t then Read(Bool(false), t[5..])
    else
      var n := NumeralPrefix(t);
      if n > 0 && IsNumeral(t[..n]) then Read(Number(t[..n]), t[n..]) else Failed
  }

  function ParseValue(t: Text): (r: Parsed<Json>)
    ensures r.Read? ==> |r.rest| < |t|
    decreases |t|, 0
  {
    if t == [] then Failed
    else if t[0] == QUOTE then
      match ParseString(t[1..])
      case Failed => Failed
      case Read(s, rest) => Read(String(s), rest)
    else if t[0] == OPEN_BRACKET then
      if |t| > 1 && t[1] == CLOSE_BRACKET then Read(Array([]), t[2..])
      else
        match ParseItems(t[1..])
        case Failed => Failed
        case Read(items, rest) => Read(Array(items), rest)
    else if t[0] == OPEN_BRACE then
      if |t| > 1 && t[1] == CLOSE_BRACE then Read(Object([]), t[2..])
      else
        match ParseMembers(t[1..])
        case Failed => Failed
        case Read(ms, rest) => Read(Object(ms), rest)
    else ParseLiteral(t)
  }

  function ParseItems(t: Text): (r: Parsed<seq<Json>>)
    ensures r.Read? ==> |r.rest| < |t|
    decreases |t|, 1
  {
    match ParseValue(t)
    case Failed => Failed
    case Read(v, rest) =>
      if rest == [] then Failed
      else if rest[0] == CLOSE_BRACKET then Read([v], rest[1..])
      else if rest[0] == COMMA then
        match ParseItems(rest[1..])
        case Failed => Failed
        case Read(vs, rest') => Read([v] + vs, rest')
      else Failed
  }

  function ParseMembers(t: Text): (r: Parsed<seq<Member>>)
    ensures r.Read? ==> |r.rest| < |t|
    decreases |t|, 1
  {
    if t == [] || t[0] != QUOTE then Failed
    else
      match ParseString(t[1..])
      case Failed => Failed
      case Read(k, afterKey) =>
        if afterKey == [] || afterKey[0] != COLON then Failed
        else
          match ParseValue(afterKey[1..])
          case Failed => Failed
          case Read(v, rest) =>
            if rest == [] then Failed
            else if rest[0] == CLOSE_BRACE then Read([Member(k, v)], rest[1..])
            else if rest[0] == COMMA then
              match ParseMembers(rest[1..])
              case Failed => Failed
              case Read(ms, rest') => Read([Member(k, v)] + ms, rest')
            else Failed
  }

  // ---------------------------------------------------------------------------------------------------------
  // Strings come back.

  lemma HexDigitsComeBack(n: int)
    requires 0 <= n < 16
    ensures HexValue(HexDigit(n)) == Some(n)
  {
  }

  lemma FourNibbles(u: CodeUnit) returns (a: int, b: int, c: int, d: int)
    ensures a == u / 0x1000 && b == u / 0x100 % 16 && c == u / 0x10 % 16 && d == u % 16
    ensures 0 <= a < 16 && 0 <= b < 16 && 0 <= c < 16 && 0 <= d < 16
    ensures u == a * 0x1000 + b * 0x100 + c * 0x10 + d
  {
    a, b, c, d := u / 0x1000, u / 0x100 % 16, u / 0x10 % 16, u % 16;
    QuotientTwice(u, 0x10);
    QuotientTwice(u, 0x100);
  }

  lemma QuotientTwice(u: CodeUnit, k: int)
    requires k == 0x10 || k == 0x100
    ensures u / (16 * k) == u / k / 16 && u / k == u / (16 * k) * 16 + u / k % 16
  {
    var p := u / k;
    assert k * p <= u < k * (p + 1);
    assert 16 * k * (p / 16) <= u < 16 * k * (p / 16 + 1);
  }

  lemma HexEscapeComesBack(u: CodeUnit, rest: Text)
    ensures ParseEscape((HexEscape(u) + rest)[1..]) == Read(u, rest)
  {
    hide HexDigit, HexValue;
    var a, b, c, d := FourNibbles(u);
    HexDigitsComeBack(a);
    HexDigitsComeBack(b);
    HexDigitsComeBack(c);
    HexDigitsComeBack(d);
    var t := [LOWER_U, HexDigit(a), HexDigit(b), HexDigit(c), HexDigit(d)] + rest;
    assert (HexEscape(u) + rest)[1..] == t;
    assert t[5..] == rest;
  }

  lemma EscapeUnitComesBack(u: CodeUnit, rest: Text)
    ensures EscapeUnit(u)[0] != QUOTE && EscapeUnit(u)[0] >= 0x20
    ensures if |EscapeUnit(u)| == 1 then EscapeUnit(u) == [u] && u != BACKSLASH
            else EscapeUnit(u)[0] == BACKSLASH && ParseEscape((EscapeUnit(u) + rest)[1..]) == Read(u, rest)
  {
    hide HexDigit, HexValue;
    var e := EscapeUnit(u);
    if |e| == 6 {
      HexEscapeComesBack(u, rest);
    } else if |e| == 2 {
      assert (e + rest)[1..][1..] == rest;
    }
  }

  lemma RawUnitComesBack(u: CodeUnit, tail: Text)
    requires u >= 0x20 && u != QUOTE && u != BACKSLASH
    ensures ParseString([u] + tail) == Prepend(u, ParseString(tail))
  {
    assert ([u] + tail)[1..] == tail;
  }

  lemma UnitComesBack(u: CodeUnit, tail: Text)
    ensures ParseString(EscapeUnit(u) + tail) == Prepend(u, ParseString(tail))
  {
    EscapeUnitComesBack(u, tail);
    if |EscapeUnit(u)| == 1 {
      RawUnitComesBack(u, tail);
    } else {
      assert (EscapeUnit(u) + tail)[0] == BACKSLASH;
    }
  }

  lemma PairComesBack(h: CodeUnit, l: CodeUnit, tail: Text)
    requires IsHigh(h) && IsLow(l)
    ensures ParseString([h, l] + tail) == Prepend(h, Prepend(l, ParseString(tail)))
  {
    RawUnitComesBack(l, tail);
    RawUnitComesBack(h, [l] + tail);
    assert [h, l] + tail == [h] + ([l] + tail);
  }

  lemma QuoteEnds(rest: Text)
    ensures ParseString([QUOTE] + rest) == Read([], rest)
  {
  }

  /** A quoted string parses back to its own code units, lone surrogates included. */
  lemma {:induction false} StringComesBack(s: Text, rest: Text)
    ensures ParseString(Escape(s) + [QUOTE] + rest) == Read(s, rest)
    decreases |s|
  {
    hide ParseString, EscapeUnit;
    if s == [] {
      assert Escape(s) + [QUOTE] + rest == [QUOTE] + rest;
      QuoteEnds(rest);
    } else if |s| >= 2 && IsHigh(s[0]) && IsLow(s[1]) {
      StringComesBack(s[2..], rest);
      PairComesBack(s[0], s[1], Escape(s[2..]) + [QUOTE] + rest);
      Reassociate([s[0], s[1]], Escape(s[2..]), [QUOTE], rest);
      assert s[..2] == [s[0], s[1]];
      assert s == [s[0]] + ([s[1]] + s[2..]);
    } else {
      StringComesBack(s[1..], rest);
      UnitComesBack(s[0], Escape(s[1..]) + [QUOTE] + rest);
      Reassociate(EscapeUnit(s[0]), Escape(s[1..]), [QUOTE], rest);
      assert s == [s[0]] + s[1..];
    }
  }

  lemma Reassociate(a: Text, b: Text, c: Text, d: Text)
    ensures a + b + c + d == a + (b + c + d)
  {
  }

  // ---------------------------------------------------------------------------------------------------------
  // Values come back.

  /** What may follow a value in a longer text. */
  predicate Delimited(rest: Text)
  {
    rest == [] || rest[0] in {COMMA, CLOSE_BRACKET, CLOSE_BRACE}
  }

  lemma {:induction false} NumeralStopsAtDelimiter(n: Text, rest: Text)
    requires forall i :: 0 <= i < |n| ==> IsNumeralUnit(n[i])
    requires Delimited(rest)
    ensures NumeralPrefix(n + rest) == |n|
  {
    if n == [] {
      assert n + rest == rest;
    } else {
      assert (n + rest)[1..] == n[1..] + rest;
      NumeralStopsAtDelimiter(n[1..], rest);
    }
  }

  lemma LiteralComesBack(text: Text, rest: Text)
    requires text in {NULL_TEXT, TRUE_TEXT, FALSE_TEXT}
    ensures ParseValue(text + rest) == Read(
      if text == NULL_TEXT then Null else Bool(text == TRUE_TEXT), rest)
  {
    var t := text + rest;
    assert text <= t && t[|text|..] == rest;
    assert ParseValue(t) == ParseLiteral(t);
  }

  lemma NumberComesBack(n: Text, rest: Text)
    requires IsNumeral(n) && Delimited(rest)
    ensures ParseValue(n + rest) == Read(Number(n), rest)
  {
    var t := n + rest;
    NumeralStopsAtDelimiter(n, rest);
    assert t[..|n|] == n && t[|n|..] == rest && t[0] == n[0];
    assert ParseValue(t) == ParseLiteral(t);
  }

  lemma QuotedComesBack(s: Text, rest: Text)
    ensures ParseValue(Quoted(s) + rest) == Read(String(s), rest)
  {
    assert Quoted(s) + rest == [QUOTE] + (Escape(s) + [QUOTE] + rest);
    StringComesBack(s, rest);
  }

  lemma ScalarComesBack(v: Json, rest: Text)
    requires Plain(v) && !v.Array? && !v.Object? && Delimited(rest)
    ensures ParseValue(Canonical(v) + rest) == Read(Norm(v), rest)
  {
    hide ParseValue, Quoted;
    match v
    case String(s) => QuotedComesBack(s, rest);
    case Number(n) => NumberComesBack(n, rest);
    case Bool(b) => LiteralComesBack(Canonical(v), rest);
    case Undefined => LiteralComesBack(NULL_TEXT, rest);
    case Null => LiteralComesBack(NULL_TEXT, rest);
  }

  /** A value's text never begins with what closes a list. */
  lemma FirstUnit(v: Json)
    requires Plain(v)
    ensures Canonical(v) != [] && Canonical(v)[0] != CLOSE_BRACKET
  {
  }

  lemma {:induction false} ValueComesBack(v: Json, rest: Text)
    requires Plain(v) && Delimited(rest)
    ensures ParseValue(Canonical(v) + rest) == Read(Norm(v), rest)
    decreases Size(v), 0
  {
    hide ParseValue, ParseItems, ParseMembers, JoinItems, JoinMembers, Canonical, Norm;
    match v
    case Array(items) =>
      if items != [] {
        FirstUnit(items[0]);
        ItemsComeBack(items, rest);
      }
      ArrayComesBack(items, rest);
    case Object(ms) =>
      if Ordered(ms) != [] {
        forall m | m in Ordered(ms) ensures Plain(m.value) {
          var i :| 0 <= i < |ms| && ms[i] == m;
        }
        MembersComeBack(Ordered(ms), rest);
      }
      ObjectComesBack(ms, rest);
    case _ => ScalarComesBack(v, rest);
  }

  lemma ArrayComesBack(items: seq<Json>, rest: Text)
    requires items != [] ==> Canonical(items[0]) != [] && Canonical(items[0])[0] != CLOSE_BRACKET
    requires items != [] ==>
      ParseItems(JoinItems(items) + [CLOSE_BRACKET] + rest) == Read(NormItems(items), rest)
    ensures ParseValue(Canonical(Array(items)) + rest) == Read(Norm(Array(items)), rest)
  {
    var t := Canonical(Array(items)) + rest;
    var tail := JoinItems(items) + [CLOSE_BRACKET] + rest;
    assert t[1..] == tail;
    if items == [] {
      assert t[2..] == rest;
    } else {
      assert t[1] == Canonical(items[0])[0];
    }
  }

  lemma ObjectComesBack(ms: seq<Member>, rest: Text)
    requires Ordered(ms) != [] ==>
      ParseMembers(JoinMembers(Ordered(ms)) + [CLOSE_BRACE] + rest) == Read(NormMembers(Ordered(ms)), rest)
    ensures ParseValue(Canonical(Object(ms)) + rest) == Read(Norm(Object(ms)), rest)
  {
    var tail := JoinMembers(Ordered(ms)) + [CLOSE_BRACE] + rest;
    Reassociate([OPEN_BRACE], JoinMembers(Ordered(ms)), [CLOSE_BRACE], rest);
    if Ordered(ms) == [] {
      assert ([OPEN_BRACE] + tail)[2..] == rest;
    } else {
      assert tail[0] == QUOTE;
      OpenBraceReadsMembers(tail);
    }
  }

  lemma OpenBraceReadsMembers(tail: Text)
    requires tail != [] && tail[0] == QUOTE
    ensures ParseValue([OPEN_BRACE] + tail) ==
      match ParseMembers(tail) { case Failed => Failed case Read(ms, rest) => Read(Object(ms), rest) }
  {
    assert ([OPEN_BRACE] + tail)[1..] == tail;
  }

  /** How an item is read, whatever follows it. */
  lemma ReadItem(t: Text, v: Json, tail: Text)
    requires ParseValue(t) == Read(v, tail) && tail != []
    ensures ParseItems(t) ==
      if tail[0] == CLOSE_BRACKET then Read([v], tail[1..])
      else if tail[0] != COMMA then Failed
      else match ParseItems(tail[1..]) {
        case Failed => Failed
        case Read(vs, rest) => Read([v] + vs, rest)
      }
  {
  }

  lemma {:induction false} ItemsComeBack(items: seq<Json>, rest: Text)
    requires items != [] && forall v <- items :: Plain(v)
    ensures ParseItems(JoinItems(items) + [CLOSE_BRACKET] + rest) == Read(NormItems(items), rest)
    decreases SizeItems(items), 1 + |items|
  {
    hide ParseValue, ParseItems, Canonical, Norm, Plain;
    var all := JoinItems(items) + [CLOSE_BRACKET] + rest;
    if |items| == 1 {
      var tail := [CLOSE_BRACKET] + rest;
      ValueComesBack(items[0], tail);
      assert all == Canonical(items[0]) + tail;
      ReadItem(all, Norm(items[0]), tail);
      assert tail[1..] == rest;
      assert NormItems(items) == [Norm(items[0])];
    } else {
      var more := JoinItems(items[1..]) + [CLOSE_BRACKET] + rest;
      var tail := [COMMA] + more;
      ValueComesBack(items[0], tail);
      ItemsComeBack(items[1..], rest);
      assert all == Canonical(items[0]) + tail;
      ReadItem(all, Norm(items[0]), tail);
      assert tail[1..] == more;
    }
  }

  /** How an entry is read, whatever follows its value. */
  lemma ReadEntry(t: Text, k: Text, afterKey: Text, v: Json, tail: Text)
    requires t != [] && t[0] == QUOTE && ParseString(t[1..]) == Read(k, afterKey)
    requires afterKey != [] && afterKey[0] == COLON && ParseValue(afterKey[1..]) == Read(v, tail)
    requires tail != []
    ensures ParseMembers(t) ==
      if tail[0] == CLOSE_BRACE then Read([Member(k, v)], tail[1..])
      else if tail[0] != COMMA then Failed
      else match ParseMembers(tail[1..]) {
        case Failed => Failed
        case Read(ms, rest) => Read([Member(k, v)] + ms, rest)
      }
  {
  }

  lemma QuotedKeyComesBack(k: Text, afterKey: Text)
    ensures ParseString((Quoted(k) + afterKey)[1..]) == Read(k, afterKey)
  {
    assert (Quoted(k) + afterKey)[1..] == Escape(k) + [QUOTE] + afterKey;
    StringComesBack(k, afterKey);
  }

  lemma {:induction false} MembersComeBack(ms: seq<Member>, rest: Text)
    requires ms != [] && forall m <- ms :: Plain(m.value)
    ensures ParseMembers(JoinMembers(ms) + [CLOSE_BRACE] + rest) == Read(NormMembers(ms), rest)
    decreases SizeMembers(ms), 1 + |ms|
  {
    hide ParseMembers, ParseValue, Canonical, Norm, Plain, JoinMembers;
    var more := JoinMembers(ms[1..]) + [CLOSE_BRACE] + rest;
    var tail := if |ms| == 1 then [CLOSE_BRACE] + rest else [COMMA] + more;
    ValueComesBack(ms[0].value, tail);
    var afterKey := [COLON] + (Canonical(ms[0].value) + tail);
    var t := Quoted(ms[0].key) + afterKey;
    QuotedKeyComesBack(ms[0].key, afterKey);
    assert afterKey[1..] == Canonical(ms[0].value) + tail;
    ReadEntry(t, ms[0].key, afterKey, Norm(ms[0].value), tail);
    if |ms| == 1 { LastMemberText(ms, rest); } else { EarlierMemberText(ms, rest); }
    if |ms| == 1 {
      assert tail[1..] == rest;
      assert NormMembers(ms) == [Member(ms[0].key, Norm(ms[0].value))];
    } else {
      assert tail[1..] == more;
      MembersComeBack(ms[1..], rest);
    }
  }

  lemma LastMemberText(ms: seq<Member>, rest: Text)
    requires |ms| == 1
    ensures JoinMembers(ms) + [CLOSE_BRACE] + rest
         == Quoted(ms[0].key) + ([COLON] + (Canonical(ms[0].value) + ([CLOSE_BRACE] + rest)))
  {
    ClosedText(Quoted(ms[0].key), Canonical(ms[0].value), [], JoinMembers(ms), rest);
    assert [] + [CLOSE_BRACE] + rest == [CLOSE_BRACE] + rest;
  }

  lemma EarlierMemberText(ms: seq<Member>, rest: Text)
    requires |ms| > 1
    ensures JoinMembers(ms) + [CLOSE_BRACE] + rest
         == Quoted(ms[0].key) + ([COLON] + (Canonical(ms[0].value) +
              ([COMMA] + (JoinMembers(ms[1..]) + [CLOSE_BRACE] + rest))))
  {
    ClosedText(Quoted(ms[0].key), Canonical(ms[0].value), [COMMA] + JoinMembers(ms[1..]), JoinMembers(ms), rest);
    Reassociate([COMMA], JoinMembers(ms[1..]), [CLOSE_BRACE], rest);
  }

  lemma ClosedText(q: Text, c: Text, more: Text, all: Text, rest: Text)
    requires all == q + [COLON] + c + more
    ensures all + [CLOSE_BRACE] + rest == q + ([COLON] + (c + (more + [CLOSE_BRACE] + rest)))
  {
    ReassociateEntry(q, [COLON], c, more, [CLOSE_BRACE], rest);
  }

  lemma ReassociateEntry(q: Text, colon: Text, c: Text, more: Text, close: Text, rest: Text)
    ensures q + colon + c + more + close + rest == q + (colon + (c + (more + close + rest)))
  {
  }

  /** The parser recovers the normal form of every plain JSON value from its canonical text. */
  lemma CanonicalComesBack(v: Json)
    requires Plain(v)
    ensures ParseValue(Canonical(v)) == Read(Norm(v), [])
  {
    ValueComesBack(v, []);
    assert Canonical(v) + [] == Canonical(v);
  }

  // ---------------------------------------------------------------------------------------------------------
  // The text of a value is the text of its normal form.

  lemma {:induction false} CanonicalOfNorm(v: Json)
    ensures Canonical(v) == Print(Norm(v))
    decreases Size(v), 0
  {
    match v
    case Array(items) => JoinOfNormItems(items);
    case Object(ms) => JoinOfNormMembers(Ordered(ms));
    case _ =>
  }

  /** The text of a value already in normal form: nothing is dropped and nothing is sorted. */
  function Print(v: Json): Text
  {
    match v
    case Undefined => NULL_TEXT
    case Null => NULL_TEXT
    case Bool(b) => if b then TRUE_TEXT else FALSE_TEXT
    case Number(n) => n
    case String(s) => Quoted(s)
    case Array(items) => [OPEN_BRACKET] + PrintItems(items) + [CLOSE_BRACKET]
    case Object(ms) => [OPEN_BRACE] + PrintMembers(ms) + [CLOSE_BRACE]
  }

  function PrintItems(items: seq<Json>): Text
  {
    if items == [] then []
    else Print(items[0]) + (if |items| == 1 then [] else [COMMA] + PrintItems(items[1..]))
  }

  function PrintMembers(ms: seq<Member>): Text
  {
    if ms == [] then []
    else Quoted(ms[0].key) + [COLON] + Print(ms[0].value)
         + (if |ms| == 1 then [] else [COMMA] + PrintMembers(ms[1..]))
  }

  lemma {:induction false} JoinOfNormItems(items: seq<Json>)
    ensures JoinItems(items) == PrintItems(NormItems(items))
    decreases SizeItems(items), 1 + |items|
  {
    if items != [] {
      CanonicalOfNorm(items[0]);
      JoinOfNormItems(items[1..]);
      assert NormItems(items)[1..] == NormItems(items[1..]);
    }
  }

  lemma {:induction false} JoinOfNormMembers(ms: seq<Member>)
    ensures JoinMembers(ms) == PrintMembers(NormMembers(ms))
    decreases SizeMembers(ms), 1 + |ms|
  {
    if ms != [] {
      CanonicalOfNorm(ms[0].value);
      JoinOfNormMembers(ms[1..]);
      assert NormMembers(ms)[1..] == NormMembers(ms[1..]);
    }
  }

  /** Two plain values have one canonical text exactly when they are the same value. */
  lemma CanonicalDecidesSame(v: Json, w: Json)
    requires Plain(v) && Plain(w)
    ensures Canonical(v) == Canonical(w) <==> Same(v, w)
  {
    CanonicalComesBack(v);
    CanonicalComesBack(w);
    NormDecidesSame(v, w);
    if Norm(v) == Norm(w) {
      CanonicalOfNorm(v);
      CanonicalOfNorm(w);
    }
  }

  // ---------------------------------------------------------------------------------------------------------
  // Hashing takes UTF-8, which replaces a lone surrogate. Canonical text has none, so nothing is lost.

  /** Every surrogate is half of a pair. */
  predicate WellFormed(t: Text)
  {
    t == [] || (
      if IsHigh(t[0]) then |t| >= 2 && IsLow(t[1]) && WellFormed(t[2..])
      else !IsLow(t[0]) && WellFormed(t[1..]))
  }

  lemma PairThenWellFormed(u: CodeUnit, v: CodeUnit, t: Text)
    requires IsHigh(u)
    ensures WellFormed([u, v] + t) <==> IsLow(v) && WellFormed(t)
  {
    assert ([u, v] + t)[2..] == t;
  }

  lemma UnitThenWellFormed(u: CodeUnit, t: Text)
    requires !IsHigh(u)
    ensures WellFormed([u] + t) <==> !IsLow(u) && WellFormed(t)
  {
    assert ([u] + t)[1..] == t;
  }

  lemma {:induction false} WellFormedJoins(a: Text, b: Text)
    requires WellFormed(a) && WellFormed(b)
    ensures WellFormed(a + b)
    decreases |a|
  {
    hide IsHigh, IsLow;
    if a == [] {
      assert a + b == b;
    } else if IsHigh(a[0]) {
      WellFormedJoins(a[2..], b);
      assert a + b == [a[0], a[1]] + (a[2..] + b);
      PairThenWellFormed(a[0], a[1], a[2..] + b);
    } else {
      WellFormedJoins(a[1..], b);
      assert a + b == [a[0]] + (a[1..] + b);
      UnitThenWellFormed(a[0], a[1..] + b);
    }
  }

  lemma {:induction false} AsciiIsWellFormed(t: Text)
    requires forall u <- t :: u < 128
    ensures WellFormed(t)
    decreases |t|
  {
    if t != [] {
      assert t[0] in t && forall u <- t[1..] :: u in t;
      AsciiIsWellFormed(t[1..]);
    }
  }

  lemma EscapedUnitIsWellFormed(u: CodeUnit)
    ensures WellFormed(EscapeUnit(u))
  {
    var t := EscapeUnit(u);
    if |t| > 1 {
      AsciiIsWellFormed(t);
    } else {
      assert t[1..] == [];
    }
  }

  lemma {:induction false} EscapedIsWellFormed(s: Text)
    ensures WellFormed(Escape(s))
    decreases |s|
  {
    hide EscapeUnit;
    if s == [] {
    } else if |s| >= 2 && IsHigh(s[0]) && IsLow(s[1]) {
      EscapedIsWellFormed(s[2..]);
      assert WellFormed(s[..2]) by { assert s[..2][2..] == []; }
      WellFormedJoins(s[..2], Escape(s[2..]));
    } else {
      EscapedIsWellFormed(s[1..]);
      EscapedUnitIsWellFormed(s[0]);
      WellFormedJoins(EscapeUnit(s[0]), Escape(s[1..]));
    }
  }

  lemma QuotedIsWellFormed(s: Text)
    ensures WellFormed(Quoted(s))
  {
    EscapedIsWellFormed(s);
    Enclosed([QUOTE], Escape(s), [QUOTE]);
  }

  lemma Enclosed(open: Text, body: Text, close: Text)
    requires WellFormed(body) && |open| <= 1 && |close| <= 1
    requires (forall u <- open :: u < 128) && (forall u <- close :: u < 128)
    ensures WellFormed(open + body + close)
  {
    AsciiIsWellFormed(open);
    AsciiIsWellFormed(close);
    WellFormedJoins(open, body);
    WellFormedJoins(open + body, close);
  }

  /** No plain value's canonical text holds a lone surrogate, whatever its strings and keys hold. */
  lemma {:induction false} CanonicalIsWellFormed(v: Json)
    requires Plain(v)
    ensures WellFormed(Canonical(v))
    decreases Size(v), 0
  {
    match v
    case String(s) => QuotedIsWellFormed(s);
    case Array(items) =>
      ItemsAreWellFormed(items);
      Enclosed([OPEN_BRACKET], JoinItems(items), [CLOSE_BRACKET]);
    case Object(ms) =>
      forall m | m in Ordered(ms) ensures Plain(m.value) {
        var i :| 0 <= i < |ms| && ms[i] == m;
      }
      MembersAreWellFormed(Ordered(ms));
      Enclosed([OPEN_BRACE], JoinMembers(Ordered(ms)), [CLOSE_BRACE]);
    case Number(n) =>
      assert forall u <- n :: IsNumeralUnit(u);
      AsciiIsWellFormed(n);
    case Bool(b) => AsciiIsWellFormed(if b then TRUE_TEXT else FALSE_TEXT);
    case _ => AsciiIsWellFormed(NULL_TEXT);
  }

  lemma {:induction false} ItemsAreWellFormed(items: seq<Json>)
    requires forall v <- items :: Plain(v)
    ensures WellFormed(JoinItems(items))
    decreases SizeItems(items), 1 + |items|
  {
    hide Plain, Canonical;
    if items != [] {
      CanonicalIsWellFormed(items[0]);
      if |items| > 1 {
        ItemsAreWellFormed(items[1..]);
        Enclosed([COMMA], JoinItems(items[1..]), []);
        assert [COMMA] + JoinItems(items[1..]) + [] == [COMMA] + JoinItems(items[1..]);
        WellFormedJoins(Canonical(items[0]), [COMMA] + JoinItems(items[1..]));
      } else {
        assert JoinItems(items) == Canonical(items[0]);
      }
    }
  }

  lemma {:induction false} MembersAreWellFormed(ms: seq<Member>)
    requires forall m <- ms :: Plain(m.value)
    ensures WellFormed(JoinMembers(ms))
    decreases SizeMembers(ms), 1 + |ms|
  {
    hide Plain, Canonical, Quoted;
    if ms != [] {
      CanonicalIsWellFormed(ms[0].value);
      QuotedIsWellFormed(ms[0].key);
      Enclosed([], Quoted(ms[0].key), [COLON]);
      assert [] + Quoted(ms[0].key) + [COLON] == Quoted(ms[0].key) + [COLON];
      var entry := Quoted(ms[0].key) + [COLON] + Canonical(ms[0].value);
      WellFormedJoins(Quoted(ms[0].key) + [COLON], Canonical(ms[0].value));
      if |ms| > 1 {
        MembersAreWellFormed(ms[1..]);
        Enclosed([COMMA], JoinMembers(ms[1..]), []);
        assert [COMMA] + JoinMembers(ms[1..]) + [] == [COMMA] + JoinMembers(ms[1..]);
        WellFormedJoins(entry, [COMMA] + JoinMembers(ms[1..]));
      } else {
        assert JoinMembers(ms) == entry;
      }
    }
  }

  // ---------------------------------------------------------------------------------------------------------
  // Both serializers write the same text.

  lemma {:induction false} SerializersAgree(v: Json)
    ensures Canonicalize(v) == Canonical(v)
    decreases Size(v), 0
  {
    match v
    case Array(items) => ItemsAgree(items);
    case Object(ms) =>
      SizeOfSorted(Defined(ms));
      EntriesAgree(Ordered(ms));
      SortingCommutes(Defined(ms));
    case _ =>
  }

  lemma {:induction false} ItemsAgree(items: seq<Json>)
    ensures Join(RenderItems(items)) == JoinItems(items) && |RenderItems(items)| == |items|
    decreases SizeItems(items), 1 + |items|
  {
    if items != [] {
      SerializersAgree(items[0]);
      ItemsAgree(items[1..]);
    }
  }

  lemma {:induction false} EntriesAgree(ms: seq<Member>)
    ensures Join(Pairs(RenderEntries(ms))) == JoinMembers(ms) && |RenderEntries(ms)| == |ms|
    ensures |Pairs(RenderEntries(ms))| == |ms|
    decreases SizeMembers(ms), 1 + |ms|
  {
    if ms != [] {
      SerializersAgree(ms[0].value);
      EntriesAgree(ms[1..]);
      assert RenderEntries(ms)[1..] == RenderEntries(ms[1..]);
    }
  }

  /** Rendering then sorting is sorting then rendering. */
  lemma {:induction false} SortingCommutes(ms: seq<Member>)
    ensures SortBy(RenderEntries(ms), RenderedKey) == RenderEntries(SortBy(ms, KeyOf))
    decreases |ms|
  {
    if ms != [] {
      SortingCommutes(ms[1..]);
      assert RenderEntries(ms)[1..] == RenderEntries(ms[1..]);
      InsertingCommutes(ms[0], SortBy(ms[1..], KeyOf));
    }
  }

  lemma {:induction false} InsertingCommutes(m: Member, ms: seq<Member>)
    ensures Insert(Rendered(m.key, Canonicalize(m.value)), RenderEntries(ms), RenderedKey)
         == RenderEntries(Insert(m, ms, KeyOf))
    decreases |ms|
  {
    if ms != [] {
      var rendered := RenderEntries(ms);
      assert rendered[1..] == RenderEntries(ms[1..]);
      if Less(ms[0].key, m.key) {
        InsertingCommutes(m, ms[1..]);
        var r := Insert(m, ms[1..], KeyOf);
        assert ([ms[0]] + r)[1..] == r;
      } else {
        assert ([m] + ms)[1..] == ms;
      }
    }
  }
}
