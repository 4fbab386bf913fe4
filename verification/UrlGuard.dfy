/**
 The literal-address half of the URL guard: every spelling of an IPv4 host, the address ranges refused, and the IPv4
 addresses an IPv6 literal can carry.
*/
module UrlGuard {
  import opened Texts

  const ZERO: CodeUnit := 0x30
  const DOT: CodeUnit := 0x2E
  const COLON: CodeUnit := 0x3A
  const OPEN_BRACKET: CodeUnit := 0x5B
  const CLOSE_BRACKET: CodeUnit := 0x5D

  // ---------------------------------------------------------------------------------------------------------
  // Splitting.

  /** `text.split(separator)`. */
  function Split(t: Text, separator: CodeUnit): (parts: seq<Text>)
    ensures |parts| > 0 && forall p <- parts :: separator !in p
  {
    if t == [] then [[]]
    else
      var rest := Split(t[1..], separator);
      if t[0] == separator then [[]] + rest else [[t[0]] + rest[0]] + rest[1..]
  }

  function Join(parts: seq<Text>, separator: CodeUnit): Text
    requires |parts| > 0
  {
    if |parts| == 1 then parts[0] else parts[0] + [separator] + Join(parts[1..], separator)
  }

  /** Splitting is the only way to read a text as parts without the separator: it undoes joining, and joining it. */
  lemma {:induction false} SplitUndoesJoin(parts: seq<Text>, separator: CodeUnit)
    requires |parts| > 0 && forall p <- parts :: separator !in p
    ensures Split(Join(parts, separator), separator) == parts
    decreases |parts|, |parts[0]|
  {
    var t := Join(parts, separator);
    if parts[0] != [] {
      var shorter := [parts[0][1..]] + parts[1..];
      assert t[0] == parts[0][0] && t[1..] == Join(shorter, separator);
      assert forall p <- shorter :: separator !in p by {
        assert parts[0] in parts;
        assert forall p <- parts[1..] :: p in parts;
      }
      SplitUndoesJoin(shorter, separator);
      assert parts[0] in parts && t[0] != separator;
      assert [parts[0][0]] + parts[0][1..] == parts[0];
    } else if |parts| > 1 {
      assert t[0] == separator && t[1..] == Join(parts[1..], separator);
      SplitUndoesJoin(parts[1..], separator);
    }
  }

  lemma {:induction false} JoinUndoesSplit(t: Text, separator: CodeUnit)
    ensures Join(Split(t, separator), separator) == t
  {
    if t != [] {
      JoinUndoesSplit(t[1..], separator);
      var rest := Split(t[1..], separator);
      if t[0] == separator {
        assert ([[]] + rest)[1..] == rest;
      }
      assert t == [t[0]] + t[1..];
    }
  }

  // ---------------------------------------------------------------------------------------------------------
  // Numbers.

  /** What a code unit counts as a digit; 36 for one that is no digit. */
  function DigitValue(c: CodeUnit): nat
  {
    if 0x30 <= c <= 0x39 then c - 0x30
    else if 0x61 <= c <= 0x66 then c - 0x57
    else if 0x41 <= c <= 0x46 then c - 0x37
    else 36
  }

  predicate AllDigits(t: Text, radix: nat)
  {
    t != [] && forall c <- t :: DigitValue(c) < radix
  }

  function Digits(t: Text, radix: nat): nat
  {
    if t == [] then 0 else Digits(t[..|t| - 1], radix) * radix + DigitValue(t[|t| - 1])
  }

  function LowerUnit(c: CodeUnit): CodeUnit { if 0x41 <= c <= 0x5A then c + 0x20 else c }

  /** `toLowerCase` on ASCII; no other letter lower-cases to a character the patterns below mention. */
  function Lower(t: Text): (r: Text)
    ensures |r| == |t| && forall i :: 0 <= i < |t| ==> r[i] == LowerUnit(t[i])
  {
    if t == [] then [] else [LowerUnit(t[0])] + Lower(t[1..])
  }

  const MAX_SAFE_INTEGER := 0x1F_FFFF_FFFF_FFFF

  function Safe(n: nat): Option<nat> { if n <= MAX_SAFE_INTEGER then Some(n) else None }

  /** One part: `0x` and hexadecimal digits, `0` and octal digits, or decimal digits; nothing unsafe. */
  function PartValue(part: Text): Option<nat>
  {
    if |part| > 2 && part[0] == ZERO && (part[1] == 0x78 || part[1] == 0x58) && AllDigits(part[2..], 16) then
      Safe(Digits(part[2..], 16))
    else if |part| > 1 && part[0] == ZERO && AllDigits(part[1..], 8) then
      Safe(Digits(part[1..], 8))
    else if AllDigits(part, 10) then
      Safe(Digits(part, 10))
    else
      None
  }

  function Digit(d: nat): CodeUnit
    requires d < 16
  {
    if d < 10 then 0x30 + d else 0x57 + d
  }

  /** A number in a radix, without leading zeros. */
  function Spell(n: nat, radix: nat): (t: Text)
    requires 2 <= radix <= 16
    ensures t != []
  {
    if n < radix then [Digit(n)] else Spell(n / radix, radix) + [Digit(n % radix)]
  }

  /** A number of more than one digit is spelled as a smaller one and a last digit. */
  lemma SpelledWithLast(n: nat, radix: nat) returns (m: nat, d: nat)
    requires 2 <= radix <= 16 && radix <= n
    ensures 0 < m < n && d < radix && m * radix + d == n && Spell(n, radix) == Spell(m, radix) + [Digit(d)]
  {
    m, d := n / radix, n % radix;
    assert m * radix + d == n;
    hide Spell;
    QuotientIsSmaller(n, radix, m, d);
  }

  lemma QuotientIsSmaller(n: nat, radix: nat, m: nat, d: nat)
    requires m * radix + d == n && d < radix && 2 <= radix <= n
    ensures 0 < m < n
  {
    assert m >= 1 ==> m * radix >= m * 2;
  }

  lemma {:induction false} SpellingIsRead(n: nat, radix: nat)
    requires 2 <= radix <= 16
    ensures
      var t := Spell(n, radix);
      AllDigits(t, radix) && Digits(t, radix) == n && (n > 0 ==> t[0] != ZERO) && (n == 0 ==> t == [ZERO])
    decreases n
  {
    hide Digits, AllDigits;
    if n < radix {
      NoDigits(radix);
      AppendDigit([], 0, n, n, radix);
      assert [] + [Digit(n)] == [Digit(n)];
    } else {
      hide Spell;
      var m, d := SpelledWithLast(n, radix);
      SpellingIsRead(m, radix);
      AppendDigit(Spell(m, radix), m, d, n, radix);
    }
  }

  lemma NoDigits(radix: nat)
    ensures Digits([], radix) == 0
  {
  }

  lemma AppendDigit(t: Text, m: nat, d: nat, n: nat, radix: nat)
    requires d < radix <= 16 && (t == [] || AllDigits(t, radix))
    requires Digits(t, radix) == m && m * radix + d == n
    ensures AllDigits(t + [Digit(d)], radix) && Digits(t + [Digit(d)], radix) == n
  {
    assert (t + [Digit(d)])[..|t|] == t;
  }

  /** Digits read alike in letters of either case. */
  lemma {:induction false} CaseReadsAlike(t: Text, u: Text, radix: nat)
    requires |t| == |u| && forall i :: 0 <= i < |t| ==> LowerUnit(t[i]) == u[i]
    requires radix <= 16
    ensures AllDigits(t, radix) <==> AllDigits(u, radix)
    ensures AllDigits(u, radix) ==> Digits(t, radix) == Digits(u, radix)
  {
    assert forall i :: 0 <= i < |t| ==> (DigitValue(t[i]) < radix <==> DigitValue(u[i]) < radix);
    if AllDigits(t, radix) { assert forall i :: 0 <= i < |t| ==> t[i] in t; }
    if AllDigits(u, radix) {
      assert forall i :: 0 <= i < |u| ==> u[i] in u;
      DigitsReadAlike(t, u, radix);
    }
  }

  lemma {:induction false} DigitsReadAlike(t: Text, u: Text, radix: nat)
    requires |t| == |u| && forall i :: 0 <= i < |t| ==> DigitValue(t[i]) == DigitValue(u[i])
    ensures Digits(t, radix) == Digits(u, radix)
  {
    if t != [] {
      var n := |t| - 1;
      DigitsReadAlike(t[..n], u[..n], radix);
    }
  }

  /**
   A part read in hexadecimal, octal or decimal is the number it spells, as far as numbers are safe; hexadecimal in
   letters of either case.
  */
  lemma RadixesAgree(n: nat, x: CodeUnit)
    requires x == 0x78 || x == 0x58
    ensures forall t :: Lower(t) == Spell(n, 16) ==> PartValue([ZERO, x] + t) == Safe(n)
    ensures PartValue([ZERO] + Spell(n, 8)) == Safe(n)
    ensures PartValue(Spell(n, 10)) == Safe(n)
  {
    hide Spell, Digits, AllDigits;
    SpellingIsRead(n, 16);
    SpellingIsRead(n, 8);
    SpellingIsRead(n, 10);
    var octal := [ZERO] + Spell(n, 8);
    forall t | Lower(t) == Spell(n, 16) ensures PartValue([ZERO, x] + t) == Safe(n) {
      CaseReadsAlike(t, Spell(n, 16), 16);
      var hex := [ZERO, x] + t;
      assert hex[2..] == t && |t| > 0;
    }
    assert octal[1..] == Spell(n, 8);
    NotHex(octal);
  }

  /** Octal and decimal digits do not read as hexadecimal: the second character of that is an x. */
  lemma NotHex(t: Text)
    requires |t| > 1 && AllDigits(t[1..], 8)
    ensures DigitValue(t[1]) < 8
  {
    assert t[1] == t[1..][0] && t[1..][0] in t[1..];
  }

  function PartValues(parts: seq<Text>): (r: Option<seq<nat>>)
    ensures r.Some? ==> |r.value| == |parts|
    ensures r.Some? ==> forall i :: 0 <= i < |parts| ==> PartValue(parts[i]) == Some(r.value[i])
  {
    if parts == [] then Some([])
    else
      var init := PartValues(parts[..|parts| - 1]);
      var last := PartValue(parts[|parts| - 1]);
      if init.Some? && last.Some? then Some(init.value + [last.value]) else None
  }

  function Pow256(k: nat): (r: nat)
    ensures r > 0
  {
    if k == 0 then 1 else 256 * Pow256(k - 1)
  }

  /** `n >>> (8 * k)` on a 32-bit number: k shifts by a byte. */
  function Shifted(n: nat, k: nat): nat
  {
    if k == 0 then n else Shifted(n, k - 1) / 256
  }

  /** Each part but the last is one byte; the last fills all the bytes that are left. */
  function Positional(ns: seq<nat>, room: nat): Option<nat>
    requires 0 < |ns| <= room
  {
    if |ns| == 1 then
      if ns[0] < Pow256(room) then Some(ns[0]) else None
    else if ns[0] > 0xFF then None
    else
      match Positional(ns[1..], room - 1)
      case None => None
      case Some(rest) => Some(ns[0] * Pow256(room - 1) + rest)
  }

  /** The 32-bit number of a host of one to four parts, each read as the guard reads it. */
  function HostNumber(host: Text): Option<nat>
  {
    var parts := Split(host, DOT);
    if |parts| > 4 then None
    else
      match PartValues(parts)
      case None => None
      case Some(ns) => Positional(ns, 4)
  }

  // ---------------------------------------------------------------------------------------------------------
  // inet_aton itself: a part of two or more characters that starts with 0 is hexadecimal, octal or nothing.

  function StrictPart(part: Text): Option<nat>
  {
    if |part| > 1 && part[0] == ZERO then
      if |part| > 2 && (part[1] == 0x78 || part[1] == 0x58) && AllDigits(part[2..], 16) then
        Safe(Digits(part[2..], 16))
      else if AllDigits(part[1..], 8) then Safe(Digits(part[1..], 8))
      else None
    else if AllDigits(part, 10) then Safe(Digits(part, 10))
    else None
  }

  function StrictParts(parts: seq<Text>): (r: Option<seq<nat>>)
    ensures r.Some? ==> |r.value| == |parts|
  {
    if parts == [] then Some([])
    else
      var init := StrictParts(parts[..|parts| - 1]);
      var last := StrictPart(parts[|parts| - 1]);
      if init.Some? && last.Some? then Some(init.value + [last.value]) else None
  }

  /** The 32-bit number a host denotes under inet_aton's rules. */
  function InetAton(host: Text): Option<nat>
  {
    var parts := Split(host, DOT);
    if |parts| > 4 then None
    else
      match StrictParts(parts)
      case None => None
      case Some(ns) => Positional(ns, 4)
  }

  /** Decimal digits behind a 0, an 8 or a 9 among them, and no number too large to be safe: 08, 0129. */
  predicate OctalMisspelt(part: Text)
  {
    && |part| > 1 && part[0] == ZERO && AllDigits(part, 10) && !AllDigits(part[1..], 8)
    && Digits(part, 10) <= MAX_SAFE_INTEGER
  }

  predicate SomeOctalMisspelt(host: Text) { exists p <- Split(host, DOT) :: OctalMisspelt(p) }

  /** The guard reads a part as inet_aton does exactly when it is no misspelt octal; that it reads as decimal. */
  lemma PartIsStrictExactly(part: Text)
    ensures PartValue(part) == StrictPart(part) <==> !OctalMisspelt(part)
    ensures OctalMisspelt(part) ==> StrictPart(part).None? && PartValue(part) == Some(Digits(part, 10))
  {
    hide Digits;
    if |part| > 1 && AllDigits(part, 10) {
      assert part[1] in part;
    }
  }

  lemma {:induction false} PartsAreStrictExactly(parts: seq<Text>)
    ensures StrictParts(parts) == if exists p <- parts :: OctalMisspelt(p) then None else PartValues(parts)
  {
    hide OctalMisspelt, PartValue, StrictPart;
    if parts != [] {
      var init, last := parts[..|parts| - 1], parts[|parts| - 1];
      assert parts == init + [last];
      PartsAreStrictExactly(init);
      PartIsStrictExactly(last);
    }
  }

  /**
   Where inet_aton reads a number the guard reads the same one; it reads none on every host with a misspelt octal
   part, and that is the only difference: the two agree exactly on hosts without one, or without a number at all.
  */
  lemma HostIsStrictExactly(host: Text)
    ensures InetAton(host).Some? ==> HostNumber(host) == InetAton(host)
    ensures SomeOctalMisspelt(host) ==> InetAton(host).None?
    ensures InetAton(host) == HostNumber(host) <==> !SomeOctalMisspelt(host) || HostNumber(host).None?
  {
    hide Split, OctalMisspelt, Positional;
    PartsAreStrictExactly(Split(host, DOT));
  }

  /** The host 08: the guard reads it as 0.0.0.8, inet_aton does not read it. */
  lemma MisspeltOctalIsRead()
    ensures
      var host := [ZERO, 0x38];
      SomeOctalMisspelt(host) && HostNumber(host) == Some(8) && InetAton(host) == None
  {
    var host: Text := [ZERO, 0x38];
    SplitUndoesJoin([host], DOT);
    EightIsMisspelt();
    assert host in Split(host, DOT);
    HostIsStrictExactly(host);
    assert [host][..0] == [];
    assert PartValues([host]) == Some([8]) by {
      hide PartValue;
      assert PartValues([host][..0]) == Some([]);
      var none: seq<nat> := [];
      assert none + [8] == [8];
    }
    assert Pow256(4) == 256 * (256 * (256 * (256 * Pow256(0))));
  }

  lemma EightIsMisspelt()
    ensures OctalMisspelt([ZERO, 0x38]) && PartValue([ZERO, 0x38]) == Some(8)
  {
    var part: Text := [ZERO, 0x38];
    assert part[1..] == [0x38] && part[..1] == [ZERO] && part[..1][..0] == [];
    assert Digits(part[..1], 10) == 0;
    assert 0x38 in part[1..];
    PartIsStrictExactly(part);
  }

  function BigEndian(octets: seq<nat>): nat
  {
    if octets == [] then 0 else BigEndian(octets[..|octets| - 1]) * 256 + octets[|octets| - 1]
  }

  predicate Bytes(octets: seq<nat>) { forall o <- octets :: o <= 0xFF }

  // ---------------------------------------------------------------------------------------------------------
  // The expansion.

  /** The second half of `ipv4Of`: the last number fills the octets that the others leave. */
  method Expand(numbers: seq<nat>) returns (result: Option<seq<nat>>)
    requires 0 < |numbers| <= 4
    ensures result.Some? <==> Positional(numbers, 4).Some?
    ensures result.Some? ==> |result.value| == 4 && Bytes(result.value)
    ensures result.Some? ==> BigEndian(result.value) == Positional(numbers, 4).value
  {
    hide BigEndian, Positional, Bytes, Shifted, Pow256;
    var last := numbers[|numbers| - 1];
    var octets := numbers[..|numbers| - 1];
    var span := 4 - |octets|;
    ghost var whole := octets;
    assert numbers == whole + [last];
    if last >= Pow256(span) {
      TooLargeALast(whole, last, 4);
      return None;
    }
    ghost var low: seq<nat> := [];
    var index := span - 1;
    NothingPushed(last);
    ShiftedOut(last, span, 0);
    while index >= 0
      invariant -1 <= index < span && octets == whole + low && |low| == span - 1 - index
      invariant Bytes(low) && BigEndian(low) == Shifted(last, index + 1)
    {
      NextByte(low, last, index);
      low := low + [Shifted(last, index) % 256];
      octets := octets + [Shifted(last, index) % 256];
      index := index - 1;
    }
    ExpandedIsPlaced(whole, last, low, 4);
    BytesOfBoth(whole, low);
    return if Bytes(octets) then Some(octets) else None;
  }

  /**
   `ipv4Of`: the four big-endian octets of the number inet_aton reads in the host, and nothing when it reads none,
   save for a host with a misspelt octal part.
  */
  method Ipv4Of(host: Text) returns (result: Option<seq<nat>>)
    ensures InetAton(host).Some? ==> result.Some? && BigEndian(result.value) == InetAton(host).value
    ensures InetAton(host).None? && !SomeOctalMisspelt(host) ==> result.None?
    ensures result.Some? <==> HostNumber(host).Some?
    ensures result.Some? ==> |result.value| == 4 && Bytes(result.value)
    ensures result.Some? ==> BigEndian(result.value) == HostNumber(host).value
    ensures result == Ipv4(host)
  {
    hide Split, PartValue, BigEndian, Positional, Bytes, Octets, InetAton, SomeOctalMisspelt;
    HostIsStrictExactly(host);
    var parts := Split(host, DOT);
    if |parts| > 4 || [] in parts {
      if |parts| <= 4 { EmptyPartHasNoValue(parts); }
      return None;
    }
    var numbers: seq<nat> := [];
    for i := 0 to |parts|
      invariant PartValues(parts[..i]) == Some(numbers)
    {
      assert parts[..i + 1][..i] == parts[..i];
      var value := PartValue(parts[i]);
      if value.None? {
        NoValueFromHere(parts, i + 1);
        return None;
      }
      numbers := numbers + [value.value];
    }
    assert parts[..|parts|] == parts;
    result := Expand(numbers);
    if result.Some? {
      AddressIsBounded(host);
      OctetsAreBigEndian(result.value, HostNumber(host).value);
    }
  }

  lemma NothingPushed(last: nat)
    ensures BigEndian([]) == 0 && Bytes([]) && Pow256(0) == 1 && Shifted(last, 0) == last
  {
  }

  lemma {:induction false} ShiftedOut(n: nat, k: nat, j: nat)
    requires n < Pow256(k + j)
    ensures Shifted(n, k) < Pow256(j)
  {
    if k > 0 {
      ShiftedOut(n, k - 1, j + 1);
      assert Pow256(j + 1) == 256 * Pow256(j);
    }
  }

  lemma {:induction false} NoValueFromHere(parts: seq<Text>, n: nat)
    requires n <= |parts| && PartValues(parts[..n]).None?
    ensures PartValues(parts).None?
    decreases |parts|
  {
    if n < |parts| {
      var init := parts[..|parts| - 1];
      assert init[..n] == parts[..n];
      NoValueFromHere(init, n);
    } else {
      assert parts[..n] == parts;
    }
  }

  lemma EmptyPartHasNoValue(parts: seq<Text>)
    requires [] in parts
    ensures PartValues(parts).None?
  {
    var k :| 0 <= k < |parts| && parts[k] == [];
    assert PartValue(parts[k]).None?;
  }

  lemma NextByte(low: seq<nat>, n: nat, index: nat)
    requires BigEndian(low) == Shifted(n, index + 1)
    ensures BigEndian(low + [Shifted(n, index) % 256]) == Shifted(n, index)
    ensures Bytes(low) ==> Bytes(low + [Shifted(n, index) % 256])
  {
    assert (low + [Shifted(n, index) % 256])[..|low|] == low;
  }

  lemma BytesOfBoth(a: seq<nat>, b: seq<nat>)
    ensures Bytes(a + b) <==> Bytes(a) && Bytes(b)
    ensures |a| == 1 ==> (Bytes(a) <==> a[0] <= 0xFF)
  {
    assert forall o <- a :: o in a + b;
    assert forall o <- b :: o in a + b;
    if |a| == 1 { assert a[0] in a; }
  }

  lemma {:induction false} TooLargeALast(whole: seq<nat>, last: nat, room: nat)
    requires |whole| < room && last >= Pow256(room - |whole|)
    ensures Positional(whole + [last], room).None?
  {
    if whole != [] {
      assert (whole + [last])[1..] == whole[1..] + [last];
      TooLargeALast(whole[1..], last, room - 1);
    }
  }

  lemma {:induction false} BigEndianFromFront(first: nat, rest: seq<nat>)
    ensures BigEndian([first] + rest) == first * Pow256(|rest|) + BigEndian(rest)
  {
    var all := [first] + rest;
    if rest == [] {
      assert all[..0] == [];
    } else {
      var n := |rest| - 1;
      BigEndianFromFront(first, rest[..n]);
      assert all[..|all| - 1] == [first] + rest[..n];
      assert first * Pow256(|rest|) == first * Pow256(n) * 256;
    }
  }

  /** The octets pushed are the placed number's, and some octet is too large exactly when no number is placed. */
  lemma {:induction false} ExpandedIsPlaced(whole: seq<nat>, last: nat, low: seq<nat>, room: nat)
    requires |whole| + |low| == room && low != [] && BigEndian(low) == last < Pow256(|low|)
    ensures Positional(whole + [last], room) == if Bytes(whole) then Some(BigEndian(whole + low)) else None
  {
    hide BigEndian;
    var ns := whole + [last];
    if whole == [] {
      assert ns == [last] && whole + low == low;
    } else {
      assert ns[1..] == whole[1..] + [last];
      ExpandedIsPlaced(whole[1..], last, low, room - 1);
      assert whole + low == [whole[0]] + (whole[1..] + low);
      BigEndianFromFront(whole[0], whole[1..] + low);
      assert whole == [whole[0]] + whole[1..];
      BytesOfBoth([whole[0]], whole[1..]);
      assert |whole[1..] + low| == room - 1;
    }
  }

  /** The four octets of a 32-bit number, as `ipv4Of` gives them. */
  function Octets(n: nat): (r: seq<nat>)
    ensures |r| == 4
  {
    [n / 0x100_0000, n / 0x1_0000 % 256, n / 0x100 % 256, n % 256]
  }

  function Ipv4(host: Text): Option<seq<nat>>
  {
    match HostNumber(host)
    case None => None
    case Some(n) => Some(Octets(n))
  }

  lemma BigEndianOfFour(a: nat, b: nat, c: nat, d: nat)
    ensures BigEndian([a, b, c, d]) == a * 0x100_0000 + b * 0x1_0000 + c * 0x100 + d
  {
    assert [a, b, c, d][..3] == [a, b, c] && [a, b, c][..2] == [a, b] && [a, b][..1] == [a] && [a][..0] == [];
    assert BigEndian([a, b, c]) == BigEndian([a, b]) * 256 + c;
    assert BigEndian([a, b]) == BigEndian([a]) * 256 + b;
  }

  lemma FourBytes(a: nat, b: nat, c: nat, d: nat, n: nat)
    requires a <= 0xFF && b <= 0xFF && c <= 0xFF && d <= 0xFF
    ensures n == a * 0x100_0000 + b * 0x1_0000 + c * 0x100 + d <==>
      n / 0x100_0000 == a && n / 0x1_0000 % 256 == b && n / 0x100 % 256 == c && n % 256 == d
  {
    var q1, q2, q3 := n / 0x100, n / 0x1_0000, n / 0x100_0000;
    assert q2 == q1 / 256 && q3 == q2 / 256;
  }

  /** Four bytes are the octets of their big-endian number and of no other, so `Ipv4` is what `Ipv4Of` returns. */
  lemma OctetsAreBigEndian(octets: seq<nat>, n: nat)
    requires |octets| == 4 && Bytes(octets) && n < 0x1_0000_0000
    ensures BigEndian(octets) == n <==> octets == Octets(n)
  {
    var a, b, c, d := octets[0], octets[1], octets[2], octets[3];
    assert octets == [a, b, c, d];
    assert a in octets && b in octets && c in octets && d in octets;
    BigEndianOfFour(a, b, c, d);
    FourBytes(a, b, c, d, n);
    hide BigEndian;
  }

  // ---------------------------------------------------------------------------------------------------------
  // The ranges.

  function At(octets: seq<nat>, i: nat): nat { if i < |octets| then octets[i] else 0 }

  predicate IsPrivateIpv4(octets: seq<nat>)
  {
    var a, b := At(octets, 0), At(octets, 1);
    || a == 0 || a == 10 || a == 127
    || (a == 169 && b == 254)
    || (a == 172 && 16 <= b <= 31)
    || (a == 192 && b == 168)
    || (a == 100 && 64 <= b <= 127)
    || a >= 224
  }

  /** A CIDR block: an address of it, and the 2^(32 - length) addresses that share its prefix. */
  datatype Block = Block(network: nat, size: nat)

  const BLOCKS: seq<Block> :=
    [ Block(0x0000_0000, 0x0100_0000),  // 0.0.0.0/8
      Block(0x0A00_0000, 0x0100_0000),  // 10.0.0.0/8
      Block(0x7F00_0000, 0x0100_0000),  // 127.0.0.0/8
      Block(0xA9FE_0000, 0x0001_0000),  // 169.254.0.0/16
      Block(0xAC10_0000, 0x0010_0000),  // 172.16.0.0/12
      Block(0xC0A8_0000, 0x0001_0000),  // 192.168.0.0/16
      Block(0x6440_0000, 0x0040_0000),  // 100.64.0.0/10
      Block(0xE000_0000, 0x2000_0000) ] // 224.0.0.0/3

  predicate InBlock(n: nat, block: Block)
  {
    block.size > 0 && n / block.size == block.network / block.size
  }

  predicate Listed(n: nat) { exists i :: 0 <= i < |BLOCKS| && InBlock(n, BLOCKS[i]) }

  /** The branches on the first two octets hold exactly on the eight blocks. */
  lemma PrivateIsListed(n: nat)
    requires n < 0x1_0000_0000
    ensures IsPrivateIpv4(Octets(n)) <==> Listed(n)
  {
    var a, b := n / 0x100_0000, n / 0x1_0000 % 256;
    assert a == n / 0x1_0000 / 256;
    assert InBlock(n, BLOCKS[0]) <==> a == 0;
    assert InBlock(n, BLOCKS[1]) <==> a == 10;
    assert InBlock(n, BLOCKS[2]) <==> a == 127;
    assert InBlock(n, BLOCKS[3]) <==> a == 169 && b == 254;
    assert InBlock(n, BLOCKS[4]) <==> a == 172 && 16 <= b <= 31;
    assert InBlock(n, BLOCKS[5]) <==> a == 192 && b == 168;
    assert InBlock(n, BLOCKS[6]) <==> a == 100 && 64 <= b <= 127;
    assert InBlock(n, BLOCKS[7]) <==> a >= 224;
  }

  lemma Scaled(x: nat, y: nat, p: nat)
    requires x <= y
    ensures x * p <= y * p
  {
  }

  lemma {:induction false} PositionalIsBounded(ns: seq<nat>, room: nat)
    requires 0 < |ns| <= room && Positional(ns, room).Some?
    ensures Positional(ns, room).value < Pow256(room)
  {
    if |ns| > 1 {
      PositionalIsBounded(ns[1..], room - 1);
      if ns[0] <= 0xFF { Scaled(ns[0], 0xFF, Pow256(room - 1)); }
    }
  }

  lemma AddressIsBounded(host: Text)
    requires HostNumber(host).Some?
    ensures HostNumber(host).value < 0x1_0000_0000
  {
    var parts := Split(host, DOT);
    PositionalIsBounded(PartValues(parts).value, 4);
    assert Pow256(4) == 256 * (256 * (256 * (256 * Pow256(0))));
  }

  // ---------------------------------------------------------------------------------------------------------
  // IPv6 literals.

  function WithoutBrackets(host: Text): Text
  {
    var t := if host != [] && host[0] == OPEN_BRACKET then host[1..] else host;
    if t != [] && t[|t| - 1] == CLOSE_BRACKET then t[..|t| - 1] else t
  }

  predicate LowerHex(t: Text)
  {
    AllDigits(t, 16) && forall c <- t :: !(0x41 <= c <= 0x46)
  }

  const UNSPECIFIED: Text := [COLON, COLON]
  const LOOPBACK: Text := [COLON, COLON, 0x31]
  const LINK_LOCAL: Text := [0x66, 0x65, 0x38, 0x30, COLON]  // fe80:
  const MAPPED: Text := [COLON, COLON, 0x66, 0x66, 0x66, 0x66, COLON]  // ::ffff:

  /** `f`, `c` or `d`, two hexadecimal digits and a colon. */
  predicate UniqueLocal(t: Text)
  {
    |t| >= 5 && t[0] == 0x66 && (t[1] == 0x63 || t[1] == 0x64) && LowerHex(t[2..4]) && t[4] == COLON
  }

  predicate DottedDecimal(t: Text)
  {
    var parts := Split(t, DOT);
    |parts| == 4 && forall p <- parts :: AllDigits(p, 10)
  }

  predicate TwoHextets(t: Text)
  {
    var parts := Split(t, COLON);
    |parts| == 2 && forall p <- parts :: |p| <= 4 && LowerHex(p)
  }

  predicate PrivateMapped(rest: Text)
  {
    if DottedDecimal(rest) then
      var octets := Ipv4(rest);
      octets.None? || IsPrivateIpv4(octets.value)
    else if TwoHextets(rest) then
      var parts := Split(rest, COLON);
      var high, low := Digits(parts[0], 16), Digits(parts[1], 16);
      IsPrivateIpv4([high / 256, high % 256, low / 256, low % 256])
    else
      false
  }

  predicate IsPrivateIpv6(host: Text)
  {
    var inner := Lower(WithoutBrackets(host));
    || inner == LOOPBACK || inner == UNSPECIFIED
    || UniqueLocal(inner)
    || LINK_LOCAL <= inner
    || (MAPPED <= inner && PrivateMapped(inner[|MAPPED|..]))
  }

  /** A text in ASCII. */
  predicate Reads(t: Text, ascii: string)
  {
    |t| == |ascii| && forall i :: 0 <= i < |t| ==> t[i] == ascii[i] as int
  }

  function Bracketed(t: Text): Text { [OPEN_BRACKET] + t + [CLOSE_BRACKET] }

  lemma BracketsComeOff(t: Text)
    requires t != [] && t[0] != OPEN_BRACKET && t[|t| - 1] != CLOSE_BRACKET
    ensures WithoutBrackets(t) == t && WithoutBrackets(Bracketed(t)) == t
  {
    assert Bracketed(t)[1..] == t + [CLOSE_BRACKET];
    assert (t + [CLOSE_BRACKET])[..|t|] == t;
  }

  /** No letter of the text is upper-case. */
  ghost predicate IsLower(t: Text) { forall i :: 0 <= i < |t| ==> LowerUnit(t[i]) == t[i] }

  lemma LowerStays(t: Text)
    requires IsLower(t)
    ensures Lower(t) == t
  {
  }

  lemma MappedIsNothingElse(host: Text, rest: Text)
    requires Lower(WithoutBrackets(host)) == MAPPED + rest
    ensures IsPrivateIpv6(host) <==> PrivateMapped(rest)
  {
    hide PrivateMapped, LowerHex, Lower, WithoutBrackets;
    var t := MAPPED + rest;
    assert t[|MAPPED|..] == rest;
    assert t[0] == COLON && LINK_LOCAL[0] == 0x66 && |t| >= 7;
  }

  lemma MappedVerdict(rest: Text)
    requires rest != [] && IsLower(rest) && rest[|rest| - 1] != CLOSE_BRACKET
    ensures IsPrivateIpv6(MAPPED + rest) <==> PrivateMapped(rest)
    ensures IsPrivateIpv6(Bracketed(MAPPED + rest)) <==> PrivateMapped(rest)
  {
    hide PrivateMapped, IsPrivateIpv6, Bracketed, Lower, WithoutBrackets;
    var t := MAPPED + rest;
    LowerStays(t);
    BracketsComeOff(t);
    MappedIsNothingElse(t, rest);
    MappedIsNothingElse(Bracketed(t), rest);
  }

  lemma {:induction false} DigitsAreBounded(t: Text)
    requires |t| <= 4 && forall c <- t :: DigitValue(c) < 16
    ensures Digits(t, 16) < Pow16(|t|)
  {
    if t != [] { DigitsAreBounded(t[..|t| - 1]); }
  }

  function Pow16(k: nat): nat { if k == 0 then 1 else 16 * Pow16(k - 1) }

  lemma HextetIsSmall(t: Text)
    requires |t| <= 4 && LowerHex(t)
    ensures Digits(t, 16) < 0x1_0000
  {
    DigitsAreBounded(t);
    assert Pow16(1) == 16 && Pow16(2) == 256 && Pow16(3) == 4096 && Pow16(4) == 0x1_0000;
  }

  lemma HextetsAreRead(high: Text, low: Text)
    requires 0 < |high| <= 4 && 0 < |low| <= 4 && LowerHex(high) && LowerHex(low)
    ensures
      var h, l := Digits(high, 16), Digits(low, 16);
      PrivateMapped(high + [COLON] + low) <==> IsPrivateIpv4([h / 256, h % 256, l / 256, l % 256])
  {
    hide LowerHex, Digits, Split, IsPrivateIpv4, DottedDecimal, Ipv4;
    var parts := [high, low];
    HextetsAreLower(high, low);
    assert Join(parts, COLON) == high + [COLON] + low by { assert parts[1..] == [low]; }
    SplitUndoesJoin(parts, COLON);
    HasNoDots(high + [COLON] + low);
  }

  lemma OctetsOfHextets(h: nat, l: nat)
    requires h < 0x1_0000 && l < 0x1_0000
    ensures Octets(h * 0x1_0000 + l) == [h / 256, h % 256, l / 256, l % 256]
  {
    FourBytes(h / 256, h % 256, l / 256, l % 256, h * 0x1_0000 + l);
  }

  /** The hextet spelling of a mapped address is refused exactly when the address is in a listed block. */
  lemma HextetsNameTheAddress(high: Text, low: Text)
    requires 0 < |high| <= 4 && 0 < |low| <= 4 && LowerHex(high) && LowerHex(low)
    ensures
      var host := MAPPED + (high + [COLON] + low);
      var n := Digits(high, 16) * 0x1_0000 + Digits(low, 16);
      && Reads(MAPPED, "::ffff:")
      && (IsPrivateIpv6(host) <==> Listed(n))
      && (IsPrivateIpv6(Bracketed(host)) <==> Listed(n))
  {
    hide IsPrivateIpv6, Listed, IsPrivateIpv4, LowerHex, Digits, PrivateMapped, Bracketed, Octets, IsLower;
    HextetsAreLower(high, low);
    HextetsAreRead(high, low);
    HextetIsSmall(high);
    HextetIsSmall(low);
    OctetsOfHextets(Digits(high, 16), Digits(low, 16));
    PrivateIsListed(Digits(high, 16) * 0x1_0000 + Digits(low, 16));
    MappedVerdict(high + [COLON] + low);
  }

  lemma HextetsAreLower(high: Text, low: Text)
    requires LowerHex(high) && LowerHex(low)
    ensures high != [] && low != []
    ensures COLON !in high && COLON !in low
    ensures IsLower(high + [COLON] + low) && low[|low| - 1] != CLOSE_BRACKET
  {
    assert forall i :: 0 <= i < |high| ==> high[i] in high;
    assert forall i :: 0 <= i < |low| ==> low[i] in low;
  }

  /** A text with a colon among its parts is no dotted decimal. */
  lemma HasNoDots(t: Text)
    requires COLON in t
    ensures !DottedDecimal(t)
  {
    JoinUndoesSplit(t, DOT);
    InSomePart(Split(t, DOT), DOT, COLON);
  }

  lemma {:induction false} InSomePart(parts: seq<Text>, separator: CodeUnit, c: CodeUnit)
    requires |parts| > 0 && c != separator
    ensures c in Join(parts, separator) <==> exists p <- parts :: c in p
  {
    if |parts| > 1 {
      InSomePart(parts[1..], separator, c);
      assert parts == [parts[0]] + parts[1..];
    }
  }

  /** The dotted spelling is refused when it names no address, and otherwise exactly on the listed blocks. */
  lemma DottedNamesTheAddress(dotted: Text)
    requires DottedDecimal(dotted)
    ensures
      var refused := HostNumber(dotted).None? || Listed(HostNumber(dotted).value);
      && (IsPrivateIpv6(MAPPED + dotted) <==> refused)
      && (IsPrivateIpv6(Bracketed(MAPPED + dotted)) <==> refused)
  {
    hide IsPrivateIpv6, Listed, IsPrivateIpv4, HostNumber, Octets;
    if HostNumber(dotted).Some? {
      AddressIsBounded(dotted);
      PrivateIsListed(HostNumber(dotted).value);
    }
    DottedIsDigitsAndDots(dotted);
    assert forall i :: 0 <= i < |dotted| ==> dotted[i] in dotted;
    MappedVerdict(dotted);
  }

  lemma DottedIsDigitsAndDots(t: Text)
    requires DottedDecimal(t)
    ensures t != [] && forall c <- t :: 0x30 <= c <= 0x39 || c == DOT
  {
    var parts := Split(t, DOT);
    JoinUndoesSplit(t, DOT);
    forall c | c in t && c != DOT ensures 0x30 <= c <= 0x39 {
      InSomePart(parts, DOT, c);
    }
    assert parts[0] in parts;
  }

  /** One mapped address, two spellings, one verdict (section 2.5.5.2 of RFC 4291). */
  lemma MappedSpellingsAgree(dotted: Text, high: Text, low: Text)
    requires DottedDecimal(dotted) && 0 < |high| <= 4 && 0 < |low| <= 4 && LowerHex(high) && LowerHex(low)
    requires HostNumber(dotted) == Some(Digits(high, 16) * 0x1_0000 + Digits(low, 16))
    ensures IsPrivateIpv6(MAPPED + dotted) <==> IsPrivateIpv6(MAPPED + (high + [COLON] + low))
    ensures IsPrivateIpv6(Bracketed(MAPPED + dotted)) <==> IsPrivateIpv6(Bracketed(MAPPED + (high + [COLON] + low)))
  {
    hide IsPrivateIpv6, Listed, HostNumber, DottedDecimal, LowerHex, Digits, Bracketed;
    DottedNamesTheAddress(dotted);
    HextetsNameTheAddress(high, low);
  }

  // ---------------------------------------------------------------------------------------------------------
  // The guard.

  /** A parsed URL. */
  datatype Url = Url(protocol: Text, username: Text, password: Text, hostname: Text, origin: Text)

  datatype Verdict = Allowed | RefusedScheme | RefusedUserinfo | RefusedLiteralAddress | RefusedOrigin

  const HTTP: Text := [0x68, 0x74, 0x74, 0x70, COLON]
  const HTTPS: Text := [0x68, 0x74, 0x74, 0x70, 0x73, COLON]

  predicate PrivateLiteral(host: Text)
  {
    (Ipv4(host).Some? && IsPrivateIpv4(Ipv4(host).value)) || IsPrivateIpv6(host)
  }

  function Guard(url: Url, allowedOrigins: seq<Text>): Verdict
  {
    if url.protocol != HTTP && url.protocol != HTTPS then RefusedScheme
    else if url.username != [] || url.password != [] then RefusedUserinfo
    else if PrivateLiteral(url.hostname) then RefusedLiteralAddress
    else if url.origin !in allowedOrigins then RefusedOrigin
    else Allowed
  }

  /**
   However a host spells an IPv4 address, in one to four parts of any radix, the guard refuses it as a literal
   exactly when the address is in a listed block.
  */
  lemma EverySpellingIsSeen(parts: seq<Text>, n: nat)
    requires 0 < |parts| <= 4 && PartValues(parts).Some? && Positional(PartValues(parts).value, 4) == Some(n)
    ensures PrivateLiteral(Join(parts, DOT)) <==> Listed(n)
  {
    hide Split, Positional, IsPrivateIpv4, Listed, Octets, IsPrivateIpv6;
    var host := Join(parts, DOT);
    forall p | p in parts ensures DOT !in p && COLON !in p {
      var i :| 0 <= i < |parts| && parts[i] == p;
      ValuedPartIsAlphanumeric(p);
    }
    SplitUndoesJoin(parts, DOT);
    AddressIsBounded(host);
    PrivateIsListed(n);
    InSomePart(parts, DOT, COLON);
    WithoutColonIsNoIpv6(host);
  }

  lemma ValuedPartIsAlphanumeric(part: Text)
    requires PartValue(part).Some?
    ensures DOT !in part && COLON !in part
  {
    if |part| > 2 && AllDigits(part[2..], 16) { assert part == [part[0], part[1]] + part[2..]; }
    if |part| > 1 && AllDigits(part[1..], 8) { assert part == [part[0]] + part[1..]; }
  }

  lemma WithoutColonIsNoIpv6(host: Text)
    requires COLON !in host
    ensures !IsPrivateIpv6(host)
  {
    var inner := Lower(WithoutBrackets(host));
    assert COLON !in WithoutBrackets(host);
    assert COLON !in inner;
    assert LOOPBACK[0] == COLON && UNSPECIFIED[0] == COLON && MAPPED[0] == COLON && LINK_LOCAL[4] == COLON;
  }

  /** What an IPv6 literal spells with an IPv4 address in it, in hextets. */
  ghost predicate SpellsHextets(host: Text, high: Text, low: Text)
  {
    && 0 < |high| <= 4 && 0 < |low| <= 4 && LowerHex(high) && LowerHex(low)
    && (host == MAPPED + (high + [COLON] + low) || host == Bracketed(MAPPED + (high + [COLON] + low)))
  }

  /** The same with the address dotted. */
  ghost predicate SpellsDotted(host: Text, dotted: Text)
  {
    DottedDecimal(dotted) && (host == MAPPED + dotted || host == Bracketed(MAPPED + dotted))
  }

  /**
   So no URL the guard allows has a host that denotes an address in a listed block: not in one to four parts, as
   the guard or inet_aton reads them, and not inside a mapped IPv6 literal in hextets or dotted.
  */
  lemma AllowedIsNeverListed(url: Url, allowedOrigins: seq<Text>)
    requires Guard(url, allowedOrigins).Allowed?
    ensures HostNumber(url.hostname).Some? ==> !Listed(HostNumber(url.hostname).value)
    ensures InetAton(url.hostname).Some? ==> !Listed(InetAton(url.hostname).value)
    ensures forall high, low :: SpellsHextets(url.hostname, high, low) ==>
      !Listed(Digits(high, 16) * 0x1_0000 + Digits(low, 16))
    ensures forall dotted :: SpellsDotted(url.hostname, dotted) ==>
      HostNumber(dotted).Some? && !Listed(HostNumber(dotted).value)
  {
    hide HostNumber, InetAton, Listed, IsPrivateIpv4, Octets, IsPrivateIpv6, Digits, LowerHex, DottedDecimal, Bracketed;
    var host := url.hostname;
    HostIsStrictExactly(host);
    if HostNumber(host).Some? {
      AddressIsBounded(host);
      PrivateIsListed(HostNumber(host).value);
    }
    forall high, low | SpellsHextets(host, high, low)
      ensures !Listed(Digits(high, 16) * 0x1_0000 + Digits(low, 16))
    {
      HextetsNameTheAddress(high, low);
    }
    forall dotted | SpellsDotted(host, dotted)
      ensures HostNumber(dotted).Some? && !Listed(HostNumber(dotted).value)
    {
      DottedNamesTheAddress(dotted);
    }
  }

  // ---------------------------------------------------------------------------------------------------------
  // The guard, refusal by refusal.

  /** The host denotes an address in a listed block, or is a refused IPv6 literal. */
  ghost predicate IsRefusedLiteral(host: Text)
  {
    (HostNumber(host).Some? && Listed(HostNumber(host).value)) || IsPrivateIpv6(host)
  }

  /** Which refusal a URL meets is decided by its own parts, in this order, and it is allowed exactly when by none. */
  lemma GuardExactly(url: Url, allowedOrigins: seq<Text>)
    ensures
      var fetched := Reads(url.protocol, "http:") || Reads(url.protocol, "https:");
      var bare := url.username == [] && url.password == [];
      var literal := IsRefusedLiteral(url.hostname);
      match Guard(url, allowedOrigins)
      case RefusedScheme => !fetched
      case RefusedUserinfo => fetched && !bare
      case RefusedLiteralAddress => fetched && bare && literal
      case RefusedOrigin => fetched && bare && !literal && url.origin !in allowedOrigins
      case Allowed => fetched && bare && !literal && url.origin in allowedOrigins
  {
    hide HostNumber, Listed, IsPrivateIpv4, Octets, IsPrivateIpv6;
    var host := url.hostname;
    if HostNumber(host).Some? {
      AddressIsBounded(host);
      PrivateIsListed(HostNumber(host).value);
    }
  }

  lemma LowerReadsAlike(t: Text)
    requires AllDigits(t, 16)
    ensures Digits(Lower(t), 16) == Digits(t, 16) && LowerHex(Lower(t))
  {
    hide Digits, AllDigits;
    CaseReadsAlike(t, Lower(t), 16);
    forall c | c in Lower(t) ensures !(0x41 <= c <= 0x46) {
      var i :| 0 <= i < |t| && Lower(t)[i] == c;
    }
  }

  /** The four digits of a hextet. */
  lemma FourDigits(t: Text)
    requires |t| == 4
    ensures Digits(t, 16)
         == DigitValue(t[0]) * 0x1000 + DigitValue(t[1]) * 0x100 + DigitValue(t[2]) * 0x10 + DigitValue(t[3])
  {
    assert t[..3][..2] == t[..2] && t[..2][..1] == t[..1] && t[..1][..0] == [];
    assert Digits(t[..1], 16) == DigitValue(t[0]);
    assert Digits(t[..2], 16) == DigitValue(t[0]) * 0x10 + DigitValue(t[1]);
    assert Digits(t[..3], 16) == DigitValue(t[0]) * 0x100 + DigitValue(t[1]) * 0x10 + DigitValue(t[2]);
  }

  lemma FourNibbles(a: nat, b: nat, c: nat, d: nat)
    requires a < 16 && b < 16 && c < 16 && d < 16
    ensures
      var n := a * 0x1000 + b * 0x100 + c * 0x10 + d;
      && (0xFC00 <= n <= 0xFDFF <==> a == 15 && (b == 12 || b == 13))
      && (n == 0xFE80 <==> a == 15 && b == 14 && c == 8 && d == 0)
  {
  }

  /** A small digit is spelled in one way. */
  lemma DigitIsSpelled(c: CodeUnit, d: nat)
    requires DigitValue(c) < 16 && !(0x41 <= c <= 0x46) && d < 16
    ensures DigitValue(c) == d <==> c == Digit(d)
  {
  }

  lemma FourDigitHextet(h: Text)
    requires |h| == 4 && forall i :: 0 <= i < 4 ==> DigitValue(h[i]) < 16 && !(0x41 <= h[i] <= 0x46)
    ensures 0xFC00 <= Digits(h, 16) <= 0xFDFF <==> h[0] == 0x66 && (h[1] == 0x63 || h[1] == 0x64)
    ensures Digits(h, 16) == 0xFE80 <==> h[0] == 0x66 && h[1] == 0x65 && h[2] == 0x38 && h[3] == 0x30
  {
    hide Digits, DigitValue;
    FourDigits(h);
    FourNibbles(DigitValue(h[0]), DigitValue(h[1]), DigitValue(h[2]), DigitValue(h[3]));
    DigitIsSpelled(h[0], 15);
    DigitIsSpelled(h[1], 12);
    DigitIsSpelled(h[1], 13);
    DigitIsSpelled(h[1], 14);
    DigitIsSpelled(h[2], 8);
    DigitIsSpelled(h[3], 0);
  }

  /** A hextet, read as letters and as a number. */
  lemma HextetValue(h: Text)
    requires LowerHex(h) && |h| <= 4
    ensures 0xFC00 <= Digits(h, 16) <= 0xFDFF <==> |h| == 4 && h[0] == 0x66 && (h[1] == 0x63 || h[1] == 0x64)
    ensures Digits(h, 16) == 0xFE80 <==> h == LINK_LOCAL[..4]
  {
    hide Digits;
    if |h| == 4 {
      assert forall i :: 0 <= i < 4 ==> h[i] in h;
      FourDigitHextet(h);
    } else {
      DigitsAreBounded(h);
      assert Pow16(1) == 16 && Pow16(2) == 256 && Pow16(3) == 4096;
    }
  }

  lemma FirstHextetIsLetters(h: Text, r: Text)
    requires LowerHex(h) && |h| <= 4
    ensures
      var t := h + [COLON] + r;
      && (UniqueLocal(t) <==> |h| == 4 && h[0] == 0x66 && (h[1] == 0x63 || h[1] == 0x64))
      && (LINK_LOCAL <= t <==> h == LINK_LOCAL[..4])
      && !(MAPPED <= t) && t != LOOPBACK && t != UNSPECIFIED
  {
    var t := h + [COLON] + r;
    assert COLON !in h && h[0] != COLON;
    assert t[0] == h[0] && t[|h|] == COLON;
    if |h| == 4 {
      assert t[..4] == h && t[4] == COLON;
      assert forall c <- t[2..4] :: c in h;
    } else {
      if |t| >= 5 && |h| > 1 { assert COLON in t[2..4]; }
      assert LINK_LOCAL[|h|] != t[|h|];
    }
  }

  lemma LowerOfThree(h: Text, r: Text)
    ensures Lower(h + [COLON] + r) == Lower(h) + [COLON] + Lower(r)
  {
  }

  /**
   A literal that starts with a hextet, in letters of any case and bracketed or not, is refused exactly when that
   hextet is in fc00::/7 or is fe80.
  */
  lemma FirstHextetDecides(hextet: Text, rest: Text)
    requires 0 < |hextet| <= 4 && AllDigits(hextet, 16) && (rest != [] ==> rest[|rest| - 1] != CLOSE_BRACKET)
    ensures
      var host, n := hextet + [COLON] + rest, Digits(hextet, 16);
      && (IsPrivateIpv6(host) <==> 0xFC00 <= n <= 0xFDFF || n == 0xFE80)
      && (IsPrivateIpv6(Bracketed(host)) <==> 0xFC00 <= n <= 0xFDFF || n == 0xFE80)
  {
    hide Digits, PrivateMapped, UniqueLocal, LowerHex, Bracketed, WithoutBrackets;
    var host := hextet + [COLON] + rest;
    assert hextet[0] in hextet && host[0] == hextet[0];
    assert host[|host| - 1] == if rest == [] then COLON else rest[|rest| - 1];
    BracketsComeOff(host);
    LowerOfThree(hextet, rest);
    LowerReadsAlike(hextet);
    HextetValue(Lower(hextet));
    FirstHextetIsLetters(Lower(hextet), Lower(rest));
  }

  /** Whatever is refused and does not start with a colon starts with a hextet of four digits. */
  lemma RefusedStartsWithHextet(host: Text)
    requires IsPrivateIpv6(host) && WithoutBrackets(host) != [] && WithoutBrackets(host)[0] != COLON
    ensures
      var t := WithoutBrackets(host);
      |t| >= 5 && AllDigits(t[..4], 16) && t[4] == COLON
  {
    hide WithoutBrackets, PrivateMapped, AllDigits, LowerHex, Lower;
    var t := WithoutBrackets(host);
    var inner := Lower(t);
    assert inner[0] == LowerUnit(t[0]) && inner[0] != COLON;
    assert LOOPBACK[0] == COLON && UNSPECIFIED[0] == COLON && MAPPED[0] == COLON;
    if LINK_LOCAL <= inner { assert forall i :: 0 <= i < 5 ==> inner[i] == LINK_LOCAL[i]; }
    FirstFourAreDigits(inner);
    CaseReadsAlike(t[..4], inner[..4], 16);
  }

  lemma FirstFourAreDigits(t: Text)
    requires UniqueLocal(t) || (|t| >= 5 && forall i :: 0 <= i < 5 ==> t[i] == LINK_LOCAL[i])
    ensures |t| >= 5 && t[4] == COLON && AllDigits(t[..4], 16)
  {
    if UniqueLocal(t) {
      assert t[..4] == [t[0], t[1]] + t[2..4];
    }
  }

  /** The unspecified and the loopback address are refused, in brackets too. */
  lemma LoopbackIsRefused(host: Text)
    requires Reads(host, "::") || Reads(host, "::1")
    ensures IsPrivateIpv6(host) && IsPrivateIpv6(Bracketed(host))
  {
    hide UniqueLocal, PrivateMapped, Bracketed, WithoutBrackets;
    assert host == UNSPECIFIED || host == LOOPBACK;
    BracketsComeOff(host);
    LowerStays(host);
  }

  /** Digits and colons are what they are in lower case, and nothing else is. */
  lemma OnlyItselfInLower(host: Text, t: Text)
    requires forall i :: 0 <= i < |t| ==> t[i] < 0x41
    ensures Lower(host) == t <==> host == t
  {
    if Lower(host) == t || host == t {
      assert |host| == |t|;
      assert forall i :: 0 <= i < |host| ==> Lower(host)[i] == LowerUnit(host[i]);
      assert forall i :: 0 <= i < |host| ==> (LowerUnit(host[i]) == t[i] <==> host[i] == t[i]);
    }
  }

  lemma ReadsColons(host: Text)
    ensures Reads(host, "::") <==> host == UNSPECIFIED
    ensures Reads(host, "::1") <==> host == LOOPBACK
  {
  }

  lemma StartsWithColon(t: Text)
    requires t != [] && t[0] == COLON
    ensures !UniqueLocal(t) && !(LINK_LOCAL <= t)
  {
    assert LINK_LOCAL[0] != COLON;
  }

  /** No other text that starts with a colon is refused, save for a mapped address. */
  lemma OtherColonsAreNoLiterals(host: Text)
    requires host != [] && host[0] == COLON && host[|host| - 1] != CLOSE_BRACKET
    requires !Reads(host, "::") && !Reads(host, "::1") && !(MAPPED <= Lower(host))
    ensures !IsPrivateIpv6(host) && !IsPrivateIpv6(Bracketed(host))
  {
    hide PrivateMapped, Bracketed, WithoutBrackets, UniqueLocal, Lower, Reads;
    BracketsComeOff(host);
    ReadsColons(host);
    OnlyItselfInLower(host, UNSPECIFIED);
    OnlyItselfInLower(host, LOOPBACK);
    StartsWithColon(Lower(host));
  }

  /** Four parts of decimal digits, joined by dots. */
  ghost predicate JoinsDecimals(t: Text, parts: seq<Text>)
  {
    |parts| == 4 && (forall p <- parts :: AllDigits(p, 10)) && t == Join(parts, DOT)
  }

  /** Two hextets, joined by a colon. */
  ghost predicate JoinsHextets(t: Text, high: Text, low: Text)
  {
    && 0 < |high| <= 4 && 0 < |low| <= 4 && LowerHex(high) && LowerHex(low)
    && t == high + [COLON] + low
  }

  lemma DottedExactly(t: Text)
    ensures DottedDecimal(t) <==> exists parts :: JoinsDecimals(t, parts)
  {
    hide AllDigits;
    if DottedDecimal(t) {
      JoinUndoesSplit(t, DOT);
      assert JoinsDecimals(t, Split(t, DOT));
    }
    if parts :| JoinsDecimals(t, parts) {
      forall p | p in parts ensures DOT !in p { DigitsHaveNoDots(p); }
      SplitUndoesJoin(parts, DOT);
    }
  }

  lemma DigitsHaveNoDots(p: Text)
    requires AllDigits(p, 10)
    ensures DOT !in p
  {
  }

  lemma TwoHextetsExactly(t: Text, high: Text, low: Text)
    ensures JoinsHextets(t, high, low) <==> TwoHextets(t) && Split(t, COLON) == [high, low]
  {
    hide LowerHex;
    var parts := [high, low];
    assert Join(parts, COLON) == high + [COLON] + low by { assert parts[1..] == [low]; }
    if JoinsHextets(t, high, low) {
      HextetsAreLower(high, low);
      SplitUndoesJoin(parts, COLON);
    }
    if TwoHextets(t) && Split(t, COLON) == parts {
      JoinUndoesSplit(t, COLON);
      assert high in parts && low in parts;
      NothingIsNoHextet(high);
      NothingIsNoHextet(low);
    }
  }

  lemma NothingIsNoHextet(t: Text)
    requires LowerHex(t)
    ensures t != []
  {
  }

  /**
   A mapped literal is refused exactly when it is four parts of digits that name no address or one in a listed block,
   or two hextets that name one in a listed block.
  */
  lemma MappedExactly(host: Text, rest: Text)
    requires Lower(WithoutBrackets(host)) == MAPPED + rest
    ensures IsPrivateIpv6(host) <==>
      || (exists parts :: JoinsDecimals(rest, parts) && (HostNumber(rest).None? || Listed(HostNumber(rest).value)))
      || (exists high, low ::
            JoinsHextets(rest, high, low) && Listed(Digits(high, 16) * 0x1_0000 + Digits(low, 16)))
  {
    hide IsPrivateIpv6, PrivateMapped, Lower, WithoutBrackets, HostNumber, Listed, JoinsDecimals, JoinsHextets, Digits;
    MappedIsNothingElse(host, rest);
    DottedExactly(rest);
    forall high, low ensures JoinsHextets(rest, high, low) ==> COLON in rest {
      HasItsColon(rest, high, low);
    }
    if DottedDecimal(rest) {
      DottedVerdict(rest);
      if COLON in rest { HasNoDots(rest); }
    } else {
      HextetsVerdict(rest);
    }
  }

  lemma HasItsColon(t: Text, high: Text, low: Text)
    ensures JoinsHextets(t, high, low) ==> COLON in t
  {
  }

  lemma DottedVerdict(rest: Text)
    requires DottedDecimal(rest)
    ensures PrivateMapped(rest) <==> HostNumber(rest).None? || Listed(HostNumber(rest).value)
  {
    hide DottedDecimal, Listed, IsPrivateIpv4, HostNumber, Octets, TwoHextets;
    if HostNumber(rest).Some? {
      AddressIsBounded(rest);
      PrivateIsListed(HostNumber(rest).value);
    }
  }

  lemma HextetsVerdict(rest: Text)
    requires !DottedDecimal(rest)
    ensures PrivateMapped(rest) <==>
      exists high, low :: JoinsHextets(rest, high, low) && Listed(Digits(high, 16) * 0x1_0000 + Digits(low, 16))
  {
    hide DottedDecimal, Listed, IsPrivateIpv4, Octets, TwoHextets, JoinsHextets, Digits, Split, Ipv4;
    forall high, low | JoinsHextets(rest, high, low)
      ensures TwoHextets(rest) && Split(rest, COLON) == [high, low]
      ensures PrivateMapped(rest) <==> Listed(Digits(high, 16) * 0x1_0000 + Digits(low, 16))
    {
      TwoHextetsExactly(rest, high, low);
      TwoHextetsVerdict(rest, high, low);
    }
    if TwoHextets(rest) {
      var parts := Split(rest, COLON);
      assert |parts| == 2 by { TwoParts(rest); }
      assert parts == [parts[0], parts[1]];
      TwoHextetsExactly(rest, parts[0], parts[1]);
    }
  }

  lemma TwoParts(t: Text)
    requires TwoHextets(t)
    ensures |Split(t, COLON)| == 2
  {
  }

  lemma TwoHextetsVerdict(rest: Text, high: Text, low: Text)
    requires JoinsHextets(rest, high, low)
    ensures PrivateMapped(rest) <==> Listed(Digits(high, 16) * 0x1_0000 + Digits(low, 16))
  {
    hide LowerHex, Digits, PrivateMapped, Listed, IsPrivateIpv4, Octets;
    HextetsAreRead(high, low);
    HextetIsSmall(high);
    HextetIsSmall(low);
    OctetsOfHextets(Digits(high, 16), Digits(low, 16));
    PrivateIsListed(Digits(high, 16) * 0x1_0000 + Digits(low, 16));
  }
}
