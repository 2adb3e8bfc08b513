/** Versioned AES-GCM envelopes: the abstract cipher, key selection, and the
    `v<N>:<iv>:<tag>:<ciphertext>` text form the provider keys are stored in. */
module Envelope {
  import opened Text

  type Bytes = seq<nat>

  const KEY_BYTES: nat := 32
  const IV_BYTES: nat := 12
  const TAG_BYTES: nat := 16

  datatype Sealed = Sealed(tag: Bytes, body: Bytes)

  /** The primitives taken from Node: AES-256-GCM over keys and nonces, base64, and the random
      source (`random(n)` is the n-th nonce drawn). */
  datatype Primitives = Primitives(
    lock: (Bytes, Bytes, string) -> Sealed,
    unlock: (Bytes, Bytes, Sealed) -> Option<string>,
    toText: Bytes -> string,
    fromText: string -> Bytes,
    random: nat -> Bytes
  )

  /** What the proofs assume of them: decryption undoes encryption under the same key and nonce,
      base64 text reads back and never contains a colon, nonces and tags have their sizes. */
  ghost predicate Lawful(p: Primitives) {
    && (forall k, iv, text :: p.unlock(k, iv, p.lock(k, iv, text)) == Some(text))
    && (forall k, iv, text :: |p.lock(k, iv, text).tag| == TAG_BYTES)
    && (forall b :: p.fromText(p.toText(b)) == b && Free(p.toText(b), ':'))
    && (forall n :: |p.random(n)| == IV_BYTES)
  }

  datatype Envelope = Envelope(version: int, iv: string, tag: string, ciphertext: string)

  /** The versioned key configuration; a key is base64 text. */
  datatype Secrets = Secrets(currentVersion: int, versions: map<int, string>)

  // ---- Keys ---------------------------------------------------------------------------

  predicate IsBase64(c: char) {
    'A' <= c <= 'Z' || 'a' <= c <= 'z' || IsDigit(c) || c == '+' || c == '/' || c == '_' || c == '-'
  }

  /** `^[A-Za-z0-9+/_-]+={0,2}$` */
  predicate IsKeyText(raw: string) {
    exists pad: nat :: pad <= 2 && pad < |raw| && PaddedBase64(raw, pad)
  }

  predicate PaddedBase64(raw: string, pad: nat)
    requires pad < |raw|
  {
    && (forall i :: 0 <= i < |raw| - pad ==> IsBase64(raw[i]))
    && (forall i :: |raw| - pad <= i < |raw| ==> raw[i] == '=')
  }

  function DecodeKey(p: Primitives, raw: string): Option<Bytes> {
    if IsKeyText(raw) && |p.fromText(raw)| == KEY_BYTES then Some(p.fromText(raw)) else None
  }

  function ResolveKey(p: Primitives, secrets: Secrets, version: int): Option<Bytes> {
    if version in secrets.versions then DecodeKey(p, secrets.versions[version]) else None
  }

  // ---- The GCM envelope ------------------------------------------------------------------

  predicate CanEncrypt(p: Primitives, secrets: Secrets) {
    secrets.currentVersion > 0 && ResolveKey(p, secrets, secrets.currentVersion).Some?
  }

  function GcmEncrypt(p: Primitives, secrets: Secrets, text: string, draw: nat): Option<Envelope> {
    if secrets.currentVersion <= 0 then None
    else
      var key := ResolveKey(p, secrets, secrets.currentVersion);
      if key.None? then None
      else
        var iv := p.random(draw);
        var locked := p.lock(key.value, iv, text);
        Some(Envelope(secrets.currentVersion, p.toText(iv), p.toText(locked.tag), p.toText(locked.body)))
  }

  function GcmDecrypt(p: Primitives, secrets: Secrets, e: Envelope): Option<string> {
    var key := ResolveKey(p, secrets, e.version);
    if key.None? then None
    else
      var iv, tag := p.fromText(e.iv), p.fromText(e.tag);
      if |iv| != IV_BYTES || |tag| != TAG_BYTES then None
      else p.unlock(key.value, iv, Sealed(tag, p.fromText(e.ciphertext)))
  }

  /** An envelope opens under every configuration that still has its version, whichever version
      is current there. */
  lemma GcmRoundTrip(p: Primitives, secrets: Secrets, later: Secrets, text: string, draw: nat)
    requires Lawful(p) && CanEncrypt(p, secrets)
    requires secrets.currentVersion in later.versions
    requires later.versions[secrets.currentVersion] == secrets.versions[secrets.currentVersion]
    ensures GcmEncrypt(p, secrets, text, draw).Some?
    ensures GcmDecrypt(p, later, GcmEncrypt(p, secrets, text, draw).value) == Some(text)
  {
    var e := GcmEncrypt(p, secrets, text, draw).value;
    var key := ResolveKey(p, secrets, secrets.currentVersion).value;
    var locked := p.lock(key, p.random(draw), text);
    assert p.fromText(e.iv) == p.random(draw);
    assert Sealed(p.fromText(e.tag), p.fromText(e.ciphertext)) == locked;
    assert p.unlock(key, p.random(draw), locked) == Some(text);
  }

  // ---- Keys and envelopes in plain terms ------------------------------------------------------

  /** Base64 characters, standard or URL-safe, then at most two equals signs. */
  predicate KeyShape(raw: string, body: string, pad: string) {
    && raw == body + pad && body != "" && (pad == "" || pad == "=" || pad == "==")
    && forall i :: 0 <= i < |body| ==>
         var c := body[i];
         || 'A' <= c <= 'Z' || 'a' <= c <= 'z' || '0' <= c <= '9'
         || c == '+' || c == '/' || c == '_' || c == '-'
  }

  /** The text of a 32-byte key. */
  ghost predicate UsableKey(p: Primitives, raw: string) {
    (exists body: string, pad: string :: KeyShape(raw, body, pad)) && |p.fromText(raw)| == 32
  }

  lemma KeyTextExactly(raw: string)
    ensures IsKeyText(raw) <==> exists body: string, pad: string :: KeyShape(raw, body, pad)
  {
    if IsKeyText(raw) {
      var n: nat :| n <= 2 && n < |raw| && PaddedBase64(raw, n);
      var body, pad := raw[..|raw| - n], raw[|raw| - n..];
      assert forall i :: 0 <= i < n ==> pad[i] == '=';
      assert KeyShape(raw, body, pad);
    }
    if body, pad :| KeyShape(raw, body, pad) {
      assert forall i :: 0 <= i < |body| ==> raw[i] == body[i];
      assert PaddedBase64(raw, |pad|);
    }
  }

  /** Sealing succeeds exactly under a positive current version with a usable key; the envelope then
      names that version and carries the draw's nonce, and what the cipher makes of the text under it. */
  lemma SealsExactly(p: Primitives, secrets: Secrets, text: string, draw: nat)
    ensures var e, v := GcmEncrypt(p, secrets, text, draw), secrets.currentVersion;
            && (e.Some? <==> v > 0 && v in secrets.versions && UsableKey(p, secrets.versions[v]))
            && (e.Some? <==> CanEncrypt(p, secrets))
            && (e.Some? ==>
                  var locked := p.lock(p.fromText(secrets.versions[v]), p.random(draw), text);
                  e.value == Envelope(v, p.toText(p.random(draw)), p.toText(locked.tag), p.toText(locked.body)))
  {
    hide IsKeyText;
    if secrets.currentVersion in secrets.versions {
      KeyTextExactly(secrets.versions[secrets.currentVersion]);
    }
  }

  /** An envelope opens exactly when its version has a usable key, its nonce has 12 bytes and its tag 16,
      and the cipher accepts it. */
  lemma OpensExactly(p: Primitives, secrets: Secrets, e: Envelope, text: string)
    ensures GcmDecrypt(p, secrets, e) == Some(text) <==>
              && e.version in secrets.versions && UsableKey(p, secrets.versions[e.version])
              && |p.fromText(e.iv)| == 12 && |p.fromText(e.tag)| == 16
              && p.unlock(p.fromText(secrets.versions[e.version]), p.fromText(e.iv), Sealed(p.fromText(e.tag), p.fromText(e.ciphertext)))
                   == Some(text)
  {
    hide IsKeyText;
    if e.version in secrets.versions {
      KeyTextExactly(secrets.versions[e.version]);
    }
  }

  // ---- The text form -----------------------------------------------------------------------

  function PrintInt(n: int): string {
    if n < 0 then "-" + Print(-n) else Print(n)
  }

  function LeadingDigits(s: string): (d: string)
    ensures AllDigits(d) && d <= s
    ensures |d| < |s| ==> !IsDigit(s[|d|])
  {
    if s == [] || !IsDigit(s[0]) then [] else [s[0]] + LeadingDigits(s[1..])
  }

  /** `parseInt(s, 10)`: blanks, a sign, then the longest run of digits; None is NaN. */
  function ParseInt(s: string): Option<int> {
    var t := TrimLeft(s);
    if t != [] && t[0] == '-' then Numeral(true, LeadingDigits(t[1..]))
    else if t != [] && t[0] == '+' then Numeral(false, LeadingDigits(t[1..]))
    else Numeral(false, LeadingDigits(t))
  }

  function Numeral(negative: bool, digits: string): Option<int>
    requires AllDigits(digits)
  {
    if digits == [] then None
    else
      var n: int := if negative then 0 - Read(digits) else Read(digits);
      Some(n)
  }

  function Serialise(e: Envelope): string {
    Join(["v" + PrintInt(e.version), e.iv, e.tag, e.ciphertext], ':')
  }

  function Parse(s: string): Option<Envelope> {
    var parts := Split(s, ':');
    if |parts| != 4 then None
    else if parts[0] == [] || parts[0][0] != 'v' then None
    else
      var version := ParseInt(parts[0][1..]);
      if version.None? || version.value <= 0 then None
      else Some(Envelope(version.value, parts[1], parts[2], parts[3]))
  }

  lemma {:induction false} LeadingOfRun(d: string, rest: string)
    requires AllDigits(d) && (rest != [] ==> !IsDigit(rest[0]))
    ensures LeadingDigits(d + rest) == d
  {
    if d == [] {
      assert d + rest == rest;
    } else {
      LeadingOfRun(d[1..], rest);
      assert (d + rest)[1..] == d[1..] + rest;
    }
  }

  /** What a version token may look like: blanks, an optional plus, digits, then anything. */
  lemma ParseIntReads(blanks: string, plus: bool, d: string, rest: string)
    requires forall i :: 0 <= i < |blanks| ==> IsSpace(blanks[i])
    requires d != [] && AllDigits(d) && (rest != [] ==> !IsDigit(rest[0]))
    ensures ParseInt(blanks + ((if plus then "+" else "") + d + rest)) == Some(Read(d))
  {
    hide Read, LeadingDigits, TrimLeft;
    LeadingOfRun(d, rest);
    var s := (if plus then "+" else "") + d + rest;
    TrimLeftSkips(blanks, s);
    if plus {
      assert s[1..] == d + rest;
    } else {
      assert s == d + rest;
      assert s[0] == d[0];
    }
  }

  /** Blanks, at most one sign, digits, and anything that does not begin with a digit. */
  predicate IntShape(s: string, blanks: string, sign: string, d: string, rest: string) {
    && Blank(blanks) && (sign == "" || sign == "+" || sign == "-") && d != "" && AllDigits(d)
    && (rest != "" ==> !IsDigit(rest[0]))
    && s == blanks + (sign + d + rest)
  }

  function ShapeValue(sign: string, d: string): Option<int> {
    if !AllDigits(d) then None else if sign == "-" then Some(0 - Read(d)) else Some(Read(d))
  }

  ghost predicate ReadsAs(s: string, n: int) {
    exists blanks: string, sign: string, d: string, rest: string ::
      IntShape(s, blanks, sign, d, rest) && ShapeValue(sign, d) == Some(n)
  }

  lemma ShapeReads(s: string, blanks: string, sign: string, d: string, rest: string)
    requires IntShape(s, blanks, sign, d, rest)
    ensures ParseInt(s) == ShapeValue(sign, d)
  {
    hide Read, LeadingDigits, TrimLeft, IsSpace;
    var t := sign + d + rest;
    LeadingOfRun(d, rest);
    if sign == "" {
      assert t == d + rest && t[0] == d[0];
    } else {
      assert t[0] == sign[0] && t[1..] == d + rest;
    }
    DigitsAreNoBlanks(t[0]);
    TrimLeftSkips(blanks, t);
  }

  lemma ReadHasShape(s: string, n: int)
    requires ParseInt(s) == Some(n)
    ensures ReadsAs(s, n)
  {
    hide Read, LeadingDigits, TrimLeft, IsSpace;
    var blanks := TrimLeftDrops(s);
    var t := TrimLeft(s);
    var sign := if t != "" && (t[0] == '-' || t[0] == '+') then t[..1] else "";
    var d := LeadingDigits(t[|sign|..]);
    var rest := t[|sign| + |d|..];
    assert t == sign + d + rest;
    assert IntShape(s, blanks, sign, d, rest);
  }

  /** `parseInt(s, 10)`, exactly: the number after blanks and a sign, whatever follows it. */
  lemma ParseIntExactly(s: string, n: int)
    ensures ParseInt(s) == Some(n) <==> ReadsAs(s, n)
  {
    hide Read, ParseInt, IntShape;
    if ParseInt(s) == Some(n) {
      ReadHasShape(s, n);
    }
    if ReadsAs(s, n) {
      var blanks, sign, d, rest :| IntShape(s, blanks, sign, d, rest) && ShapeValue(sign, d) == Some(n);
      ShapeReads(s, blanks, sign, d, rest);
    }
  }

  lemma DigitsAreNoBlanks(c: char)
    ensures IsDigit(c) || c == '-' || c == '+' ==> !IsSpace(c)
  {
  }

  lemma NaturalParses(d: string)
    requires d != [] && AllDigits(d)
    ensures ParseInt(d) == Some(Read(d))
  {
    hide Read, LeadingDigits, TrimLeft;
    DigitRun(d);
    assert IsDigit(d[0]);
    TrimLeftSkips([], d);
    assert [] + d == d;
  }

  lemma NegatedParses(d: string)
    requires d != [] && AllDigits(d)
    ensures ParseInt("-" + d) == Some(0 - Read(d))
  {
    hide Read, LeadingDigits, TrimLeft, AllDigits;
    DigitRun(d);
    var t := "-" + d;
    assert t[0] == '-' && t[1..] == d;
    TrimLeftSkips([], t);
    assert [] + t == t;
  }

  lemma DigitRun(d: string)
    requires AllDigits(d)
    ensures LeadingDigits(d) == d
  {
    LeadingOfRun(d, []);
    assert d + [] == d;
  }

  lemma PrintIntParses(n: int)
    ensures ParseInt(PrintInt(n)) == Some(n)
    ensures Free(PrintInt(n), ':')
  {
    hide ParseInt, Print, Read;
    var m: nat := if n < 0 then -n else n;
    PrintThenRead(m);
    NaturalParses(Print(m));
    NegatedParses(Print(m));
  }

  // ---- Counting colons ------------------------------------------------------------------------

  lemma FreeIsZero(s: string, c: char)
    ensures Free(s, c) <==> multiset(s)[c] == 0
  {
    assert c in multiset(s) <==> c in s;
  }

  lemma {:induction false} JoinCounts(parts: seq<string>, sep: char)
    requires |parts| > 0 && forall i :: 0 <= i < |parts| ==> Free(parts[i], sep)
    ensures multiset(Join(parts, sep))[sep] == |parts| - 1
  {
    FreeIsZero(parts[0], sep);
    if |parts| > 1 {
      JoinCounts(parts[1..], sep);
      assert Join(parts, sep) == parts[0] + [sep] + Join(parts[1..], sep);
    }
  }

  /** Four segments come back as four only if none of them holds a separator. */
  lemma FourSegments(a: string, b: string, c: string, d: string, sep: char)
    requires |Split(Join([a, b, c, d], sep), sep)| == 4
    ensures Free(a, sep) && Free(b, sep) && Free(c, sep) && Free(d, sep)
  {
    var s := Join([a, b, c, d], sep);
    JoinOfSplit(s, sep);
    JoinCounts(Split(s, sep), sep);
    JoinedFour(a, b, c, d, sep);
    var m := multiset(a)[sep] + multiset(b)[sep] + multiset(c)[sep] + multiset(d)[sep];
    assert multiset(s)[sep] == 3 + m;
    FreeIsZero(a, sep);
    FreeIsZero(b, sep);
    FreeIsZero(c, sep);
    FreeIsZero(d, sep);
  }

  lemma JoinedFour(a: string, b: string, c: string, d: string, sep: char)
    ensures Join([a, b, c, d], sep) == a + [sep] + (b + [sep] + (c + [sep] + d))
  {
    assert [a, b, c, d][1..] == [b, c, d] && [b, c, d][1..] == [c, d] && [c, d][1..] == [d];
    assert Join([d], sep) == d;
    assert Join([c, d], sep) == c + [sep] + d;
    assert Join([b, c, d], sep) == b + [sep] + Join([c, d], sep);
    assert Join([a, b, c, d], sep) == a + [sep] + Join([b, c, d], sep);
  }

  // ---- Printer and parser undo each other --------------------------------------------------------

  predicate Printable(e: Envelope) {
    e.version > 0 && Free(e.iv, ':') && Free(e.tag, ':') && Free(e.ciphertext, ':')
  }

  function WithVersionText(token: string, e: Envelope): string {
    Join(["v" + token, e.iv, e.tag, e.ciphertext], ':')
  }

  lemma VersionTextSplits(token: string, e: Envelope)
    requires Free(token, ':') && Free(e.iv, ':') && Free(e.tag, ':') && Free(e.ciphertext, ':')
    ensures Split(WithVersionText(token, e), ':') == ["v" + token, e.iv, e.tag, e.ciphertext]
  {
    hide Split, Join;
    var parts := ["v" + token, e.iv, e.tag, e.ciphertext];
    assert forall i :: 0 <= i < |parts| ==> Free(parts[i], ':');
    SplitOfJoin(parts, ':');
  }

  lemma VersionTextParses(token: string, e: Envelope)
    requires Free(token, ':') && Printable(e) && ParseInt(token) == Some(e.version)
    ensures Parse(WithVersionText(token, e)) == Some(e)
  {
    hide Split, WithVersionText, ParseInt;
    VersionTextSplits(token, e);
    assert ("v" + token)[1..] == token;
  }

  lemma ParsedHasVersionText(s: string)
    requires Parse(s).Some?
    ensures Split(s, ':')[0] != []
    ensures var e, token := Parse(s).value, Split(s, ':')[0][1..];
            Free(token, ':') && Printable(e) && ParseInt(token) == Some(e.version) && s == WithVersionText(token, e)
  {
    hide Split, Join, ParseInt;
    JoinOfSplit(s, ':');
    var parts := Split(s, ':');
    assert parts == [parts[0], parts[1], parts[2], parts[3]];
    assert parts[0] == "v" + parts[0][1..];
  }

  lemma WrittenOut(token: string, e: Envelope)
    ensures WithVersionText(token, e) == "v" + token + ":" + e.iv + ":" + e.tag + ":" + e.ciphertext
  {
    hide Join;
    JoinedFour("v" + token, e.iv, e.tag, e.ciphertext, ':');
    assert WithVersionText(token, e) == "v" + token + [':'] + (e.iv + [':'] + (e.tag + [':'] + e.ciphertext));
    assert "v" + token + [':'] + (e.iv + [':'] + (e.tag + [':'] + e.ciphertext))
        == "v" + token + ":" + e.iv + ":" + e.tag + ":" + e.ciphertext;
  }

  /** The stored form: `v`, the version in decimal without leading zeros, and the three parts, colons
      between them. */
  lemma SerialiseExactly(e: Envelope)
    requires e.version > 0
    ensures exists token: string :: Canonical(token) && Read(token) == e.version
              && Serialise(e) == "v" + token + ":" + e.iv + ":" + e.tag + ":" + e.ciphertext
  {
    hide Print, Read, Join;
    var token := PrintInt(e.version);
    PrintThenRead(e.version);
    PrintIsCanonical(e.version);
    WrittenOut(token, e);
    assert Canonical(token) && Read(token) == e.version;
  }

  /** `parse(serialise(e))` is `e` exactly for positive versions and colon-free parts; every other
      envelope is rejected, never misread. */
  lemma ParseOfSerialise(e: Envelope)
    ensures Parse(Serialise(e)) == if Printable(e) then Some(e) else None
  {
    hide Split, Join, ParseInt, PrintInt;
    var token := PrintInt(e.version);
    PrintIntParses(e.version);
    assert Serialise(e) == WithVersionText(token, e);
    if Free(e.iv, ':') && Free(e.tag, ':') && Free(e.ciphertext, ':') {
      VersionTextSplits(token, e);
      assert ("v" + token)[1..] == token;
    } else if |Split(Serialise(e), ':')| == 4 {
      FourSegments("v" + token, e.iv, e.tag, e.ciphertext, ':');
    }
  }

  /** Exactly which texts `parse` accepts, and as what: `v`, a token that reads as the positive version,
      and three colon-free parts. */
  lemma ParseExactly(s: string, e: Envelope)
    ensures Parse(s) == Some(e) <==>
              exists token: string :: Free(token, ':') && ReadsAs(token, e.version) && Printable(e)
                && s == "v" + token + ":" + e.iv + ":" + e.tag + ":" + e.ciphertext
  {
    hide Parse, WithVersionText, ParseInt, Printable, ReadsAs;
    if Parse(s) == Some(e) {
      ParsedHasVersionText(s);
      var token := Split(s, ':')[0][1..];
      ParseIntExactly(token, e.version);
      WrittenOut(token, e);
      assert Free(token, ':') && ReadsAs(token, e.version);
    }
    if token: string :| (Free(token, ':') && ReadsAs(token, e.version) && Printable(e)
                         && s == "v" + token + ":" + e.iv + ":" + e.tag + ":" + e.ciphertext) {
      ParseIntExactly(token, e.version);
      WrittenOut(token, e);
      VersionTextParses(token, e);
    }
  }

  /** A parsed text prints back to itself exactly when its version token is canonical: `v01`,
      `v 1`, `v+1` and `v1x` all parse as version 1. */
  lemma SerialiseOfParse(s: string)
    requires Parse(s).Some?
    ensures Split(s, ':')[0] != []
    ensures Serialise(Parse(s).value) == s <==> Canonical(Split(s, ':')[0][1..])
  {
    hide Split, Join, ParseInt, Print, Read, Parse;
    ParsedHasVersionText(s);
    var e, token := Parse(s).value, Split(s, ':')[0][1..];
    VersionTextSplits(token, e);
    PrintIntParses(e.version);
    VersionTextSplits(PrintInt(e.version), e);
    PrintIsCanonical(e.version);
    assert ("v" + token)[1..] == token;
    assert ("v" + PrintInt(e.version))[1..] == PrintInt(e.version);
    if Canonical(token) {
      NaturalParses(token);
      ReadThenPrint(token);
    }
  }

  // ---- The master-key cipher --------------------------------------------------------------------

  datatype Ciphertext = Ciphertext(text: string, version: int)

  function MasterEncrypt(p: Primitives, secrets: Secrets, text: string, draw: nat): Option<Ciphertext> {
    var e := GcmEncrypt(p, secrets, text, draw);
    if e.None? then None else Some(Ciphertext(Serialise(e.value), e.value.version))
  }

  function MasterDecrypt(p: Primitives, secrets: Secrets, stored: string): Option<string> {
    var e := Parse(stored);
    if e.None? then None else GcmDecrypt(p, secrets, e.value)
  }

  /** Whatever is stored reads back under every configuration that keeps its version, and the
      version beside it is the one inside it. */
  lemma MasterRoundTrip(p: Primitives, secrets: Secrets, later: Secrets, text: string, draw: nat)
    requires Lawful(p)
    requires secrets.currentVersion in secrets.versions ==>
               && secrets.currentVersion in later.versions
               && later.versions[secrets.currentVersion] == secrets.versions[secrets.currentVersion]
    ensures var c := MasterEncrypt(p, secrets, text, draw);
            && (c.Some? <==> CanEncrypt(p, secrets))
            && (c.Some? ==>
                  && MasterDecrypt(p, later, c.value.text) == Some(text)
                  && Parse(c.value.text).Some? && Parse(c.value.text).value.version == c.value.version
                  && c.value.version == secrets.currentVersion)
  {
    hide Split, Serialise, Parse, IsKeyText;
    if CanEncrypt(p, secrets) {
      GcmRoundTrip(p, secrets, later, text, draw);
      ParseOfSerialise(GcmEncrypt(p, secrets, text, draw).value);
    }
  }

  // ---- The laws are consistent -----------------------------------------------------------------

  // A cipher that hides nothing, with bytes printed in unary, obeys them all and can use a key.

  function Marks(n: nat): string {
    if n == 0 then "" else "A" + Marks(n - 1)
  }

  function Unary(b: Bytes): string {
    if b == [] then "" else Marks(b[0]) + ("B" + Unary(b[1..]))
  }

  /** Reads unary text, `n` marks of the present number being already read. */
  function FromUnary(text: string, n: nat): Bytes {
    if text == "" then []
    else if text[0] == 'B' then [n] + FromUnary(text[1..], 0)
    else FromUnary(text[1..], n + 1)
  }

  lemma {:induction false} MarksRead(k: nat, rest: string, n: nat)
    ensures FromUnary(Marks(k) + rest, n) == FromUnary(rest, n + k)
  {
    if k == 0 {
      assert Marks(0) + rest == rest;
    } else {
      var text := Marks(k) + rest;
      MarksRead(k - 1, rest, n + 1);
      assert text[0] == 'A' && text[1..] == Marks(k - 1) + rest;
    }
  }

  lemma {:induction false} UnaryReads(b: Bytes)
    ensures FromUnary(Unary(b), 0) == b && Free(Unary(b), ':')
  {
    hide Marks;
    if b != [] {
      var rest := "B" + Unary(b[1..]);
      UnaryReads(b[1..]);
      MarksRead(b[0], rest, 0);
      assert rest[1..] == Unary(b[1..]);
      MarksFree(b[0]);
    }
  }

  lemma {:induction false} MarksFree(k: nat)
    ensures Free(Marks(k), ':')
  {
    if k > 0 {
      MarksFree(k - 1);
    }
  }

  function Codes(text: string): Bytes {
    seq(|text|, i requires 0 <= i < |text| => text[i] as nat)
  }

  function CharOf(n: nat): char {
    if n < 0xD800 || 0xE000 <= n < 0x11_0000 then n as char else ' '
  }

  function Decoded(body: Bytes): string {
    seq(|body|, i requires 0 <= i < |body| => CharOf(body[i]))
  }

  function ZeroBytes(n: nat): Bytes {
    seq(n, _ => 0)
  }

  function Transparent(): Primitives {
    Primitives((_, _, text) => Sealed(ZeroBytes(TAG_BYTES), Codes(text)), (_, _, s: Sealed) => Some(Decoded(s.body)),
               Unary, text => FromUnary(text, 0), _ => ZeroBytes(IV_BYTES))
  }

  lemma TransparentIsLawful()
    ensures Lawful(Transparent())
  {
    hide FromUnary, Unary, Free;
    var p := Transparent();
    forall text ensures Decoded(Codes(text)) == text {
      assert forall i :: 0 <= i < |text| ==> Decoded(Codes(text))[i] == text[i];
    }
    forall b ensures p.fromText(p.toText(b)) == b && Free(p.toText(b), ':') {
      UnaryReads(b);
    }
  }

  lemma LawsAreConsistent()
    ensures Lawful(Transparent())
    ensures exists secrets :: CanEncrypt(Transparent(), secrets)
  {
    hide Lawful, FromUnary, Unary;
    TransparentIsLawful();
    var p := Transparent();
    var raw := Unary(ZeroBytes(KEY_BYTES));
    ZeroBytesAreKeyText(KEY_BYTES);
    UnaryReads(ZeroBytes(KEY_BYTES));
    assert PaddedBase64(raw, 0);
    assert CanEncrypt(p, Secrets(1, map[1 := raw]));
  }

  lemma {:induction false} ZeroBytesAreKeyText(n: nat)
    ensures |Unary(ZeroBytes(n))| == n && forall i :: 0 <= i < n ==> IsBase64(Unary(ZeroBytes(n))[i])
  {
    hide IsBase64, Unary;
    if n > 0 {
      ZeroBytesAreKeyText(n - 1);
      OneMoreZero(n);
    } else {
      NoZeros();
    }
  }

  lemma NoZeros()
    ensures Unary(ZeroBytes(0)) == ""
  {
  }

  lemma OneMoreZero(n: nat)
    requires n > 0
    ensures Unary(ZeroBytes(n)) == "B" + Unary(ZeroBytes(n - 1)) && IsBase64('B')
  {
    assert ZeroBytes(n)[1..] == ZeroBytes(n - 1);
    assert Marks(0) == "";
    assert "" + ("B" + Unary(ZeroBytes(n - 1))) == "B" + Unary(ZeroBytes(n - 1));
  }
}
