/** Column encryption for SSO tokens: the vault with its cached key and the column transformer. */
module ColumnVault {
  import opened Envelope
  import opened Text

  datatype Failure = NoKey | BadKey | Malformed | WrongVersion | BadLengths | BadTag

  datatype Result<+T> = Ok(value: T) | Failed(why: Failure)

  // ---- What the code computes ---------------------------------------------------------

  function ValidKey(p: Primitives, raw: string): Result<Bytes> {
    if raw == "" then Failed(NoKey)
    else if |p.fromText(raw)| != KEY_BYTES then Failed(BadKey)
    else Ok(p.fromText(raw))
  }

  /** The key in force: the cached one, whatever the environment says now. */
  function KeyFor(p: Primitives, cached: Option<Bytes>, raw: string): Result<Bytes> {
    if cached.Some? then Ok(cached.value) else ValidKey(p, raw)
  }

  function CacheAfter(p: Primitives, cached: Option<Bytes>, raw: string): Option<Bytes> {
    var key := KeyFor(p, cached, raw);
    if key.Ok? then Some(key.value) else cached
  }

  function SealText(p: Primitives, key: Bytes, text: string, draw: nat): string {
    var locked := p.lock(key, p.random(draw), text);
    Join(["v1", p.toText(p.random(draw)), p.toText(locked.tag), p.toText(locked.body)], ':')
  }

  predicate IsEnvelope(value: string) {
    "v1:" <= value
  }

  function VersionedParts(text: string): Result<seq<string>> {
    var parts := Split(text, ':');
    if |parts| != 4 then Failed(Malformed) else if parts[0] != "v1" then Failed(WrongVersion) else Ok(parts)
  }

  function OpenParts(p: Primitives, key: Bytes, parts: seq<string>): Result<string>
    requires |parts| == 4
  {
    var iv, tag := p.fromText(parts[1]), p.fromText(parts[2]);
    if |iv| != IV_BYTES || |tag| != TAG_BYTES then Failed(BadLengths)
    else
      var text := p.unlock(key, iv, Sealed(tag, p.fromText(parts[3])));
      if text.None? then Failed(BadTag) else Ok(text.value)
  }

  function OpenText(p: Primitives, cached: Option<Bytes>, raw: string, text: string): Result<string> {
    var parts := VersionedParts(text);
    if parts.Failed? then Failed(parts.why)
    else
      var key := KeyFor(p, cached, raw);
      if key.Failed? then Failed(key.why) else OpenParts(p, key.value, parts.value)
  }

  /** Entity to database. */
  function ToColumn(p: Primitives, cached: Option<Bytes>, raw: string, value: Option<string>, draw: nat): Result<Option<string>> {
    if value.None? then Ok(None)
    else
      var key := KeyFor(p, cached, raw);
      if key.Failed? then Failed(key.why) else Ok(Some(SealText(p, key.value, value.value, draw)))
  }

  /** Database to entity, with the legacy plaintext path. */
  function FromColumn(p: Primitives, cached: Option<Bytes>, raw: string, value: Option<string>): Result<Option<string>> {
    if value.None? then Ok(None)
    else if !IsEnvelope(value.value) then Ok(value)
    else
      var text := OpenText(p, cached, raw, value.value);
      if text.Failed? then Failed(text.why) else Ok(Some(text.value))
  }

  // ---- Properties -------------------------------------------------------------------------

  lemma SealedSplits(p: Primitives, key: Bytes, text: string, draw: nat)
    requires Lawful(p)
    ensures IsEnvelope(SealText(p, key, text, draw))
    ensures VersionedParts(SealText(p, key, text, draw)).Ok?
    ensures OpenParts(p, key, VersionedParts(SealText(p, key, text, draw)).value) == Ok(text)
  {
    hide Split, Join;
    var iv := p.random(draw);
    var locked := p.lock(key, iv, text);
    var parts := ["v1", p.toText(iv), p.toText(locked.tag), p.toText(locked.body)];
    assert forall i :: 0 <= i < |parts| ==> Free(parts[i], ':');
    SplitOfJoin(parts, ':');
    JoinedFour(parts[0], parts[1], parts[2], parts[3], ':');
    assert Sealed(p.fromText(parts[2]), p.fromText(parts[3])) == locked;
    assert p.unlock(key, iv, locked) == Some(text);
  }

  /** `from(to(x))` is `x` for every nullable string, as long as the same key is in force. */
  lemma FromOfTo(p: Primitives, cached: Option<Bytes>, raw: string, later: Option<Bytes>, laterRaw: string, value: Option<string>, draw: nat)
    requires Lawful(p) && KeyFor(p, later, laterRaw) == KeyFor(p, cached, raw)
    ensures var stored := ToColumn(p, cached, raw, value, draw);
            && (stored.Ok? <==> value.None? || KeyFor(p, cached, raw).Ok?)
            && (stored.Ok? ==> FromColumn(p, later, laterRaw, stored.value) == Ok(value))
            && (stored.Ok? && value.Some? ==> stored.value.Some? && IsEnvelope(stored.value.value))
  {
    hide VersionedParts, OpenParts, SealText, IsEnvelope;
    if value.Some? && KeyFor(p, cached, raw).Ok? {
      SealedSplits(p, KeyFor(p, cached, raw).value, value.value, draw);
    }
  }

  /** The cache after a series of calls made under those environment values. */
  function CacheRun(p: Primitives, cached: Option<Bytes>, raws: seq<string>): Option<Bytes>
    decreases |raws|
  {
    if raws == [] then cached else CacheRun(p, CacheAfter(p, cached, raws[0]), raws[1..])
  }

  lemma {:induction false} FirstKeySticks(p: Primitives, cached: Option<Bytes>, raws: seq<string>)
    ensures cached.Some? ==> CacheRun(p, cached, raws) == cached
    decreases |raws|
  {
    if raws != [] {
      FirstKeySticks(p, CacheAfter(p, cached, raws[0]), raws[1..]);
    }
  }

  /** Within a process a stored value reads back after any further calls, even when the
      environment variable has changed since. */
  lemma ReadsBackInTheSameProcess(p: Primitives, cached: Option<Bytes>, raw: string, text: string, draw: nat,
                                  between: seq<string>, laterRaw: string)
    requires Lawful(p) && KeyFor(p, cached, raw).Ok?
    ensures var stored := ToColumn(p, cached, raw, Some(text), draw);
            var later := CacheRun(p, CacheAfter(p, cached, raw), between);
            stored.Ok? && FromColumn(p, later, laterRaw, stored.value) == Ok(Some(text))
  {
    FirstKeySticks(p, CacheAfter(p, cached, raw), between);
    FromOfTo(p, cached, raw, CacheRun(p, CacheAfter(p, cached, raw), between), laterRaw, Some(text), draw);
  }

  /** Exactly what reading a column does: without the envelope prefix the value passes unchanged,
      no key needed; with it, it is read only as an envelope, so a legacy plaintext that happens to
      start with `v1:` fails unless it is one. */
  lemma LegacyPassesThrough(p: Primitives, cached: Option<Bytes>, raw: string, value: string)
    ensures !IsEnvelope(value) ==> FromColumn(p, cached, raw, Some(value)) == Ok(Some(value))
    ensures IsEnvelope(value) ==>
              (FromColumn(p, cached, raw, Some(value)).Ok? <==>
                 && |Split(value, ':')| == 4 && KeyFor(p, cached, raw).Ok?
                 && OpenParts(p, KeyFor(p, cached, raw).value, Split(value, ':')).Ok?)
  {
    hide OpenParts;
    if IsEnvelope(value) {
      FirstOccurrence(value, ':', 2);
      assert value[..2] == "v1";
    }
  }

  // ---- In plain terms -------------------------------------------------------------------------

  /** The key in force and what stays cached: a cached key is used whatever the environment says; without
      one the environment's text must be there and decode to 32 bytes, and is then cached. */
  lemma KeyExactly(p: Primitives, cached: Option<Bytes>, raw: string)
    ensures cached.Some? ==> KeyFor(p, cached, raw) == Ok(cached.value) && CacheAfter(p, cached, raw) == cached
    ensures cached.None? && raw == "" ==> KeyFor(p, cached, raw) == Failed(NoKey) && CacheAfter(p, cached, raw) == None
    ensures cached.None? && raw != "" && |p.fromText(raw)| != 32 ==>
              KeyFor(p, cached, raw) == Failed(BadKey) && CacheAfter(p, cached, raw) == None
    ensures cached.None? && raw != "" && |p.fromText(raw)| == 32 ==>
              KeyFor(p, cached, raw) == Ok(p.fromText(raw)) && CacheAfter(p, cached, raw) == Some(p.fromText(raw))
  {
  }

  /** The stored form: `v1`, the draw's nonce, the tag and the ciphertext under that nonce, colons between. */
  lemma StoredExactly(p: Primitives, cached: Option<Bytes>, raw: string, text: string, draw: nat)
    requires KeyFor(p, cached, raw).Ok?
    ensures var locked := p.lock(KeyFor(p, cached, raw).value, p.random(draw), text);
            ToColumn(p, cached, raw, Some(text), draw)
              == Ok(Some("v1:" + p.toText(p.random(draw)) + ":" + p.toText(locked.tag) + ":" + p.toText(locked.body)))
  {
    hide Join;
    var locked := p.lock(KeyFor(p, cached, raw).value, p.random(draw), text);
    var a, b, c := p.toText(p.random(draw)), p.toText(locked.tag), p.toText(locked.body);
    JoinedFour("v1", a, b, c, ':');
    assert "v1" + [':'] + (a + [':'] + (b + [':'] + c)) == "v1:" + a + ":" + b + ":" + c;
  }

  /** Four colon-free parts with colons between them. */
  predicate FourParts(text: string, a: string, b: string, c: string, d: string) {
    Free(a, ':') && Free(b, ':') && Free(c, ':') && Free(d, ':') && text == a + ":" + b + ":" + c + ":" + d
  }

  lemma FourPartsSplit(text: string, a: string, b: string, c: string, d: string)
    requires FourParts(text, a, b, c, d)
    ensures Split(text, ':') == [a, b, c, d]
  {
    hide Split, Join;
    var parts := [a, b, c, d];
    assert forall i :: 0 <= i < 4 ==> Free(parts[i], ':');
    SplitOfJoin(parts, ':');
    JoinedFour(a, b, c, d, ':');
    assert a + [':'] + (b + [':'] + (c + [':'] + d)) == a + ":" + b + ":" + c + ":" + d;
  }

  lemma ColonsAreParts(text: string)
    ensures |Split(text, ':')| == multiset(text)[':'] + 1
  {
    JoinOfSplit(text, ':');
    JoinCounts(Split(text, ':'), ':');
  }

  /** Opening, in the order of its tests: the number of parts, the version, the key, the lengths of nonce
      (12 bytes) and tag (16), and the cipher. */
  lemma OpenExactly(p: Primitives, cached: Option<Bytes>, raw: string, text: string, a: string, b: string, c: string, d: string)
    ensures multiset(text)[':'] != 3 ==> OpenText(p, cached, raw, text) == Failed(Malformed)
    ensures FourParts(text, a, b, c, d) ==>
              var iv, tag, out := p.fromText(b), p.fromText(c), OpenText(p, cached, raw, text);
              if a != "v1" then out == Failed(WrongVersion)
              else if KeyFor(p, cached, raw).Failed? then out == Failed(KeyFor(p, cached, raw).why)
              else if |iv| != 12 || |tag| != 16 then out == Failed(BadLengths)
              else
                var text' := p.unlock(KeyFor(p, cached, raw).value, iv, Sealed(tag, p.fromText(d)));
                out == if text'.None? then Failed(BadTag) else Ok(text'.value)
  {
    hide Split, KeyFor;
    ColonsAreParts(text);
    if FourParts(text, a, b, c, d) {
      FourPartsSplit(text, a, b, c, d);
    }
  }

  /** Reading a column: null stays null, a text without the `v1:` prefix passes, any other is opened. */
  lemma ReadExactly(p: Primitives, cached: Option<Bytes>, raw: string, value: Option<string>)
    ensures value.None? ==> FromColumn(p, cached, raw, value) == Ok(None)
    ensures value.Some? && !(|value.value| >= 3 && value.value[..3] == "v1:") ==> FromColumn(p, cached, raw, value) == Ok(value)
    ensures value.Some? && |value.value| >= 3 && value.value[..3] == "v1:" ==>
              FromColumn(p, cached, raw, value)
                == match OpenText(p, cached, raw, value.value) case Ok(text) => Ok(Some(text)) case Failed(why) => Failed(why)
  {
    hide OpenText;
  }

  // ---- The module-level state ----------------------------------------------------------------

  class CryptoVault {
    const p: Primitives
    var cachedKey: Option<Bytes>
    var draws: nat

    constructor (primitives: Primitives)
      ensures p == primitives && cachedKey == None && draws == 0
    {
      p, cachedKey, draws := primitives, None, 0;
    }

    method LoadKey(raw: string) returns (key: Result<Bytes>)
      modifies this`cachedKey
      ensures key == KeyFor(p, old(cachedKey), raw)
      ensures cachedKey == CacheAfter(p, old(cachedKey), raw)
    {
      if cachedKey.Some? {
        return Ok(cachedKey.value);
      }
      if raw == "" {
        return Failed(NoKey);
      }
      var buf := p.fromText(raw);
      if |buf| != KEY_BYTES {
        return Failed(BadKey);
      }
      cachedKey := Some(buf);
      key := Ok(buf);
    }

    method Encrypt(text: string, raw: string) returns (r: Result<string>)
      modifies this
      ensures r == (match KeyFor(p, old(cachedKey), raw)
                    case Ok(key) => Ok(SealText(p, key, text, old(draws)))
                    case Failed(why) => Failed(why))
      ensures cachedKey == CacheAfter(p, old(cachedKey), raw)
      ensures draws == old(draws) + if r.Ok? then 1 else 0
    {
      var key := LoadKey(raw);
      if key.Failed? {
        return Failed(key.why);
      }
      var iv := p.random(draws);
      draws := draws + 1;
      var locked := p.lock(key.value, iv, text);
      r := Ok(Join(["v1", p.toText(iv), p.toText(locked.tag), p.toText(locked.body)], ':'));
    }

    /** A text that is not a version-1 envelope is refused before any key is loaded. */
    method Decrypt(envelope: string, raw: string) returns (r: Result<string>)
      modifies this`cachedKey
      ensures r == OpenText(p, old(cachedKey), raw, envelope)
      ensures cachedKey == if VersionedParts(envelope).Ok? then CacheAfter(p, old(cachedKey), raw) else old(cachedKey)
    {
      var parts := Split(envelope, ':');
      if |parts| != 4 {
        return Failed(Malformed);
      }
      if parts[0] != "v1" {
        return Failed(WrongVersion);
      }
      var key := LoadKey(raw);
      if key.Failed? {
        return Failed(key.why);
      }
      r := OpenParts(p, key.value, parts);
    }

    method To(value: Option<string>, raw: string) returns (r: Result<Option<string>>)
      modifies this
      ensures r == ToColumn(p, old(cachedKey), raw, value, old(draws))
      ensures cachedKey == if value.Some? then CacheAfter(p, old(cachedKey), raw) else old(cachedKey)
    {
      if value.None? {
        return Ok(None);
      }
      var envelope := Encrypt(value.value, raw);
      r := if envelope.Ok? then Ok(Some(envelope.value)) else Failed(envelope.why);
    }

    method From(value: Option<string>, raw: string) returns (r: Result<Option<string>>)
      modifies this`cachedKey
      ensures r == FromColumn(p, old(cachedKey), raw, value)
      ensures cachedKey == if value.Some? && IsEnvelope(value.value) && VersionedParts(value.value).Ok?
                           then CacheAfter(p, old(cachedKey), raw) else old(cachedKey)
    {
      if value.None? || !IsEnvelope(value.value) {
        return Ok(value);
      }
      var text := Decrypt(value.value, raw);
      r := if text.Ok? then Ok(Some(text.value)) else Failed(text.why);
    }
  }
}
