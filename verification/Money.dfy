/** Fixed-point money over whole cents (src/common/utils/money.ts) and the
    task fee split computed by the database's generated columns. */
module MoneyMath {
  import opened Arithmetic
  import opened Text

  const MONEY_PLACES: nat := 2
  const RATE_PLACES: nat := 4
  const RATE_SCALE: int := 10000

  // ---- Reading and printing ---------------------------------------------------

  /** Reads `-?digits(.digits{1,places})?` scaled by 10^places; None is the thrown error. */
  function ParseFixed(text: string, places: nat): Option<int> {
    var s := Trim(text);
    var neg := s != [] && s[0] == '-';
    var magnitude := ParseUnsigned(if neg then s[1..] else s, places);
    if magnitude.None? then None else Some(Signed(neg, magnitude.value))
  }

  function ParseUnsigned(body: string, places: nat): Option<nat> {
    var dot := IndexOf(body, '.');
    var whole := body[..dot];
    var frac := if dot == |body| then "" else body[dot + 1..];
    if |whole| == 0 || !AllDigits(whole) then None
    else if !AllDigits(frac) || |frac| > places || (dot < |body| && |frac| == 0) then None
    else Some(Read(whole + PadRight(frac, places)))
  }

  function Signed(neg: bool, magnitude: int): int {
    if neg then -magnitude else magnitude
  }

  function PadRight(frac: string, places: nat): (r: string)
    requires AllDigits(frac) && |frac| <= places
    ensures AllDigits(r)
  {
    (frac + Zeros(places))[..places]
  }

  function PadStart(s: string, width: nat): (r: string)
    ensures |r| >= width
  {
    if |s| < width then Zeros(width - |s|) + s else s
  }

  function ToFixedString(minor: int): string {
    var padded := PadStart(Print(Abs(minor)), MONEY_PLACES + 1);
    var cut := |padded| - MONEY_PLACES;
    (if minor < 0 then "-" else "") + (padded[..cut] + ("." + padded[cut..]))
  }

  function ToMinorUnits(text: string): Option<int> {
    ParseFixed(text, MONEY_PLACES)
  }

  function Unsigned(whole: string, frac: string): string {
    whole + (if frac == "" then "" else "." + frac)
  }

  /** The accepted texts, as the pattern writes them. */
  ghost predicate Matches(s: string, neg: bool, whole: string, frac: string, places: nat) {
    && |whole| > 0 && AllDigits(whole) && AllDigits(frac) && |frac| <= places
    && s == (if neg then "-" else "") + Unsigned(whole, frac)
  }

  lemma DigitsAreDotFree(s: string)
    requires AllDigits(s)
    ensures Free(s, '.')
  {
  }

  lemma MatchTrims(s: string, neg: bool, whole: string, frac: string, places: nat)
    requires Matches(s, neg, whole, frac, places)
    ensures Trim(s) == s
  {
    var last := if frac == "" then whole[|whole| - 1] else frac[|frac| - 1];
    assert IsDigit(last) && s[|s| - 1] == last;
    assert s[0] == if neg then '-' else whole[0];
    TrimIsIdentity(s);
  }

  /** The digits left and right of the point; None when the text is not a plain numeral. */
  lemma BodySplits(body: string, whole: string, frac: string)
    requires AllDigits(whole) && body == whole + (if frac == "" then "" else "." + frac)
    ensures var dot := IndexOf(body, '.');
            && body[..dot] == whole
            && (dot == |body| <==> frac == "")
            && (frac != "" ==> dot + 1 <= |body| && body[dot + 1..] == frac)
  {
    DigitsAreDotFree(whole);
    if frac == "" {
      assert body == whole;
      IndexOfAbsent(whole, '.');
    } else {
      assert body == whole + ['.'] + frac;
      IndexOfUnique(whole, '.', frac);
    }
  }

  lemma ParseUnsignedAccepts(whole: string, frac: string, places: nat)
    requires |whole| > 0 && AllDigits(whole) && AllDigits(frac) && |frac| <= places
    ensures ParseUnsigned(Unsigned(whole, frac), places) == Some(Spelled(whole, frac, places))
  {
    BodySplits(Unsigned(whole, frac), whole, frac);
  }

  /** The scaled value the digits spell: Read(whole) units plus the padded fraction. */
  function Spelled(whole: string, frac: string, places: nat): nat
    requires AllDigits(whole) && AllDigits(frac) && |frac| <= places
  {
    Read(whole + PadRight(frac, places))
  }

  lemma SignSplits(neg: bool, body: string)
    requires body != [] && (!neg ==> body[0] != '-')
    ensures var s := (if neg then "-" else "") + body;
            && s != [] && (s[0] == '-' <==> neg)
            && (if s[0] == '-' then s[1..] else s) == body
  {
  }

  lemma SignedBody(s: string, neg: bool, body: string, places: nat)
    requires body != [] && (!neg ==> body[0] != '-')
    requires s == (if neg then "-" else "") + body && Trim(s) == s
    requires ParseUnsigned(body, places).Some?
    ensures ParseFixed(s, places) == Some(Signed(neg, ParseUnsigned(body, places).value))
  {
    SignSplits(neg, body);
  }

  /** Everything the pattern matches is read, and with the value it spells. */
  lemma ParseAcceptsMatches(s: string, neg: bool, whole: string, frac: string, places: nat)
    requires Matches(s, neg, whole, frac, places)
    ensures ParseFixed(s, places) == Some(Signed(neg, Spelled(whole, frac, places)))
  {
    MatchTrims(s, neg, whole, frac, places);
    ParseUnsignedAccepts(whole, frac, places);
    var body := Unsigned(whole, frac);
    assert body[0] == whole[0];
    SignedBody(s, neg, body, places);
  }

  /** The spelled value is decimal: Read(whole) whole units and frac in tenths, hundredths... */
  lemma SpelledIsDecimal(whole: string, frac: string, places: nat)
    requires AllDigits(whole) && AllDigits(frac) && |frac| <= places
    ensures Spelled(whole, frac, places)
         == Read(whole) * Pow10(places) + Read(frac) * Pow10(places - |frac|)
  {
    var zeros := Zeros(places - |frac|);
    assert PadRight(frac, places) == frac + zeros;
    ReadConcat(frac, zeros);
    ReadZeros(places - |frac|);
    ReadConcat(whole, frac + zeros);
  }

  lemma ParsedUnsignedMatches(body: string, places: nat) returns (whole: string, frac: string)
    requires ParseUnsigned(body, places).Some?
    ensures |whole| > 0 && AllDigits(whole) && AllDigits(frac) && |frac| <= places
    ensures body == Unsigned(whole, frac)
  {
    hide Read;
    var dot := IndexOf(body, '.');
    whole := body[..dot];
    frac := if dot == |body| then "" else body[dot + 1..];
    if dot < |body| {
      assert body == body[..dot] + [body[dot]] + body[dot + 1..];
    }
  }

  lemma ParsedTextMatches(text: string, places: nat)
    requires ParseFixed(text, places).Some?
    ensures exists neg, whole, frac :: Matches(Trim(text), neg, whole, frac, places)
  {
    var s := Trim(text);
    var neg := s != [] && s[0] == '-';
    var body := if neg then s[1..] else s;
    var whole, frac := ParsedUnsignedMatches(body, places);
    assert s == (if neg then "-" else "") + body;
    assert Matches(s, neg, whole, frac, places);
  }

  /** The money reader accepts exactly the pattern (after trimming) and nothing else. */
  lemma ParseExactlyThePattern(text: string, places: nat)
    ensures ParseFixed(text, places).Some?
       <==> exists neg, whole, frac :: Matches(Trim(text), neg, whole, frac, places)
  {
    if ParseFixed(text, places).Some? {
      ParsedTextMatches(text, places);
    }
    if neg, whole, frac :| Matches(Trim(text), neg, whole, frac, places) {
      ParseAcceptsMatches(Trim(text), neg, whole, frac, places);
      MatchTrims(Trim(text), neg, whole, frac, places);
    }
  }

  lemma PadStartReads(n: nat, width: nat)
    ensures var padded := PadStart(Print(n), width);
            |padded| >= width && AllDigits(padded) && Read(padded) == n
  {
    hide Read, Print, Pow10;
    PrintThenRead(n);
    var digits := Print(n);
    if |digits| < width {
      ReadZeros(width - |digits|);
      ReadConcat(Zeros(width - |digits|), digits);
    }
  }

  lemma FixedStringDigits(minor: int) returns (whole: string, frac: string)
    ensures |whole| > 0 && AllDigits(whole) && AllDigits(frac) && |frac| == 2
    ensures ToFixedString(minor) == (if minor < 0 then "-" else "") + Unsigned(whole, frac)
    ensures Read(whole + frac) == Abs(minor)
    ensures var padded := PadStart(Print(Abs(minor)), 3); whole == padded[..|padded| - 2]
  {
    PadStartReads(Abs(minor), 3);
    var padded := PadStart(Print(Abs(minor)), 3);
    whole, frac := padded[..|padded| - 2], padded[|padded| - 2..];
    assert whole + frac == padded;
    assert Unsigned(whole, frac) == whole + ("." + frac);
  }

  lemma FullFractionSpells(whole: string, frac: string, places: nat)
    requires AllDigits(whole) && AllDigits(frac) && |frac| == places
    ensures AllDigits(whole + frac) && Spelled(whole, frac, places) == Read(whole + frac)
  {
    assert PadRight(frac, places) == frac;
  }

  /** Printing an amount and reading it back is the identity, for every amount. */
  lemma MoneyRoundTrip(minor: int)
    ensures ToMinorUnits(ToFixedString(minor)) == Some(minor)
  {
    var whole, frac := FixedStringDigits(minor);
    assert Matches(ToFixedString(minor), minor < 0, whole, frac, 2) by {
      assert frac != "";
    }
    ParseAcceptsMatches(ToFixedString(minor), minor < 0, whole, frac, 2);
    FullFractionSpells(whole, frac, 2);
  }

  /** A plain numeral within blanks: an optional minus, digits, and at most `places` more after a point. */
  ghost predicate IsNumeral(text: string, neg: bool, whole: string, frac: string, places: nat) {
    && whole != "" && AllDigits(whole) && AllDigits(frac) && |frac| <= places
    && Trims(text, (if neg then "-" else "") + whole + (if frac == "" then "" else "." + frac))
  }

  lemma NumeralExactly(text: string, places: nat, v: int)
    ensures ParseFixed(text, places) == Some(v) <==>
              exists neg, whole, frac :: IsNumeral(text, neg, whole, frac, places)
                && (if neg then -v else v) == Read(whole) * Pow10(places) + Read(frac) * Pow10(places - |frac|)
  {
    hide ParseFixed, Read, Pow10, Trim, Spelled, Trims;
    if ParseFixed(text, places) == Some(v) {
      ParsedTextMatches(text, places);
      var neg, whole, frac :| Matches(Trim(text), neg, whole, frac, places);
      MatchIsNumeral(text, neg, whole, frac, places);
      TrimmedParses(text, neg, whole, frac, places);
      assert IsNumeral(text, neg, whole, frac, places);
    }
    if neg, whole, frac :| (IsNumeral(text, neg, whole, frac, places)
                            && (if neg then -v else v) == Read(whole) * Pow10(places) + Read(frac) * Pow10(places - |frac|)) {
      MatchIsNumeral(text, neg, whole, frac, places);
      TrimmedParses(text, neg, whole, frac, places);
    }
  }

  lemma MatchIsNumeral(text: string, neg: bool, whole: string, frac: string, places: nat)
    ensures Matches(Trim(text), neg, whole, frac, places) <==> IsNumeral(text, neg, whole, frac, places)
  {
    hide Trim, Trims;
    var s := (if neg then "-" else "") + whole + (if frac == "" then "" else "." + frac);
    assert (if neg then "-" else "") + Unsigned(whole, frac) == s;
    TrimExactly(text, s);
  }

  lemma TrimmedParses(text: string, neg: bool, whole: string, frac: string, places: nat)
    requires Matches(Trim(text), neg, whole, frac, places)
    ensures ParseFixed(text, places).Some?
    ensures var v := ParseFixed(text, places).value;
            (if neg then -v else v) == Read(whole) * Pow10(places) + Read(frac) * Pow10(places - |frac|)
  {
    hide Read, Pow10, Spelled;
    ParseAcceptsMatches(Trim(text), neg, whole, frac, places);
    MatchTrims(Trim(text), neg, whole, frac, places);
    SpelledIsDecimal(whole, frac, places);
    assert ParseFixed(text, places) == ParseFixed(Trim(text), places);
  }

  /** Cents written as the fraction of an amount: one digit is tenths, two are hundredths. */
  function Cents(frac: string): nat
    requires AllDigits(frac)
  {
    if |frac| == 1 then 10 * Read(frac) else Read(frac)
  }

  lemma Hundreds(frac: string)
    requires AllDigits(frac) && |frac| <= 2
    ensures Pow10(2) == 100 && Read(frac) * Pow10(2 - |frac|) == Cents(frac)
  {
    assert Pow10(0) == 1 && Pow10(1) == 10 && Pow10(2) == 10 * Pow10(1);
    if frac == "" {
      assert Read(frac) == 0;
    }
  }

  /** What text is an amount, and of how many cents: blanks around a minus, dollars and at most two
      digits after the point. */
  lemma AmountExactly(text: string, minor: int)
    ensures ToMinorUnits(text) == Some(minor) <==>
              exists neg, whole, frac :: IsNumeral(text, neg, whole, frac, 2) && (if neg then -minor else minor) == 100 * Read(whole) + Cents(frac)
  {
    hide ParseFixed, Read, Pow10, Trims;
    NumeralExactly(text, 2, minor);
    forall neg, whole, frac | IsNumeral(text, neg, whole, frac, 2)
      ensures Read(whole) * Pow10(2) + Read(frac) * Pow10(2 - |frac|) == 100 * Read(whole) + Cents(frac)
    {
      Hundreds(frac);
    }
  }

  /** An amount prints as an optional minus, the dollars without needless zeros, a point and two digits. */
  lemma PrintedExactly(minor: int) returns (whole: string, frac: string)
    ensures Canonical(whole) && AllDigits(frac) && |frac| == 2
    ensures ToFixedString(minor) == (if minor < 0 then "-" else "") + whole + "." + frac
    ensures 100 * Read(whole) + Read(frac) == if minor < 0 then -minor else minor
  {
    hide Read, Print, Canonical;
    whole, frac := FixedStringDigits(minor);
    var padded := PadStart(Print(Abs(minor)), 3);
    ReadConcat(whole, frac);
    Hundreds(frac);
    WholeIsCanonical(Abs(minor), whole);
    assert (if minor < 0 then "-" else "") + Unsigned(whole, frac) == (if minor < 0 then "-" else "") + whole + "." + frac;
  }

  lemma WholeIsCanonical(n: nat, whole: string)
    requires var padded := PadStart(Print(n), 3); whole == padded[..|padded| - 2]
    ensures Canonical(whole)
  {
    hide Read;
    PrintThenRead(n);
    PrintIsCanonical(n);
    var digits := Print(n);
    if |digits| < 3 {
      assert whole == "0";
    } else {
      assert whole[0] == digits[0];
    }
  }

  // ---- Rounding division --------------------------------------------------------

  function Abs(x: int): nat {
    if x < 0 then -x else x
  }

  /** BigInt division truncates toward zero. */
  function TruncDiv(a: int, b: int): int
    requires b != 0
  {
    var q := Abs(a) / Abs(b);
    if (a < 0) != (b < 0) then -q else q
  }

  function DivRound(numerator: int, denominator: int): int
    requires denominator != 0
  {
    var half := TruncDiv(denominator, 2);
    if numerator >= 0 then TruncDiv(numerator + half, denominator)
    else -TruncDiv(-numerator + half, denominator)
  }

  /** `q` is `n / d` rounded to the nearest integer, ties away from zero. */
  ghost predicate NearestAway(n: int, d: int, q: int)
    requires d != 0
  {
    && 2 * Abs(n - q * d) <= Abs(d)
    && (2 * Abs(n - q * d) == Abs(d) ==> Abs(q * d) > Abs(n))
  }

  lemma NearestAwayMirrors(n: int, d: int, q: int)
    requires d != 0
    ensures NearestAway(n, d, q) <==> NearestAway(-n, d, -q)
    ensures NearestAway(n, d, q) <==> NearestAway(n, -d, -q)
  {
    assert (-q) * d == -(q * d) && (-q) * (-d) == q * d;
  }

  /** Only one integer can be the nearest one, so `NearestAway` defines the rounding. */
  lemma NearestAwayUnique(n: int, d: int, p: int, q: int)
    requires d > 0 && NearestAway(n, d, p) && NearestAway(n, d, q)
    ensures p == q
  {
    if p < q {
      NearestOrdered(n, d, p, q);
    } else if q < p {
      NearestOrdered(n, d, q, p);
    }
  }

  lemma NearestOrdered(n: int, d: int, p: int, q: int)
    requires d > 0 && NearestAway(n, d, p) && NearestAway(n, d, q)
    ensures p >= q
  {
    if p < q {
      ScaledGap(d, p, q);
      MultipleApart(p, d);
      TieIsOneSided(n, d, p * d, q * d);
    }
  }

  lemma MultipleApart(p: int, d: int)
    requires d > 0
    ensures p * d >= 0 || p * d <= -d
  {
    if p >= 0 {
      assert p * d >= 0;
    } else {
      ScaledGap(d, p, 0);
    }
  }

  lemma TieIsOneSided(n: int, d: int, low: int, high: int)
    requires d > 0 && high >= low + d && (low >= 0 || low <= -d)
    requires 2 * Abs(n - low) <= d && (2 * Abs(n - low) == d ==> Abs(low) > Abs(n))
    ensures !(2 * Abs(n - high) <= d && (2 * Abs(n - high) == d ==> Abs(high) > Abs(n)))
  {
  }

  lemma FloorBounds(a: nat, d: int) returns (q: int)
    requires d > 0
    ensures q == a / d && q >= 0 && q * d <= a < q * d + d
  {
    q := a / d;
    assert a == d * (a / d) + a % d;
  }

  lemma DivRoundMagnitude(n: int, d: int)
    requires d > 0
    ensures DivRound(n, d) == Signed(n < 0, (Abs(n) + d / 2) / d)
  {
    assert TruncDiv(d, 2) == d / 2;
  }

  lemma RoundedMagnitude(a: nat, d: int)
    requires d > 0
    ensures NearestAway(a, d, (a + d / 2) / d)
  {
    var q := FloorBounds(a + d / 2, d);
    var m := q * d;
    assert 0 <= m by { assert q >= 0 && d > 0; }
    assert 2 * Abs(a - m) <= d;
    assert 2 * Abs(a - m) == d ==> m > a;
  }

  /** `divRound` with a positive denominator is the nearest integer, ties away from zero. */
  lemma DivRoundNearest(n: int, d: int)
    requires d > 0
    ensures NearestAway(n, d, DivRound(n, d))
  {
    DivRoundMagnitude(n, d);
    RoundedMagnitude(Abs(n), d);
    NearestAwayMirrors(Abs(n), d, (Abs(n) + d / 2) / d);
  }

  /** With a negative denominator `divRound` rounds to the nearest only for these magnitudes. */
  ghost predicate NegativeDivisorIsSafe(n: int, d: int)
    requires d < 0
  {
    var e := -d;
    Abs(n) < e / 2 || (e % 2 == 1 && Abs(n) % e == e / 2)
  }

  lemma NearestModulo(a: nat, e: int, q: nat, r: nat)
    requires e > 0 && a == q * e + r && r < e
    ensures NearestAway(a, e, q) <==> 2 * r < e
    ensures NearestAway(a, e, q + 1) <==> 2 * r >= e
  {
    assert (q + 1) * e == q * e + e;
    assert q * e >= 0;
  }

  lemma NegativeMagnitude(n: int, d: int)
    requires d < 0
    ensures DivRound(n, d) == Signed(n < 0, TruncDiv(Abs(n) + TruncDiv(d, 2), d))
    ensures TruncDiv(d, 2) == -((-d) / 2)
  {
  }

  /** The magnitude `divRound` computes for a negative denominator -e: it subtracts the half. */
  lemma NegativeQuotient(a: nat, e: int)
    requires e > 0
    ensures var q, r, h := a / e, a % e, e / 2;
            TruncDiv(a - h, -e) == if a < h then 0 else if r >= h then -q else -(q - 1)
  {
    var q, r, h := a / e, a % e, e / 2;
    assert a == q * e + r by { assert a == e * q + r; }
    if a < h {
      ModularShift(h - a, e, 0, h - a);
    } else if r >= h {
      ModularShift(a - h, e, q, r - h);
    } else {
      assert (q - 1) * e == q * e - e;
      ModularShift(a - h, e, q - 1, r - h + e);
    }
  }

  lemma NegativeQuotientNearest(a: nat, e: int)
    requires e > 0
    ensures NearestAway(a, e, -TruncDiv(a - e / 2, -e))
       <==> a < e / 2 || (e % 2 == 1 && a % e == e / 2)
  {
    hide NearestAway, TruncDiv;
    var q, r, h := a / e, a % e, e / 2;
    assert a == q * e + r by { assert a == e * q + r; }
    NegativeQuotient(a, e);
    if a < h {
      ModularShift(a, e, 0, a);
      NearestModulo(a, e, 0, a);
    } else if r >= h {
      NearestModulo(a, e, q, r);
    } else {
      assert q == 0 ==> q * e == 0;
      NotNearestBelow(a, e, q, r);
    }
  }

  /** Exactly when `divInteger` with a negative divisor still rounds as documented. */
  lemma DivRoundNegativeExact(n: int, d: int)
    requires d < 0
    ensures NearestAway(n, d, DivRound(n, d)) <==> NegativeDivisorIsSafe(n, d)
  {
    var a, e := Abs(n), -d;
    var got := TruncDiv(a - e / 2, d);
    NegativeMagnitude(n, d);
    NegativeQuotientNearest(a, e);
    NearestAwayMirrors(a, e, -got);
    NearestAwayMirrors(a, d, got);
  }

  /** Four divided by minus two comes out as minus one. */
  lemma FourByMinusTwo()
    ensures DivRound(4, -2) == -1 && !NearestAway(4, -2, -1) && NearestAway(4, -2, -2)
    ensures !NegativeDivisorIsSafe(4, -2)
  {
    DivRoundNegativeExact(4, -2);
  }

  lemma NotNearestBelow(a: nat, e: int, q: int, r: nat)
    requires e > 0 && q >= 1 && a == q * e + r && r < e
    ensures !NearestAway(a, e, q - 1)
  {
    assert (q - 1) * e == q * e - e;
  }

  // ---- Money's rounding operations -----------------------------------------------

  function MulRateMinor(minor: int, rateMinor: int): int {
    DivRound(minor * rateMinor, RATE_SCALE)
  }

  function MulRate(minor: int, rate: string): Option<int> {
    var parsed := ParseFixed(rate, RATE_PLACES);
    if parsed.None? then None else Some(MulRateMinor(minor, parsed.value))
  }

  function DivInteger(minor: int, divisor: int): Option<int> {
    if divisor == 0 then None else Some(DivRound(minor, divisor))
  }

  lemma DivRoundOdd(n: int, d: int)
    requires d > 0
    ensures DivRound(-n, d) == -DivRound(n, d)
  {
    DivRoundNearest(n, d);
    DivRoundNearest(-n, d);
    NearestAwayMirrors(n, d, DivRound(n, d));
    NearestAwayUnique(-n, d, DivRound(-n, d), -DivRound(n, d));
  }

  lemma DivRoundMonotone(m: int, n: int, d: int)
    requires d > 0 && m <= n
    ensures DivRound(m, d) <= DivRound(n, d)
  {
    DivRoundNearest(m, d);
    DivRoundNearest(n, d);
    if DivRound(n, d) < DivRound(m, d) {
      ScaledGap(d, DivRound(n, d), DivRound(m, d));
      assert false;
    }
  }

  /** `divInteger` rejects exactly zero and, for a positive divisor, rounds to the nearest
      cent, is odd and keeps the order of amounts. */
  lemma DivIntegerNearest(m: int, n: int, divisor: int)
    requires divisor > 0 && m <= n
    ensures DivInteger(m, divisor).Some? && DivInteger(n, divisor).Some?
    ensures NearestAway(m, divisor, DivInteger(m, divisor).value)
    ensures DivInteger(-m, divisor) == Some(-DivInteger(m, divisor).value)
    ensures DivInteger(m, divisor).value <= DivInteger(n, divisor).value
  {
    DivRoundNearest(m, divisor);
    DivRoundOdd(m, divisor);
    DivRoundMonotone(m, n, divisor);
  }

  /** `divInteger` fails exactly for zero; what it returns otherwise is the nearest cent exactly for a
      positive divisor and for the safe magnitudes of a negative one. */
  lemma DivIntegerExactly(minor: int, divisor: int)
    ensures DivInteger(minor, divisor) == None <==> divisor == 0
    ensures divisor != 0 ==>
              (NearestAway(minor, divisor, DivInteger(minor, divisor).value) <==> divisor > 0 || NegativeDivisorIsSafe(minor, divisor))
  {
    if divisor > 0 {
      DivRoundNearest(minor, divisor);
    } else if divisor < 0 {
      DivRoundNegativeExact(minor, divisor);
    }
  }

  /** `mulRate` gives the nearest cent to the exact product, ties away from zero, and is odd. */
  lemma MulRateNearest(minor: int, rate: int)
    ensures NearestAway(minor * rate, 10000, MulRateMinor(minor, rate))
    ensures MulRateMinor(-minor, rate) == -MulRateMinor(minor, rate)
  {
    DivRoundNearest(minor * rate, RATE_SCALE);
    DivRoundOdd(minor * rate, RATE_SCALE);
    assert (-minor) * rate == -(minor * rate);
  }

  /** A non-negative rate never reverses the order of two amounts. */
  lemma MulRateMonotone(m: int, n: int, rate: int)
    requires m <= n && rate >= 0
    ensures MulRateMinor(m, rate) <= MulRateMinor(n, rate)
  {
    assert m * rate <= n * rate;
    DivRoundMonotone(m * rate, n * rate, RATE_SCALE);
  }

  function Sum(xs: seq<int>): int {
    if xs == [] then 0 else Sum(xs[..|xs| - 1]) + xs[|xs| - 1]
  }

  predicate AllParse(values: seq<string>) {
    forall i :: 0 <= i < |values| ==> ToMinorUnits(values[i]).Some?
  }

  function MinorUnits(values: seq<string>): seq<int>
    requires AllParse(values)
  {
    seq(|values|, i requires 0 <= i < |values| => ToMinorUnits(values[i]).value)
  }

  lemma SumStep(values: seq<string>, k: nat)
    requires k < |values| && AllParse(values[..k]) && ToMinorUnits(values[k]).Some?
    ensures AllParse(values[..k + 1])
    ensures Sum(MinorUnits(values[..k + 1])) == Sum(MinorUnits(values[..k])) + ToMinorUnits(values[k]).value
  {
    hide ToMinorUnits;
    var front, all := values[..k], values[..k + 1];
    assert all == front + [values[k]];
    forall i | 0 <= i < |all| ensures ToMinorUnits(all[i]).Some? {
      assert i < k ==> all[i] == front[i];
    }
    assert MinorUnits(all)[..k] == MinorUnits(front);
  }

  /** `Money.sum`: the left fold of `add` over the parsed values; one bad value throws. */
  method SumMoney(values: seq<string>) returns (total: Option<int>)
    ensures total.Some? <==> AllParse(values)
    ensures total.Some? ==> total.value == Sum(MinorUnits(values))
  {
    var acc := 0;
    for k := 0 to |values|
      invariant AllParse(values[..k]) && acc == Sum(MinorUnits(values[..k]))
    {
      var parsed := ToMinorUnits(values[k]);
      if parsed.None? {
        return None;
      }
      SumStep(values, k);
      acc := acc + parsed.value;
    }
    assert values[..|values|] == values;
    return Some(acc);
  }

  function RoundEach(xs: seq<int>, d: int): (ys: seq<int>)
    requires d > 0
    ensures |ys| == |xs|
  {
    seq(|xs|, i requires 0 <= i < |xs| => DivRound(xs[i], d))
  }

  lemma {:induction false} LineErrors(xs: seq<int>, d: int)
    requires d > 0
    ensures 2 * Abs(Sum(xs) - Sum(RoundEach(xs, d)) * d) <= |xs| * d
  {
    if xs != [] {
      var front, last := xs[..|xs| - 1], xs[|xs| - 1];
      LineErrors(front, d);
      DivRoundNearest(last, d);
      assert RoundEach(xs, d)[..|xs| - 1] == RoundEach(front, d);
      Distributes(Sum(RoundEach(front, d)), DivRound(last, d), d);
      Distributes(|front|, 1, d);
    }
  }

  lemma Distributes(a: int, b: int, d: int)
    ensures (a + b) * d == a * d + b * d
  {
  }

  lemma BoundedMultiple(gap: int, bound: nat, d: int)
    requires d > 0 && 2 * Abs(gap * d) <= bound * d
    ensures 2 * Abs(gap) <= bound
  {
    var g := 2 * Abs(gap);
    assert g * d == 2 * Abs(gap * d) by {
      assert (-gap) * d == -(gap * d);
      Distributes(Abs(gap), Abs(gap), d);
      MultipleApart(gap, d);
    }
    if g > bound {
      ScaledGap(d, bound, g);
    }
  }

  lemma DriftBound(x: int, lines: int, total: int, n: nat, d: int)
    requires d > 0
    requires 2 * Abs(x - lines * d) <= n * d && 2 * Abs(x - total * d) <= d
    ensures 2 * Abs(lines - total) <= n + 1
  {
    assert (lines - total) * d == lines * d - total * d;
    assert (n + 1) * d == n * d + d;
    BoundedMultiple(lines - total, n + 1, d);
  }

  /** Rounding n lines separately drifts from rounding their total by at most (n + 1) / 2 cents. */
  lemma LineRoundingDrift(xs: seq<int>, d: int)
    requires d > 0
    ensures 2 * Abs(Sum(RoundEach(xs, d)) - DivRound(Sum(xs), d)) <= |xs| + 1
  {
    hide DivRound, Sum, RoundEach;
    LineErrors(xs, d);
    DivRoundNearest(Sum(xs), d);
    DriftBound(Sum(xs), Sum(RoundEach(xs, d)), DivRound(Sum(xs), d), |xs|, d);
  }

  // ---- The generated task columns ---------------------------------------------------

  /** numeric ROUND(x, 2) on a value given in ten-thousandths of a cent: half away from zero. */
  function SqlRound(tenThousandths: int): int {
    if tenThousandths >= 0 then (tenThousandths + 5000) / 10000
    else -((-tenThousandths + 5000) / 10000)
  }

  /** `platform_fee_amount`: price in cents, rate in ten-thousandths. */
  function PlatformFee(price: int, rate: int): int {
    SqlRound(price * rate)
  }

  /** `consultant_payout`. */
  function ConsultantPayout(price: int, rate: int): int {
    SqlRound(price * RATE_SCALE - price * rate)
  }

  lemma SqlRoundIsNearest(x: int)
    ensures NearestAway(x, 10000, SqlRound(x))
  {
  }

  predicate HalfCentTie(price: int, rate: int) {
    (price * rate) % 10000 == 5000
  }

  lemma SplitOfProduct(p: int, x: int)
    ensures SqlRound(x) + SqlRound(p * RATE_SCALE - x)
         == if x % RATE_SCALE != 5000 then p
            else if 0 < x < p * RATE_SCALE then p + 1
            else if p * RATE_SCALE < x < 0 then p - 1
            else p
  {
  }

  /** Fee plus payout is the price, except on half-cent ties, for every price and rate the
      columns can hold: a tie strictly inside the price adds a cent. */
  lemma FeeSplitExact(price: int, rate: int)
    requires price >= 0 && rate >= 0
    ensures PlatformFee(price, rate) + ConsultantPayout(price, rate)
         == if HalfCentTie(price, rate) && rate < 10000 then price + 1 else price
  {
    SplitOfProduct(price, price * rate);
    FeeWithinPrice(price, rate);
  }

  lemma FeeWithinPrice(price: int, rate: int)
    requires price >= 0 && rate >= 0
    ensures price * rate >= 0
    ensures rate >= RATE_SCALE ==> price * rate >= price * RATE_SCALE
    ensures rate < RATE_SCALE && price * rate > 0 ==> price * rate < price * RATE_SCALE
  {
    var x := price * rate;
    assert x >= 0;
    if rate >= RATE_SCALE {
      assert price * (rate - RATE_SCALE) >= 0;
    } else if price > 0 {
      assert price * (RATE_SCALE - rate) > 0;
    }
  }

  /** The line item's CHECK (amount = fee + payout) holds exactly off those ties. */
  lemma LineItemCheckExact(price: int, rate: int)
    requires price >= 0 && 0 <= rate <= 10000
    ensures price == PlatformFee(price, rate) + ConsultantPayout(price, rate)
       <==> !HalfCentTie(price, rate)
  {
    FeeSplitExact(price, rate);
    if rate == RATE_SCALE {
      assert (price * RATE_SCALE) % RATE_SCALE == 0;
    }
  }

  /** A five-cent task at the default ten per cent violates the CHECK. */
  lemma FiveCentTaskViolatesCheck()
    ensures PlatformFee(5, 1000) == 1 && ConsultantPayout(5, 1000) == 5
    ensures 5 != PlatformFee(5, 1000) + ConsultantPayout(5, 1000)
  {
  }

  /** The database's fee and `Money.mulRate` agree on every price and every parsable rate. */
  lemma FeeAgreesWithMoney(price: int, rate: string)
    requires ParseFixed(rate, 4).Some?
    ensures MulRate(price, rate) == Some(PlatformFee(price, ParseFixed(rate, 4).value))
  {
    var x := price * ParseFixed(rate, 4).value;
    assert MulRate(price, rate) == Some(DivRound(x, 10000));
    DivRoundNearest(x, 10000);
    SqlRoundIsNearest(x);
    NearestAwayUnique(x, 10000, DivRound(x, 10000), SqlRound(x));
  }
}
