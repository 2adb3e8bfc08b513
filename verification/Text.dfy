/** Strings as the services handle them: decimal numerals, trimming, and the
    split / join pair behind every colon-separated envelope. */
module Text {

  datatype Option<+T> = None | Some(value: T)

  predicate IsDigit(c: char) {
    '0' <= c <= '9'
  }

  predicate AllDigits(s: string) {
    forall i :: 0 <= i < |s| ==> IsDigit(s[i])
  }

  function DigitValue(c: char): nat
    requires IsDigit(c)
  {
    c as int - '0' as int
  }

  function DigitChar(d: nat): char
    requires d < 10
  {
    ('0' as int + d) as char
  }

  /** The shortest decimal numeral of `n`. */
  function Print(n: nat): string {
    if n < 10 then [DigitChar(n)] else Print(n / 10) + [DigitChar(n % 10)]
  }

  /** The number a digit string denotes; leading zeros are allowed. */
  function Read(s: string): nat
    requires AllDigits(s)
  {
    if s == [] then 0 else 10 * Read(s[..|s| - 1]) + DigitValue(s[|s| - 1])
  }

  lemma {:induction false} PrintThenRead(n: nat)
    ensures |Print(n)| > 0 && AllDigits(Print(n)) && Read(Print(n)) == n
  {
    if n < 10 {
      var s := Print(n);
      assert s[..|s| - 1] == [];
    } else {
      PrintThenRead(n / 10);
      var s := Print(n);
      assert s[..|s| - 1] == Print(n / 10);
    }
  }

  /** A numeral is canonical when it is what `Print` writes: no leading zero. */
  predicate Canonical(s: string) {
    |s| > 0 && AllDigits(s) && (|s| > 1 ==> s[0] != '0')
  }

  lemma {:induction false} PrintIsCanonical(n: nat)
    ensures Canonical(Print(n)) && (Print(n)[0] == '0' ==> n == 0)
  {
    PrintThenRead(n);
    if n >= 10 {
      PrintIsCanonical(n / 10);
    }
  }

  lemma {:induction false} ReadThenPrint(s: string)
    requires Canonical(s)
    ensures Print(Read(s)) == s
  {
    var front := s[..|s| - 1];
    if front == [] {
      assert Read(s) == DigitValue(s[0]);
    } else {
      ReadThenPrint(front);
      ReadPositive(front);
      assert Read(s) / 10 == Read(front);
      assert s == front + [s[|s| - 1]];
    }
  }

  lemma {:induction false} ReadPositive(s: string)
    requires |s| > 0 && AllDigits(s) && s[0] != '0'
    ensures Read(s) > 0
  {
    if |s| > 1 {
      ReadPositive(s[..|s| - 1]);
    }
  }

  lemma {:induction false} ReadConcat(a: string, b: string)
    requires AllDigits(a) && AllDigits(b)
    ensures AllDigits(a + b)
    ensures Read(a + b) == Read(a) * Pow10(|b|) + Read(b)
  {
    hide Read, Pow10, DigitValue;
    if b == [] {
      assert a + b == a;
      NothingRead();
    } else {
      var front, c := b[..|b| - 1], b[|b| - 1];
      ReadConcat(a, front);
      ReadSnoc(front, c);
      ReadSnoc(a + front, c);
      assert front + [c] == b && a + front + [c] == a + b;
      ShiftOne(Read(a), |front|);
    }
  }

  lemma NothingRead()
    ensures Read([]) == 0 && Pow10(0) == 1
  {
  }

  lemma ReadSnoc(s: string, c: char)
    requires AllDigits(s) && IsDigit(c)
    ensures AllDigits(s + [c]) && Read(s + [c]) == 10 * Read(s) + DigitValue(c)
  {
    assert (s + [c])[..|s|] == s;
  }

  lemma ShiftOne(x: nat, n: nat)
    ensures x * Pow10(n + 1) == 10 * (x * Pow10(n))
  {
    var p := Pow10(n);
    assert Pow10(n + 1) == 10 * p;
    assert x * (10 * p) == 10 * (x * p);
  }

  function Pow10(n: nat): (r: nat)
    ensures r >= 1
  {
    if n == 0 then 1 else 10 * Pow10(n - 1)
  }

  function Zeros(n: nat): (z: string)
    ensures |z| == n && AllDigits(z)
  {
    seq(n, _ => '0')
  }

  lemma {:induction false} ReadZeros(n: nat)
    ensures Read(Zeros(n)) == 0
  {
    if n > 0 {
      assert Zeros(n)[..n - 1] == Zeros(n - 1);
      ReadZeros(n - 1);
    }
  }

  // ---- Trimming -------------------------------------------------------------

  /** The characters `String.prototype.trim` removes. */
  predicate IsSpace(c: char) {
    var u := c as int;
    || 9 <= u <= 13 || u == 32 || u == 0xA0 || u == 0x1680 || 0x2000 <= u <= 0x200A
    || u == 0x2028 || u == 0x2029 || u == 0x202F || u == 0x205F || u == 0x3000 || u == 0xFEFF
  }

  function TrimLeft(s: string): string {
    if s != [] && IsSpace(s[0]) then TrimLeft(s[1..]) else s
  }

  function TrimRight(s: string): string {
    if s != [] && IsSpace(s[|s| - 1]) then TrimRight(s[..|s| - 1]) else s
  }

  function Trim(s: string): string {
    TrimRight(TrimLeft(s))
  }

  lemma TrimIsIdentity(s: string)
    requires s != [] && !IsSpace(s[0]) && !IsSpace(s[|s| - 1])
    ensures Trim(s) == s
  {
  }

  /** The white space and line terminators of ECMAScript, by code point. */
  lemma BlankExactly(c: char)
    ensures IsSpace(c) <==>
              c as int in {9, 10, 11, 12, 13, 32, 160, 5760, 8192, 8193, 8194, 8195, 8196, 8197, 8198, 8199, 8200, 8201, 8202,
                           8232, 8233, 8239, 8287, 12288, 65279}
  {
  }

  predicate Blank(s: string) {
    forall i :: 0 <= i < |s| ==> IsSpace(s[i])
  }

  /** `t` is `s` without blanks at its two ends. */
  ghost predicate Trims(s: string, t: string) {
    && (t != "" ==> !IsSpace(t[0]) && !IsSpace(t[|t| - 1]))
    && exists left: string, right: string :: Blank(left) && Blank(right) && s == left + t + right
  }

  lemma {:induction false} TrimLeftSkips(blanks: string, s: string)
    requires Blank(blanks) && (s != [] ==> !IsSpace(s[0]))
    ensures TrimLeft(blanks + s) == s
  {
    if blanks == [] {
      assert blanks + s == s;
    } else {
      TrimLeftSkips(blanks[1..], s);
      assert (blanks + s)[1..] == blanks[1..] + s;
    }
  }

  lemma {:induction false} TrimRightSkips(s: string, blanks: string)
    requires Blank(blanks) && (s != [] ==> !IsSpace(s[|s| - 1]))
    ensures TrimRight(s + blanks) == s
  {
    if blanks == [] {
      assert s + blanks == s;
    } else {
      TrimRightSkips(s, blanks[..|blanks| - 1]);
      assert (s + blanks)[..|s + blanks| - 1] == s + blanks[..|blanks| - 1];
    }
  }

  lemma {:induction false} TrimLeftDrops(s: string) returns (left: string)
    ensures Blank(left) && s == left + TrimLeft(s) && (TrimLeft(s) != [] ==> !IsSpace(TrimLeft(s)[0]))
  {
    if s != [] && IsSpace(s[0]) {
      var rest := TrimLeftDrops(s[1..]);
      left := [s[0]] + rest;
    } else {
      left := [];
    }
  }

  lemma {:induction false} TrimRightDrops(s: string) returns (right: string)
    ensures Blank(right) && s == TrimRight(s) + right && (TrimRight(s) != [] ==> !IsSpace(TrimRight(s)[|TrimRight(s)| - 1]))
  {
    if s != [] && IsSpace(s[|s| - 1]) {
      var rest := TrimRightDrops(s[..|s| - 1]);
      right := rest + [s[|s| - 1]];
    } else {
      right := [];
    }
  }

  /** `trim` removes all the blanks at both ends and nothing else. */
  lemma TrimExactly(s: string, t: string)
    ensures Trim(s) == t <==> Trims(s, t)
  {
    hide IsSpace, TrimLeft, TrimRight;
    var left := TrimLeftDrops(s);
    var right := TrimRightDrops(TrimLeft(s));
    var u := Trim(s);
    assert s == left + u + right;
    assert u != "" ==> u[0] == TrimLeft(s)[0];
    assert Trims(s, u);
    if Trims(s, t) {
      TrimIsUnique(s, t, u);
    }
  }

  lemma TrimIsUnique(s: string, t: string, u: string)
    requires Trims(s, t) && u == Trim(s)
    ensures t == u
  {
    hide IsSpace, TrimLeft, TrimRight;
    var left, right :| Blank(left) && Blank(right) && s == left + t + right;
    if t == "" {
      assert s == (left + right) + "";
      TrimLeftSkips(left + right, "");
      TrimRightSkips("", "");
      assert "" + "" == "";
    } else {
      assert s == left + (t + right);
      assert (t + right)[0] == t[0];
      TrimLeftSkips(left, t + right);
      TrimRightSkips(t, right);
    }
  }

  // ---- Splitting and joining -------------------------------------------------

  predicate Free(s: string, sep: char) {
    forall i :: 0 <= i < |s| ==> s[i] != sep
  }

  /** The index of the first `c` in `s`, or |s|. */
  function IndexOf(s: string, c: char): (i: nat)
    ensures i <= |s| && Free(s[..i], c) && (i < |s| ==> s[i] == c)
  {
    if s == [] then 0
    else if s[0] == c then 0
    else
      var i := 1 + IndexOf(s[1..], c);
      assert s[..i] == [s[0]] + s[1..][..i - 1];
      i
  }

  lemma FirstOccurrence(s: string, c: char, k: nat)
    requires k < |s| && s[k] == c && forall i :: 0 <= i < k ==> s[i] != c
    ensures IndexOf(s, c) == k
  {
    if IndexOf(s, c) > k {
      assert false;
    }
  }

  lemma IndexOfUnique(head: string, c: char, tail: string)
    requires Free(head, c)
    ensures IndexOf(head + [c] + tail, c) == |head|
  {
    var s := head + [c] + tail;
    assert s[|head|] == c;
    assert forall k :: 0 <= k < |head| ==> s[k] == head[k];
    FirstOccurrence(s, c, |head|);
  }

  lemma IndexOfAbsent(s: string, c: char)
    requires Free(s, c)
    ensures IndexOf(s, c) == |s|
  {
  }

  /** `s.split(sep)`: always at least one segment. */
  function Split(s: string, sep: char): (parts: seq<string>)
    ensures |parts| > 0
    decreases |s|
  {
    var i := IndexOf(s, sep);
    if i == |s| then [s] else [s[..i]] + Split(s[i + 1..], sep)
  }

  function Join(parts: seq<string>, sep: char): string
    requires |parts| > 0
  {
    if |parts| == 1 then parts[0] else parts[0] + [sep] + Join(parts[1..], sep)
  }

  lemma {:induction false} SplitOfJoin(parts: seq<string>, sep: char)
    requires |parts| > 0
    requires forall i :: 0 <= i < |parts| ==> Free(parts[i], sep)
    ensures Split(Join(parts, sep), sep) == parts
  {
    if |parts| == 1 {
      IndexOfAbsent(parts[0], sep);
    } else {
      var rest := Join(parts[1..], sep);
      SplitOfJoin(parts[1..], sep);
      IndexOfUnique(parts[0], sep, rest);
      var s := parts[0] + [sep] + rest;
      assert s[..|parts[0]|] == parts[0];
      assert s[|parts[0]| + 1..] == rest;
      assert parts == [parts[0]] + parts[1..];
    }
  }

  lemma {:induction false} JoinOfSplit(s: string, sep: char)
    ensures Join(Split(s, sep), sep) == s
    ensures forall i :: 0 <= i < |Split(s, sep)| ==> Free(Split(s, sep)[i], sep)
    decreases |s|
  {
    var i := IndexOf(s, sep);
    if i == |s| {
      assert s[..i] == s;
    } else {
      JoinOfSplit(s[i + 1..], sep);
      var parts := Split(s, sep);
      assert parts[1..] == Split(s[i + 1..], sep);
      assert s == s[..i] + [sep] + s[i + 1..];
    }
  }
}
