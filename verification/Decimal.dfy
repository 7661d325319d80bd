/** Decimal text of 64-bit integers: Go's `strconv.FormatInt`, `ParseInt` and `Atoi` in base 10. */
module Decimal {
  import opened Text

  const MIN_INT64: int := -0x8000_0000_0000_0000
  const MAX_INT64: int := 0x7FFF_FFFF_FFFF_FFFF

  predicate InInt64(n: int) {
    MIN_INT64 <= n <= MAX_INT64
  }

  /** The value an int64 variable holds after an operation whose exact result is `n`. */
  function Wrap64(n: int): (w: int)
    ensures InInt64(w) && (n - w) % 0x1_0000_0000_0000_0000 == 0
    ensures InInt64(n) ==> w == n
  {
    var m := n % 0x1_0000_0000_0000_0000;
    if m > MAX_INT64 then m - 0x1_0000_0000_0000_0000 else m
  }

  predicate IsDigit(c: char) {
    '0' <= c <= '9'
  }

  predicate AllDigits(s: string) {
    forall i :: 0 <= i < |s| ==> IsDigit(s[i])
  }

  function FormatNat(n: nat): (s: string)
    ensures s != "" && AllDigits(s)
  {
    var last := [('0' as int + n % 10) as char];
    if n < 10 then last else FormatNat(n / 10) + last
  }

  function FormatInt(n: int): string {
    if n < 0 then "-" + FormatNat(-n) else FormatNat(n)
  }

  function NatValue(s: string): nat
    requires AllDigits(s)
  {
    if s == "" then 0
    else NatValue(s[..|s| - 1]) * 10 + (s[|s| - 1] as int - '0' as int)
  }

  /** `strconv.ParseInt(s, 10, 64)`, and `strconv.Atoi` where int has 64 bits. */
  function ParseInt(s: string): (r: Option<int>)
    ensures r.Some? ==> InInt64(r.value)
  {
    if s == "" then None
    else
      var body := if s[0] == '-' || s[0] == '+' then s[1..] else s;
      if body == "" || !AllDigits(body) then None
      else
        var v: int := NatValue(body);
        var n := if s[0] == '-' then -v else v;
        if InInt64(n) then Some(n) else None
  }

  lemma {:induction false} NatRoundTrip(n: nat)
    ensures NatValue(FormatNat(n)) == n
  {
    if n >= 10 {
      NatRoundTrip(n / 10);
      var s := FormatNat(n);
      assert s[..|s| - 1] == FormatNat(n / 10);
    }
  }

  /** Parsing undoes printing on every int64. */
  lemma FormatParse(n: int)
    requires InInt64(n)
    ensures ParseInt(FormatInt(n)) == Some(n)
  {
    hide NatValue, FormatNat;
    if n < 0 {
      NatRoundTrip(-n);
      assert FormatInt(n)[1..] == FormatNat(-n);
    } else {
      NatRoundTrip(n);
    }
  }

  /** Decimal text needs no quoting, trimming or splitting anywhere in the formats. */
  lemma FormatChars(n: int)
    ensures FormatInt(n) != ""
    ensures forall c :: c in FormatInt(n) ==> IsDigit(c) || (c == '-' && n < 0)
    ensures n >= 0 ==> AllDigits(FormatInt(n))
    ensures Trim(FormatInt(n)) == FormatInt(n)
  {
    TrimFixed(FormatInt(n));
  }

  // ---- decimal notation -----------------------------------------------------------------------

  function Pow10(k: nat): nat
    ensures Pow10(k) > 0
  {
    if k == 0 then 1 else 10 * Pow10(k - 1)
  }

  function DigitOf(c: char): int {
    c as int - '0' as int
  }

  /** The digit at place `k` from the right is that of the number in base ten. */
  lemma {:induction false} DigitsAreDecimal(n: nat, k: nat)
    requires k < |FormatNat(n)|
    ensures DigitOf(FormatNat(n)[|FormatNat(n)| - 1 - k]) == n / Pow10(k) % 10
  {
    if k > 0 {
      DigitsAreDecimal(n / 10, k - 1);
      ShiftPlace(n, k);
    }
  }

  lemma {:induction false} ShiftPlace(n: nat, k: nat)
    requires k > 0
    ensures n / Pow10(k) == n / 10 / Pow10(k - 1)
  {
    var p := Pow10(k - 1);
    hide Pow10;
    DivTwice(n, p);
  }

  lemma DivTwice(n: nat, p: nat)
    requires p > 0
    ensures n / (10 * p) == n / 10 / p
  {
    var q, r := n / 10 / p, n / 10 % p;
    assert n / 10 == p * q + r;
    assert n == 10 * (n / 10) + n % 10;
    assert n == (10 * p) * q + (10 * r + n % 10);
    assert 0 <= 10 * r + n % 10 < 10 * p;
    QuotientIs(n, 10 * p, q, 10 * r + n % 10);
  }

  lemma QuotientIs(n: nat, d: nat, q: nat, r: nat)
    requires d > 0 && r < d && n == d * q + r
    ensures n / d == q
  {
    var q' := n / d;
    assert n == d * q' + n % d;
    if q' < q {
      ProductsApart(d, q', q);
    } else if q' > q {
      ProductsApart(d, q, q');
    }
  }

  lemma {:induction false} ProductsApart(d: nat, a: nat, b: nat)
    requires a < b
    ensures d * b >= d * a + d
  {
    assert d * b == d * a + d * (b - a);
    if b - a > 1 { ProductsApart(d, a, b - 1); }
  }

  /** No number but zero begins with a zero. */
  lemma {:induction false} NoLeadingZero(n: nat)
    ensures FormatNat(n)[0] == '0' ==> n == 0
    ensures FormatNat(0) == "0"
  {
    if n >= 10 {
      NoLeadingZero(n / 10);
    }
  }

  function Zeros(k: nat): string {
    seq(k, i => '0')
  }

  lemma {:induction false} ZerosAreDigits(k: nat, n: nat)
    ensures AllDigits(Zeros(k) + FormatNat(n)) && NatValue(Zeros(k) + FormatNat(n)) == n
  {
    if n >= 10 {
      ZerosAreDigits(k, n / 10);
      var s, last := Zeros(k) + FormatNat(n), [('0' as int + n % 10) as char];
      assert s == (Zeros(k) + FormatNat(n / 10)) + last;
      assert s[..|s| - 1] == Zeros(k) + FormatNat(n / 10);
    } else {
      var s := Zeros(k) + FormatNat(n);
      assert s[..|s| - 1] == Zeros(k);
      ZerosAreZero(k);
    }
  }

  lemma {:induction false} ZerosAreZero(k: nat)
    ensures AllDigits(Zeros(k)) && NatValue(Zeros(k)) == 0
  {
    if k > 0 {
      ZerosAreZero(k - 1);
      assert Zeros(k)[..k - 1] == Zeros(k - 1);
    }
  }

  lemma {:induction false} FormatMore(n: nat, c: char)
    requires IsDigit(c) && n > 0
    ensures FormatNat(10 * n + DigitOf(c)) == FormatNat(n) + [c]
  {
    assert (10 * n + DigitOf(c)) / 10 == n && (10 * n + DigitOf(c)) % 10 == DigitOf(c);
    hide FormatNat;
    FormatLast(10 * n + DigitOf(c));
  }

  lemma {:induction false} FormatLast(n: nat)
    requires n >= 10
    ensures FormatNat(n) == FormatNat(n / 10) + [('0' as int + n % 10) as char]
  {}

  lemma FormatOne(c: char)
    requires IsDigit(c)
    ensures FormatNat(DigitOf(c)) == [c]
  {}

  /** Digits are a number with zeros before it. */
  lemma {:induction false} DigitsAreNumber(s: string)
    requires s != "" && AllDigits(s)
    ensures exists k: nat :: s == Zeros(k) + FormatNat(NatValue(s))
  {
    hide FormatNat;
    var init, c := s[..|s| - 1], s[|s| - 1];
    assert s == init + [c];
    if init == "" || NatValue(init) == 0 {
      var k: nat := InitIsZeros(init);
      FormatOne(c);
      assert s == Zeros(k) + FormatNat(NatValue(s));
    } else {
      DigitsAreNumber(init);
      var k: nat :| init == Zeros(k) + FormatNat(NatValue(init));
      FormatMore(NatValue(init), c);
      assert s == Zeros(k) + FormatNat(NatValue(s));
    }
  }

  lemma {:induction false} InitIsZeros(s: string) returns (k: nat)
    requires AllDigits(s) && NatValue(s) == 0
    ensures s == Zeros(k) && k == |s|
  {
    if s == "" {
      k := 0;
    } else {
      k := InitIsZeros(s[..|s| - 1]);
      assert s == Zeros(k) + [s[|s| - 1]];
      k := k + 1;
    }
  }

  /** The text is the number's decimal notation, with a sign that fits and any zeros before it. */
  ghost predicate Writes(s: string, n: int, sign: string, k: nat) {
    && s == sign + Zeros(k) + FormatNat(if n < 0 then -n else n)
    && (sign == "-" || (n >= 0 && (sign == "" || sign == "+"))) && (sign == "-" ==> n <= 0)
  }

  lemma {:induction false} ParsedIsWritten(s: string, n: int)
    requires ParseInt(s) == Some(n)
    ensures InInt64(n) && exists sign, k :: Writes(s, n, sign, k)
  {
    hide NatValue, FormatNat, Zeros, Writes;
    var signed := s[0] == '-' || s[0] == '+';
    var sign, body := if signed then s[..1] else "", if signed then s[1..] else s;
    assert s == sign + body && (signed ==> sign == [s[0]]);
    DigitsAreNumber(body);
    var k: nat :| body == Zeros(k) + FormatNat(NatValue(body));
    WrittenFrom(s, n, sign, body, k);
  }

  lemma {:induction false} WrittenFrom(s: string, n: int, sign: string, body: string, k: nat)
    requires s == sign + body && AllDigits(body) && body == Zeros(k) + FormatNat(NatValue(body))
    requires sign == "" || sign == "+" || sign == "-"
    requires (sign == "-" ==> n + NatValue(body) == 0) && (sign != "-" ==> n == NatValue(body))
    ensures Writes(s, n, sign, k)
  {
    hide NatValue, FormatNat, Zeros;
    assert sign + (Zeros(k) + FormatNat(NatValue(body))) == sign + Zeros(k) + FormatNat(NatValue(body));
  }

  lemma {:induction false} WrittenIsParsed(s: string, n: int, sign: string, k: nat)
    requires InInt64(n) && Writes(s, n, sign, k)
    ensures ParseInt(s) == Some(n)
  {
    hide NatValue, FormatNat, Zeros;
    var v := if n < 0 then -n else n;
    var body := Zeros(k) + FormatNat(v);
    ZerosAreDigits(k, v);
    assert s == sign + body && body != "" && IsDigit(body[0]);
    if sign == "" {
      assert s == body;
    } else {
      assert s[1..] == body && s[0] == sign[0];
    }
  }

  /** Exactly such texts parse, if the number is an int64. */
  lemma {:induction false} ParseIntIff(s: string, n: int)
    ensures ParseInt(s) == Some(n) <==> InInt64(n) && exists sign, k :: Writes(s, n, sign, k)
  {
    hide ParseInt, Writes;
    if ParseInt(s) == Some(n) { ParsedIsWritten(s, n); }
    if sign, k :| InInt64(n) && Writes(s, n, sign, k) { WrittenIsParsed(s, n, sign, k); }
  }

  lemma FormatInjective(a: int, b: int)
    requires FormatInt(a) == FormatInt(b)
    ensures a == b
  {
    assert FormatInt(a)[0] == '-' <==> a < 0;
    assert FormatInt(b)[0] == '-' <==> b < 0;
    if a >= 0 {
      NatRoundTrip(a);
      NatRoundTrip(b);
    } else {
      NatRoundTrip(-a);
      NatRoundTrip(-b);
      assert FormatInt(a)[1..] == FormatNat(-a) && FormatInt(b)[1..] == FormatNat(-b);
    }
  }
}
