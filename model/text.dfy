// The pieces of Go's fmt, strconv and strings packages that the core relies on:
// `%d` formatting, strconv.Atoi, strings.HasPrefix and strings.TrimPrefix.
module Text {
  import opened Wrappers

  const MinInt64: int := -0x8000_0000_0000_0000
  const MaxInt64: int := 0x7fff_ffff_ffff_ffff

  /** A value that fits Go's `int` on a 64-bit platform. */
  predicate InInt64(i: int) { MinInt64 <= i <= MaxInt64 }

  predicate IsDigit(c: char) { '0' <= c <= '9' }

  /** A non-empty run of decimal digits. */
  predicate IsDigits(s: string) {
    |s| > 0 && forall i :: 0 <= i < |s| ==> IsDigit(s[i])
  }

  function DigitChar(d: nat): (c: char)
    requires d < 10
    ensures IsDigit(c) && (c == '0' <==> d == 0)
  {
    "0123456789"[d]
  }

  function DigitValue(c: char): (d: nat)
    requires IsDigit(c)
    ensures d < 10
  {
    (c as int - '0' as int) as nat
  }

  lemma DigitRoundTrip(d: nat)
    requires d < 10
    ensures DigitValue(DigitChar(d)) == d
  {
  }

  /** The value of a run of digits, read most significant first (leading zeros allowed). */
  function DigitsValue(s: string): nat
    requires forall i :: 0 <= i < |s| ==> IsDigit(s[i])
  {
    if s == [] then 0 else 10 * DigitsValue(s[..|s| - 1]) + DigitValue(s[|s| - 1])
  }

  /** The decimal text of a natural number, as `%d` prints it: no sign, no leading zero. */
  function NatToDec(n: nat): (s: string)
    ensures IsDigits(s)
    decreases n
  {
    if n < 10 then [DigitChar(n)] else NatToDec(n / 10) + [DigitChar(n % 10)]
  }

  /** `%d` of a Go integer. */
  function IntToDec(i: int): string {
    if i < 0 then "-" + NatToDec(-i) else NatToDec(i)
  }

  /** The text of `n` never starts with a zero unless it is "0" itself. */
  lemma {:induction false} NatToDecCanonical(n: nat)
    ensures |NatToDec(n)| == 1 || NatToDec(n)[0] != '0'
    ensures NatToDec(n)[0] == '0' <==> n == 0
    decreases n
  {
    if n >= 10 {
      NatToDecCanonical(n / 10);
    }
  }

  lemma {:induction false} NatToDecValue(n: nat)
    ensures DigitsValue(NatToDec(n)) == n
    decreases n
  {
    var s := NatToDec(n);
    if n < 10 {
      DigitRoundTrip(n);
    } else {
      NatToDecValue(n / 10);
      assert s[..|s| - 1] == NatToDec(n / 10);
      DigitRoundTrip(n % 10);
    }
  }

  /**
   * strconv.Atoi on a 64-bit platform: an optional sign, then one or more decimal
   * digits, and a value that fits in 64 bits; anything else is an error.
   */
  function Atoi(s: string): (r: Option<int>)
    ensures r.Some? ==> InInt64(r.value)
  {
    if s == [] then None
    else
      var negative := s[0] == '-';
      var digits := if s[0] == '-' || s[0] == '+' then s[1..] else s;
      if !IsDigits(digits) then None
      else
        var v: int := if negative then -(DigitsValue(digits) as int) else DigitsValue(digits);
        if InInt64(v) then Some(v) else None
  }

  lemma AtoiUnsigned(d: string)
    requires IsDigits(d) && DigitsValue(d) <= MaxInt64
    ensures Atoi(d) == Some(DigitsValue(d) as int)
  {
    assert IsDigit(d[0]);
  }

  lemma AtoiNegative(d: string)
    requires IsDigits(d) && -(DigitsValue(d) as int) >= MinInt64
    ensures Atoi("-" + d) == Some(-(DigitsValue(d) as int))
  {
    var t := "-" + d;
    assert t[0] == '-';
    assert t[1..] == d;
  }

  lemma AtoiNatToDec(n: nat)
    requires n <= MaxInt64
    ensures Atoi(NatToDec(n)) == Some(n)
  {
    NatToDecValue(n);
    AtoiUnsigned(NatToDec(n));
  }

  lemma AtoiNegNatToDec(n: nat)
    requires -(n as int) >= MinInt64
    ensures Atoi("-" + NatToDec(n)) == Some(-(n as int))
  {
    NatToDecValue(n);
    AtoiNegative(NatToDec(n));
  }

  /** `%d` followed by strconv.Atoi gives back every 64-bit integer. */
  lemma AtoiIntToDec(i: int)
    requires InInt64(i)
    ensures Atoi(IntToDec(i)) == Some(i)
  {
    if i < 0 {
      AtoiNegNatToDec(-i);
    } else {
      AtoiNatToDec(i);
    }
  }

  /** Two integers with the same `%d` text are equal. */
  lemma IntToDecInjective(i: int, j: int)
    requires InInt64(i) && InInt64(j)
    requires IntToDec(i) == IntToDec(j)
    ensures i == j
  {
    AtoiIntToDec(i);
    AtoiIntToDec(j);
  }

  predicate HasPrefix(s: string, prefix: string) {
    |prefix| <= |s| && s[..|prefix|] == prefix
  }

  /** strings.TrimPrefix: drops one leading copy of `prefix` when present. */
  function TrimPrefix(s: string, prefix: string): (r: string)
    ensures HasPrefix(s, prefix) ==> prefix + r == s
    ensures !HasPrefix(s, prefix) ==> r == s
  {
    if HasPrefix(s, prefix) then s[|prefix|..] else s
  }

  lemma TrimPrefixOfConcat(prefix: string, s: string)
    ensures HasPrefix(prefix + s, prefix)
    ensures TrimPrefix(prefix + s, prefix) == s
  {
    assert (prefix + s)[..|prefix|] == prefix;
    assert (prefix + s)[|prefix|..] == s;
  }
}
