/** The string tests the store's SQL performs: suffix match (`LIKE '%' || x`),
    prefix test (`startsWith`) and case-insensitive substring search (`ILIKE '%x%'`). */
module Strings {

  predicate StartsWith(s: string, prefix: string)
  {
    |prefix| <= |s| && s[..|prefix|] == prefix
  }

  predicate EndsWith(s: string, suffix: string)
  {
    |suffix| <= |s| && s[|s| - |suffix|..] == suffix
  }

  /** ASCII case folding. */
  function LowerChar(c: char): char
  {
    if 'A' <= c <= 'Z' then (c as int + 32) as char else c
  }

  function Lower(s: string): (r: string)
    ensures |r| == |s|
  {
    seq(|s|, i requires 0 <= i < |s| => LowerChar(s[i]))
  }

  /** `sub` occurs in `s` at some position. */
  predicate Contains(s: string, sub: string)
    decreases |s|
  {
    StartsWith(s, sub) || (|s| > 0 && Contains(s[1..], sub))
  }

  predicate ContainsIgnoringCase(s: string, sub: string)
  {
    Contains(Lower(s), Lower(sub))
  }
  // ---------------------------------------------------------------
  // Decimal numerals (`Number.prototype.toString` on a non-negative integer)
  // ---------------------------------------------------------------

  predicate IsDigit(c: char)
  {
    '0' <= c <= '9'
  }

  predicate AllDigits(s: string)
  {
    forall i :: 0 <= i < |s| ==> IsDigit(s[i])
  }

  function Pow10(k: nat): (r: nat)
    ensures r >= 1
  {
    if k == 0 then 1 else 10 * Pow10(k - 1)
  }

  /** The shortest decimal numeral of `n`. */
  function DecimalString(n: nat): (r: string)
    ensures |r| >= 1 && AllDigits(r)
    decreases n
  {
    if n < 10 then [('0' as int + n) as char]
    else DecimalString(n / 10) + [('0' as int + n % 10) as char]
  }

  /** The number a numeral denotes. */
  function DecimalValue(s: string): (r: nat)
    requires AllDigits(s)
    decreases |s|
  {
    if s == [] then 0
    else 10 * DecimalValue(s[..|s| - 1]) + (s[|s| - 1] as int - '0' as int)
  }

  lemma {:induction false} DecimalRoundTrip(n: nat)
    ensures DecimalValue(DecimalString(n)) == n
    decreases n
  {
    if n >= 10 {
      var d := DecimalString(n);
      assert d[..|d| - 1] == DecimalString(n / 10);
      DecimalRoundTrip(n / 10);
    }
  }

  lemma {:induction false} DecimalValueBound(s: string)
    requires AllDigits(s)
    ensures DecimalValue(s) < Pow10(|s|)
    decreases |s|
  {
    if s != [] {
      DecimalValueBound(s[..|s| - 1]);
    }
  }

  lemma {:induction false} MulAtLeast(k: int, d: int)
    requires k >= 1 && d > 0
    ensures k * d >= d
    decreases k
  {
    if k > 1 {
      MulAtLeast(k - 1, d);
      assert k * d == (k - 1) * d + d;
    }
  }

  /** The remainder is the one `r` in [0, d) with `x == q * d + r`. */
  lemma ModUnique(x: int, d: int, q: int, r: int)
    requires d > 0 && 0 <= r < d && x == q * d + r
    ensures x % d == r
  {
    var q', r' := x / d, x % d;
    assert x == q' * d + r';
    if q > q' {
      MulAtLeast(q - q', d);
    } else if q < q' {
      MulAtLeast(q' - q, d);
    }
  }

  lemma MulMod(a: nat, c: nat, m: nat)
    requires c < 10 && m >= 1
    ensures (10 * a + c) % (10 * m) == 10 * (a % m) + c
  {
    var q, r := a / m, a % m;
    assert a == q * m + r;
    assert 10 * (q * m) == q * (10 * m);
    ModUnique(10 * a + c, 10 * m, q, 10 * r + c);
  }

  /** The last `k` characters of a numeral denote the number modulo 10^k. */
  lemma {:induction false} DecimalSuffix(s: string, k: nat)
    requires AllDigits(s) && k <= |s|
    ensures DecimalValue(s[|s| - k..]) == DecimalValue(s) % Pow10(k)
    decreases |s|
  {
    if k == 0 {
      assert s[|s|..] == [];
    } else {
      var init := s[..|s| - 1];
      var tail := s[|s| - k..];
      assert tail[..|tail| - 1] == init[|init| - (k - 1)..];
      assert tail[|tail| - 1] == s[|s| - 1];
      DecimalSuffix(init, k - 1);
      MulMod(DecimalValue(init), s[|s| - 1] as int - '0' as int, Pow10(k - 1));
    }
  }

  /** `String(ms).slice(-4)`: the numeral's last four characters, or all of it when shorter. */
  function ClockSuffix(ms: nat): (r: string)
    ensures 1 <= |r| <= 4 && AllDigits(r)
    ensures DecimalValue(r) == ms % 10000
  {
    var d := DecimalString(ms);
    DecimalRoundTrip(ms);
    if |d| <= 4 then
      DecimalValueBound(d);
      assert Pow10(|d|) <= Pow10(4) by { Pow10Monotone(|d|, 4); }
      d
    else
      DecimalSuffix(d, 4);
      d[|d| - 4..]
  }

  lemma {:induction false} Pow10Monotone(i: nat, j: nat)
    requires i <= j
    ensures Pow10(i) <= Pow10(j)
    decreases j
  {
    if i < j {
      Pow10Monotone(i, j - 1);
    }
  }
}
