/** The two pieces of `java.lang` text behaviour that release validation
    depends on: `String.trim()` and `Integer.toString(int)`. */
module JavaText {

  /** `String.trim()` drops every character whose code is at most U+0020. */
  predicate IsTrimmed(c: char) {
    c <= ' '
  }

  /** Number of trimmable characters at the front of `s`. */
  function LeadingBlanks(s: string): (n: nat)
    ensures n <= |s|
    ensures forall i :: 0 <= i < n ==> IsTrimmed(s[i])
    ensures n < |s| ==> !IsTrimmed(s[n])
  {
    if |s| == 0 || !IsTrimmed(s[0]) then 0 else 1 + LeadingBlanks(s[1..])
  }

  /** Number of trimmable characters at the back of `s`. */
  function TrailingBlanks(s: string): (n: nat)
    ensures n <= |s|
    ensures forall i :: |s| - n <= i < |s| ==> IsTrimmed(s[i])
    ensures n < |s| ==> !IsTrimmed(s[|s| - n - 1])
  {
    if |s| == 0 || !IsTrimmed(s[|s| - 1]) then 0 else 1 + TrailingBlanks(s[..|s| - 1])
  }

  /** `String.trim()`: the longest infix of `s` that neither starts nor ends
      with a trimmable character. The result starts where the leading blanks
      of `s` end, and everything of `s` after it is blank. */
  function Trim(s: string): (r: string)
    ensures r <= s[LeadingBlanks(s)..]
    ensures forall i :: LeadingBlanks(s) + |r| <= i < |s| ==> IsTrimmed(s[i])
    ensures r != [] ==> !IsTrimmed(r[0]) && !IsTrimmed(r[|r| - 1])
  {
    var rest := s[LeadingBlanks(s)..];
    rest[..|rest| - TrailingBlanks(rest)]
  }

  /** `trim().equals("")` holds exactly when every character of `s` is
      trimmable (in particular for the empty string). */
  lemma TrimEmptyIff(s: string)
    ensures Trim(s) == [] <==> forall i :: 0 <= i < |s| ==> IsTrimmed(s[i])
  {
    if Trim(s) == [] {
      var n := LeadingBlanks(s);
      var rest := s[n..];
      assert TrailingBlanks(rest) == |rest|;
      assert n == |s|;
    } else {
      var n := LeadingBlanks(s);
      assert Trim(s)[0] == s[n];
    }
  }

  /** Decimal digit character for `d`. */
  function DigitChar(d: nat): (c: char)
    requires d < 10
    ensures '0' <= c <= '9'
  {
    ('0' as int + d) as char
  }

  /** Value of a decimal digit character. */
  function DigitValue(c: char): nat
  {
    if '0' <= c <= '9' then (c - '0') as nat else 0
  }

  /** Decimal rendering of a natural number, without sign or leading zeros. */
  function NatToString(n: nat): (s: string)
    ensures 1 <= |s|
    ensures forall i :: 0 <= i < |s| ==> '0' <= s[i] <= '9'
  {
    if n < 10 then [DigitChar(n)] else NatToString(n / 10) + [DigitChar(n % 10)]
  }

  /** `Integer.toString(n)`: a minus sign followed by the digits of `-n` when
      `n` is negative, and the digits of `n` otherwise. */
  function IntToString(n: int): (s: string)
    ensures 1 <= |s|
    ensures s[0] == '-' <==> n < 0
  {
    if n < 0 then "-" + NatToString(-n) else NatToString(n)
  }

  /** Reads back a string of decimal digits. */
  function DigitsToNat(s: string): nat
  {
    if s == [] then 0 else 10 * DigitsToNat(s[..|s| - 1]) + DigitValue(s[|s| - 1])
  }

  /** `Integer.parseInt` restricted to what `IntToString` produces. */
  function ParseInt(s: string): int
  {
    if s != [] && s[0] == '-' then -(DigitsToNat(s[1..]) as int) else DigitsToNat(s)
  }

  function Pow10(k: nat): (p: nat)
    ensures p >= 1
  {
    if k == 0 then 1 else 10 * Pow10(k - 1)
  }

  lemma {:induction false} NatToStringRoundTrip(n: nat)
    ensures DigitsToNat(NatToString(n)) == n
  {
    if n >= 10 {
      var s := NatToString(n / 10);
      var d := DigitChar(n % 10);
      var t := s + [d];
      assert NatToString(n) == t;
      assert t[..|t| - 1] == s && t[|t| - 1] == d;
      NatToStringRoundTrip(n / 10);
      assert DigitsToNat(t) == 10 * (n / 10) + n % 10;
    }
  }

  /** Reading back the rendering of any integer gives the integer. */
  lemma IntToStringRoundTrip(n: int)
    ensures ParseInt(IntToString(n)) == n
  {
    if n < 0 {
      var digits := NatToString(-n);
      var s := "-" + digits;
      assert s[0] == '-' && s[1..] == digits;
      NatToStringRoundTrip(-n);
      assert ParseInt(s) == -(DigitsToNat(digits) as int);
    } else {
      NatToStringRoundTrip(n);
    }
  }

  /** A natural number renders in at most `k` digits exactly when it is
      below `10^k`. */
  lemma {:induction false} NatToStringLength(n: nat, k: nat)
    requires k >= 1
    ensures |NatToString(n)| <= k <==> n < Pow10(k)
  {
    if n >= 10 {
      assert |NatToString(n)| == |NatToString(n / 10)| + 1;
      if k == 1 {
        assert Pow10(1) == 10;
      } else {
        NatToStringLength(n / 10, k - 1);
        assert n / 10 < Pow10(k - 1) <==> n < 10 * Pow10(k - 1);
      }
    } else {
      assert Pow10(k) >= 10 by { Pow10AtLeastTen(k); }
    }
  }

  lemma {:induction false} Pow10AtLeastTen(k: nat)
    requires k >= 1
    ensures Pow10(k) >= 10
  {
    if k > 1 {
      Pow10AtLeastTen(k - 1);
    }
  }

  /** The year rule `Integer.toString(ano).length() == 4`: four-digit
      positive years, and also the negatives -999..-100, whose minus sign is
      the fourth character. */
  lemma RenderedInFourChars(n: int)
    ensures |IntToString(n)| == 4 <==> 1000 <= n <= 9999 || -999 <= n <= -100
  {
    var m: nat := if n < 0 then -n else n;
    NatToStringLength(m, 3);
    NatToStringLength(m, 4);
    assert Pow10(3) == 1000 && Pow10(4) == 10000;
  }
}
