/**
 * The stream framing layer: every serialized frame is preceded by its byte
 * length written as `str(n).zfill(10)`, and the reader turns the ten prefix
 * characters back into a number with `int(prefix.strip())`.
 */
module Framing {
  import opened Wrappers

  const PREFIX_WIDTH: nat := 10

  function Pow10(k: nat): (p: nat)
    ensures p >= 1
  {
    if k == 0 then 1 else 10 * Pow10(k - 1)
  }

  predicate IsDigit(c: char) {
    '0' <= c <= '9'
  }

  function DigitChar(d: nat): (c: char)
    requires d < 10
    ensures IsDigit(c)
  {
    ('0' as int + d) as char
  }

  function DigitValue(c: char): (d: nat)
    requires IsDigit(c)
    ensures d < 10
  {
    c as int - '0' as int
  }

  /** `str(n)` for a non-negative integer: its decimal digits, most significant first, no leading zeros. */
  function DecimalString(n: nat): (s: string)
    ensures |s| >= 1 && forall c | c in s :: IsDigit(c)
  {
    if n < 10 then [DigitChar(n)] else DecimalString(n / 10) + [DigitChar(n % 10)]
  }

  /** `s.zfill(width)`: left-pad with '0' to at least `width` characters; longer strings are kept whole. */
  function ZFill(s: string, width: nat): (r: string)
    ensures |r| == if |s| < width then width else |s|
    ensures r[|r| - |s|..] == s
    ensures forall j | 0 <= j < |r| - |s| :: r[j] == '0'
  {
    if |s| < width then Zeros(width - |s|) + s else s
  }

  function Zeros(k: nat): (z: string)
    ensures |z| == k && forall j | 0 <= j < k :: z[j] == '0'
    ensures forall c | c in z :: c == '0'
  {
    if k == 0 then [] else Zeros(k - 1) + ['0']
  }

  /** The prefix written before a frame of n bytes. */
  function EncodeLength(n: nat): string {
    ZFill(DecimalString(n), PREFIX_WIDTH)
  }

  /** The six C-locale whitespace characters, which `str.strip()` removes. */
  predicate IsSpace(c: char) {
    c == ' ' || c == '\t' || c == '\n' || c == '\r' || c == '\U{000B}' || c == '\U{000C}'
  }

  /** `lstrip()`: the longest prefix of whitespace is removed. */
  function StripLeft(s: string): (r: string)
    ensures |r| <= |s| && r == s[|s| - |r|..]
    ensures forall j | 0 <= j < |s| - |r| :: IsSpace(s[j])
    ensures r == [] || !IsSpace(r[0])
  {
    if s != [] && IsSpace(s[0]) then StripLeft(s[1..]) else s
  }

  /** `rstrip()`: the longest suffix of whitespace is removed. */
  function StripRight(s: string): (r: string)
    ensures |r| <= |s| && r == s[..|r|]
    ensures forall j | |r| <= j < |s| :: IsSpace(s[j])
    ensures r == [] || !IsSpace(r[|r| - 1])
  {
    if s != [] && IsSpace(s[|s| - 1]) then StripRight(s[..|s| - 1]) else s
  }

  /** The value of a string of decimal digits. */
  function DigitsValue(s: string): nat
    requires forall c | c in s :: IsDigit(c)
  {
    if s == [] then 0 else 10 * DigitsValue(s[..|s| - 1]) + DigitValue(s[|s| - 1])
  }

  /**
   * `int(prefix.strip())` on the prefix the reader received; None where Python's
   * `int` raises (an empty or non-digit string).
   */
  function ParseLength(s: string): Option<nat> {
    var t := StripRight(StripLeft(s));
    if t != [] && forall c | c in t :: IsDigit(c) then Some(DigitsValue(t)) else None
  }

  // ---------------------------------------------------------------------------
  // Round trip

  lemma {:induction false} DecimalStringValue(n: nat)
    ensures DigitsValue(DecimalString(n)) == n
  {
    if n >= 10 {
      DecimalStringValue(n / 10);
      var s := DecimalString(n);
      assert s[..|s| - 1] == DecimalString(n / 10);
    }
  }

  lemma {:induction false} DecimalStringLength(n: nat, k: nat)
    requires n < Pow10(k) && k >= 1
    ensures |DecimalString(n)| <= k
  {
    if n >= 10 {
      DecimalStringLength(n / 10, k - 1);
    }
  }

  /** A run of zeros is a digit string of value zero. */
  lemma {:induction false} ZerosZero(k: nat)
    ensures forall c | c in Zeros(k) :: IsDigit(c)
    ensures DigitsValue(Zeros(k)) == 0
  {
    if k > 0 {
      ZerosZero(k - 1);
      assert Zeros(k)[..k - 1] == Zeros(k - 1);
    }
  }

  /** Leading zeros do not change the value of a digit string. */
  lemma {:induction false} ZerosValue(k: nat, s: string)
    requires forall c | c in s :: IsDigit(c)
    ensures forall c | c in Zeros(k) + s :: IsDigit(c)
    ensures DigitsValue(Zeros(k) + s) == DigitsValue(s)
  {
    ZerosZero(k);
    var t := Zeros(k) + s;
    assert forall c | c in t :: c in Zeros(k) || c in s;
    if s == [] {
      assert t == Zeros(k);
    } else {
      assert t[..|t| - 1] == Zeros(k) + s[..|s| - 1];
      ZerosValue(k, s[..|s| - 1]);
    }
  }

  lemma NoSpaceStrip(s: string)
    requires forall c | c in s :: IsDigit(c)
    ensures StripRight(StripLeft(s)) == s
  {
    if s != [] {
      assert s[0] in s && s[|s| - 1] in s;
      assert !IsSpace(s[0]) && !IsSpace(s[|s| - 1]);
    }
  }

  /**
   * The length prefix round-trips: for 0 <= n < 10^10 it is exactly ten
   * characters and parses back to n.
   */
  lemma LengthPrefixRoundTrip(n: nat)
    requires n < Pow10(PREFIX_WIDTH)
    ensures |EncodeLength(n)| == PREFIX_WIDTH
    ensures ParseLength(EncodeLength(n)) == Some(n)
  {
    var s := DecimalString(n);
    DecimalStringLength(n, PREFIX_WIDTH);
    DecimalStringValue(n);
    ZerosValue(PREFIX_WIDTH - |s|, s);
    assert EncodeLength(n) == Zeros(PREFIX_WIDTH - |s|) + s;
    NoSpaceStrip(EncodeLength(n));
  }

  /** A frame of 10^10 bytes or more gets a longer prefix than the ten characters the reader takes. */
  lemma LongFrameOverflowsPrefix(n: nat)
    requires n >= Pow10(PREFIX_WIDTH)
    ensures |EncodeLength(n)| > PREFIX_WIDTH
  {
    DecimalStringMinLength(n, PREFIX_WIDTH);
  }

  lemma {:induction false} DecimalStringMinLength(n: nat, k: nat)
    requires n >= Pow10(k)
    ensures |DecimalString(n)| > k
  {
    if k > 0 {
      DecimalStringMinLength(n / 10, k - 1);
    }
  }
}
