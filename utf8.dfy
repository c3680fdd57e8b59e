/**
 * What `bytes.decode('utf-8', errors='ignore')` keeps of a byte string, given back
 * as the UTF-8 bytes of the decoded text (which is what `.encode('utf-8')` turns it
 * into again). Well-formed sequences, as Table 3-7 of the Unicode Standard lists
 * them, are kept; each maximal ill-formed subpart (a lead byte followed by the
 * acceptable bytes that do follow it, or a lone byte that cannot start a sequence)
 * is dropped, and decoding resumes at the byte that broke it, as CPython's decoder
 * does.
 */
module Utf8 {

  /** The length of the sequence that lead byte b starts; 0 when b cannot start one. */
  function SequenceLength(b: bv8): (n: nat)
    ensures n <= 4
  {
    if b < 0x80 then 1
    else if 0xC2 <= b <= 0xDF then 2
    else if 0xE0 <= b <= 0xEF then 3
    else if 0xF0 <= b <= 0xF4 then 4
    else 0
  }

  predicate IsContinuation(c: bv8) {
    0x80 <= c <= 0xBF
  }

  /** Whether c may follow lead byte b: the narrower ranges rule out overlong forms, surrogates and code points past U+10FFFF. */
  predicate SecondOk(b: bv8, c: bv8) {
    if b == 0xE0 then 0xA0 <= c <= 0xBF
    else if b == 0xED then 0x80 <= c <= 0x9F
    else if b == 0xF0 then 0x90 <= c <= 0xBF
    else if b == 0xF4 then 0x80 <= c <= 0x8F
    else IsContinuation(c)
  }

  /**
   * How many bytes at the start of d belong to the sequence of length n its lead
   * byte starts: the lead byte and the acceptable bytes that follow it, stopping at
   * the first byte that does not fit, at the end of d, or at n.
   */
  function FittingPrefix(d: seq<bv8>, n: nat): (g: nat)
    requires d != [] && 1 <= n <= 4
    ensures 1 <= g <= n && g <= |d|
  {
    if 2 <= n && 2 <= |d| && SecondOk(d[0], d[1]) then
      if 3 <= n && 3 <= |d| && IsContinuation(d[2]) then
        if 4 <= n && 4 <= |d| && IsContinuation(d[3]) then 4 else 3
      else 2
    else 1
  }

  /** The bytes that survive `decode('utf-8', errors='ignore')`. */
  function IgnoreInvalid(d: seq<bv8>): seq<bv8>
    decreases |d|
  {
    if d == [] then []
    else
      var n := SequenceLength(d[0]);
      if n == 0 then IgnoreInvalid(d[1..])
      else
        var g := FittingPrefix(d, n);
        if g == n then d[..n] + IgnoreInvalid(d[n..]) else IgnoreInvalid(d[g..])
  }

  /** A byte string that decodes without losing anything: the encoding of some text. */
  predicate Valid(d: seq<bv8>) {
    IgnoreInvalid(d) == d
  }

  predicate IsAscii(d: seq<bv8>) {
    forall j | 0 <= j < |d| :: d[j] < 0x80
  }

  // ---------------------------------------------------------------------------
  // Properties

  /** Decoding only drops bytes: it never lengthens the data, and whatever keeps its length is kept whole. */
  lemma {:induction false} IgnoreInvalidShrinks(d: seq<bv8>)
    ensures |IgnoreInvalid(d)| <= |d|
    ensures |IgnoreInvalid(d)| == |d| ==> IgnoreInvalid(d) == d
    decreases |d|
  {
    if d != [] {
      var n := SequenceLength(d[0]);
      if n == 0 {
        IgnoreInvalidShrinks(d[1..]);
      } else {
        var g := FittingPrefix(d, n);
        if g == n {
          IgnoreInvalidShrinks(d[n..]);
          assert d[..n] + d[n..] == d;
        } else {
          IgnoreInvalidShrinks(d[g..]);
        }
      }
    }
  }

  /** A well-formed sequence at the front is kept, and decoding goes on behind it. */
  lemma KeepsWellFormed(d: seq<bv8>, rest: seq<bv8>)
    requires d != [] && SequenceLength(d[0]) == |d|
    requires FittingPrefix(d, |d|) == |d|
    ensures IgnoreInvalid(d + rest) == d + IgnoreInvalid(rest)
  {
    var e := d + rest;
    assert e[0] == d[0];
    assert FittingPrefix(e, |d|) == FittingPrefix(d, |d|);
    assert e[..|d|] == d && e[|d|..] == rest;
  }

  /** What decoding keeps decodes again to itself: the text always re-encodes to valid UTF-8. */
  lemma {:induction false} IgnoreInvalidValid(d: seq<bv8>)
    ensures Valid(IgnoreInvalid(d))
    decreases |d|
  {
    if d != [] {
      var n := SequenceLength(d[0]);
      if n == 0 {
        IgnoreInvalidValid(d[1..]);
      } else {
        var g := FittingPrefix(d, n);
        if g == n {
          IgnoreInvalidValid(d[n..]);
          var p := d[..n];
          assert p[0] == d[0];
          assert FittingPrefix(p, n) == FittingPrefix(d, n);
          KeepsWellFormed(p, IgnoreInvalid(d[n..]));
        } else {
          IgnoreInvalidValid(d[g..]);
        }
      }
    }
  }

  /** ASCII text decodes to itself. */
  lemma {:induction false} AsciiValid(d: seq<bv8>)
    requires IsAscii(d)
    ensures Valid(d)
    decreases |d|
  {
    if d != [] {
      AsciiValid(d[1..]);
      KeepsWellFormed(d[..1], d[1..]);
      assert d[..1] + d[1..] == d;
    }
  }

  /** An ASCII prefix is kept, and decoding goes on behind it. */
  lemma {:induction false} AsciiPrefixKept(a: seq<bv8>, rest: seq<bv8>)
    requires IsAscii(a)
    ensures IgnoreInvalid(a + rest) == a + IgnoreInvalid(rest)
    decreases |a|
  {
    var e := a + rest;
    if a != [] {
      assert e[0] == a[0] && e[1..] == a[1..] + rest;
      AsciiPrefixKept(a[1..], rest);
      assert [a[0]] + (a[1..] + IgnoreInvalid(rest)) == a + IgnoreInvalid(rest);
    } else {
      assert e == rest;
    }
  }

  /** A byte with its top bit set, followed by ASCII, cannot be part of a well-formed sequence and is dropped. */
  lemma TopBitBeforeAsciiDropped(x: bv8, t: seq<bv8>)
    requires x >= 0x80 && IsAscii(t)
    ensures IgnoreInvalid([x] + t) == t
  {
    var e := [x] + t;
    assert e[0] == x && e[1..] == t;
    AsciiValid(t);
    var n := SequenceLength(x);
    if n != 0 {
      assert FittingPrefix(e, n) == 1;
    }
  }

  /**
   * In ASCII text, a byte with its top bit set is a byte no well-formed sequence
   * can hold at that place (a continuation byte, an invalid byte, or a lead byte
   * followed by ASCII), so decoding drops exactly that byte.
   */
  lemma AsciiTopBitDropped(d: seq<bv8>, i: nat)
    requires IsAscii(d) && i < |d|
    ensures IgnoreInvalid(d[i := d[i] ^ 0x80]) == d[..i] + d[i + 1..]
  {
    var x := d[i] ^ 0x80;
    assert x >= 0x80;
    assert d[i := x] == d[..i] + ([x] + d[i + 1..]);
    AsciiPrefixKept(d[..i], [x] + d[i + 1..]);
    TopBitBeforeAsciiDropped(x, d[i + 1..]);
  }
}
