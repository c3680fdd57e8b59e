/**
 * Sequence-number arithmetic shared by both senders and the receiver
 * (`seq_add` and `seq_greater_equal`, defined identically in every role).
 * Sequence numbers live in 0..MAX_SEQ_NUM and wrap around modulo MAX_SEQ_NUM + 1.
 */
module SeqNum {

  /** Largest sequence number: 3-bit sequence numbers, 0..7. */
  const MAX_SEQ_NUM: nat := 7
  /** Go-Back-N window; WINDOW_SIZE <= MAX_SEQ_NUM keeps wrap-around comparisons unambiguous. */
  const WINDOW_SIZE: nat := 4

  predicate InRange(s: int) {
    0 <= s <= MAX_SEQ_NUM
  }

  function Abs(x: int): int {
    if x < 0 then -x else x
  }

  /** `seq_add`: Python's `%` with a positive modulus agrees with Dafny's Euclidean `%`. */
  function SeqAdd(s: int, v: int): (r: int)
    ensures InRange(r)
  {
    (s + v) % (MAX_SEQ_NUM + 1)
  }

  /**
   * `seq_greater_equal`: equal numbers compare true; numbers at most half the
   * sequence space apart compare as integers; otherwise a wrap-around is assumed
   * and the order is inverted. The source's float test `abs(s1 - s2) <= MAX_SEQ_NUM / 2`
   * is written as the equivalent integer test `2 * |s1 - s2| <= MAX_SEQ_NUM`.
   */
  predicate SeqGe(s1: int, s2: int) {
    if s1 == s2 then true
    else if 2 * Abs(s1 - s2) <= MAX_SEQ_NUM then s1 > s2
    else s1 < s2
  }

  /** Forward distance from a to b around the sequence circle. */
  function Dist(a: int, b: int): (d: nat)
    ensures d <= MAX_SEQ_NUM
  {
    (b - a) % (MAX_SEQ_NUM + 1)
  }

  /** The sequence numbers visited by n steps of `seq_add(·, 1)` starting at b: b, b+1, ..., b+n-1. */
  function Walked(b: int, n: nat): set<int>
  {
    if n == 0 then {} else Walked(b, n - 1) + {SeqAdd(b, n - 1)}
  }

  /** Sequence numbers from base (inclusive) up to ack (exclusive), walking forward. */
  function Cleared(base: int, ack: int): set<int>
  {
    Walked(base, Dist(base, ack))
  }

  // ---------------------------------------------------------------------------
  // Properties of seq_add and seq_greater_equal

  /** Adding a small step to an in-range number either stays below the wrap or wraps once. */
  lemma SeqAddSmall(b: int, j: int)
    requires InRange(b) && 0 <= j <= MAX_SEQ_NUM + 1
    ensures SeqAdd(b, j) == if b + j <= MAX_SEQ_NUM then b + j else b + j - (MAX_SEQ_NUM + 1)
  {
  }

  /** Walking `Dist(b, a)` steps from b lands on a, and no fewer steps do. */
  lemma DistSpec(b: int, j: int)
    requires InRange(b) && 0 <= j <= MAX_SEQ_NUM
    ensures Dist(b, SeqAdd(b, j)) == j
  {
    SeqAddSmall(b, j);
  }

  lemma SeqAddDist(b: int, a: int)
    requires InRange(b) && InRange(a)
    ensures SeqAdd(b, Dist(b, a)) == a
  {
    SeqAddSmall(b, Dist(b, a));
  }

  /** seq_greater_equal is reflexive. */
  lemma SeqGeReflexive(a: int)
    ensures SeqGe(a, a)
  {
  }

  /** For distinct numbers exactly one of the two comparisons holds. */
  lemma SeqGeAntisymmetricTotal(a: int, b: int)
    requires a != b
    ensures SeqGe(a, b) != SeqGe(b, a)
  {
  }

  /**
   * The comparison in terms of the forward distance d from b to a: for in-range
   * a != b, a counts as ahead of b exactly when d is at most half the sequence space,
   * or d is exactly (MAX_SEQ_NUM + 1) / 2 and the window wrapped (a < b).
   */
  lemma SeqGeByDistance(a: int, b: int)
    requires InRange(a) && InRange(b) && a != b
    ensures SeqGe(a, b) <==> 2 * Dist(b, a) <= MAX_SEQ_NUM || (2 * Dist(b, a) == MAX_SEQ_NUM + 1 && a < b)
  {
  }

  /** A number one step ahead is ahead. */
  lemma SeqGeSucc(a: int)
    requires InRange(a)
    ensures SeqGe(SeqAdd(a, 1), a) && !SeqGe(a, SeqAdd(a, 1))
  {
  }

  // ---------------------------------------------------------------------------
  // The modular walk

  /** Membership in the walk: exactly the in-range numbers fewer than n steps ahead of b. */
  lemma {:induction false} WalkedMembers(b: int, n: nat, k: int)
    requires InRange(b) && n <= MAX_SEQ_NUM + 1
    ensures k in Walked(b, n) <==> InRange(k) && Dist(b, k) < n
  {
    if n > 0 {
      WalkedMembers(b, n - 1, k);
      DistSpec(b, n - 1);
      if InRange(k) && Dist(b, k) == n - 1 {
        SeqAddDist(b, k);
      }
    }
  }

  /** A walk of n <= MAX_SEQ_NUM + 1 steps visits n distinct numbers. */
  lemma {:induction false} WalkedSize(b: int, n: nat)
    requires InRange(b) && n <= MAX_SEQ_NUM + 1
    ensures |Walked(b, n)| == n
  {
    if n > 0 {
      WalkedSize(b, n - 1);
      DistSpec(b, n - 1);
      WalkedMembers(b, n - 1, SeqAdd(b, n - 1));
    }
  }

  /**
   * The numbers the ACK walk clears: the in-range k with Dist(base, k) < Dist(base, ack);
   * there are Dist(base, ack) <= MAX_SEQ_NUM of them, so the walk ends within
   * MAX_SEQ_NUM + 1 steps.
   */
  lemma ClearedMembers(base: int, ack: int, k: int)
    requires InRange(base) && InRange(ack)
    ensures k in Cleared(base, ack) <==> InRange(k) && Dist(base, k) < Dist(base, ack)
    ensures |Cleared(base, ack)| == Dist(base, ack) <= MAX_SEQ_NUM
    ensures base != ack ==> base in Cleared(base, ack) && ack !in Cleared(base, ack)
  {
    WalkedMembers(base, Dist(base, ack), k);
    WalkedMembers(base, Dist(base, ack), base);
    WalkedMembers(base, Dist(base, ack), ack);
    WalkedSize(base, Dist(base, ack));
  }

  /** One more step of `seq_add` is the same as adding one more: the walks of the sender loops. */
  lemma SeqAddStep(b: int, s: nat)
    requires InRange(b) && s <= MAX_SEQ_NUM
    ensures SeqAdd(SeqAdd(b, s), 1) == SeqAdd(b, s + 1)
  {
    SeqAddSmall(b, s);
    SeqAddSmall(b, s + 1);
    SeqAddSmall(SeqAdd(b, s), 1);
  }

  /** Two steps of `seq_add` make one, for any step sizes. */
  lemma SeqAddAssoc(b: int, x: int, y: int)
    ensures SeqAdd(SeqAdd(b, x), y) == SeqAdd(b, x + y)
  {
    var m := MAX_SEQ_NUM + 1;
    var q := (b + x) / m;
    assert b + x == q * m + SeqAdd(b, x);
    ModShift(SeqAdd(b, x) + y, q);
  }

  lemma ModShift(z: int, q: int)
    ensures (z + q * (MAX_SEQ_NUM + 1)) % (MAX_SEQ_NUM + 1) == z % (MAX_SEQ_NUM + 1)
  {
  }

  /** Walking s steps towards `ack` leaves s fewer steps to go. */
  lemma DistAlong(base: int, ack: int, s: nat)
    requires InRange(base) && InRange(ack) && s <= Dist(base, ack)
    ensures Dist(SeqAdd(base, s), ack) == Dist(base, ack) - s
  {
    SeqAddSmall(base, s);
    if ack >= base {
      assert Dist(base, ack) == ack - base;
    } else {
      assert Dist(base, ack) == ack - base + MAX_SEQ_NUM + 1;
    }
  }
}
