/**
 * The sender engine. Both sender files keep the same state (`sequence_number`,
 * `expected_ack`, the ordered `send_buffer`, the `timers` dictionary) and share the
 * window-fill loop, `retransmit_from`, `start_timer` and `stop_timer`; they differ
 * only in how an ACK moves the window base: HandleAckJump is the rule of
 * Arthur/sender.py, HandleAckStepwise the loop of gemini/sender.py.
 *
 * Every method runs as one atomic step (the source holds `lock` around each).
 * Frames are values. `simulate_error` corrupts the buffered frame object itself,
 * and it re-decodes the damaged bytes; SendInPlace models both as written. The
 * engine uses Send, which corrupts only the copy on the wire and keeps the damaged
 * bytes as they are (see CorruptedPayloadResent and Frames.RedecodedHitUndetected
 * for why).
 */
module Sender {
  import opened Wrappers
  import opened SeqNum
  import opened Checksum
  import opened Frames

  const BUFFER_SIZE: nat := 1024
  /** Each chunk is half the network buffer, leaving room for the header. */
  const CHUNK_SIZE: nat := BUFFER_SIZE / 2

  // ---------------------------------------------------------------------------
  // Splitting the message

  function Flatten<T>(cs: seq<seq<T>>): seq<T> {
    if cs == [] then [] else cs[0] + Flatten(cs[1..])
  }

  /**
   * `[message[i:i + size] for i in range(0, len(message), size)]`: the chunks
   * concatenate back to the message, none is empty, none exceeds `size`, and all
   * but the last are exactly `size` long. The source slices the message string,
   * so the elements are characters and `size` counts characters.
   */
  function Chunks<T>(msg: seq<T>, size: nat): (r: seq<seq<T>>)
    requires size > 0
    ensures Flatten(r) == msg
    ensures forall c | c in r :: 0 < |c| <= size
    ensures forall i | 0 <= i < |r| - 1 :: |r[i]| == size
    decreases |msg|
  {
    if msg == [] then []
    else if |msg| <= size then [msg]
    else [msg[..size]] + Chunks(msg[size..], size)
  }

  // ---------------------------------------------------------------------------
  // Building, sending and re-checksumming frames

  /** The DATA frame the fill loop builds for a chunk: `Frame(seq, 'DATA', chunk, calculate_crc8(chunk))`. */
  function DataFrame(k: int, chunk: seq<bv8>): Frame {
    Frame(k, DATA, Some(chunk), Some(Crc8(chunk) as int))
  }

  /**
   * The random choices of one `send_frame` call: whether `simulate_loss` drops the
   * frame, whether `simulate_error` selects it, and its byte and bit draws (a byte
   * draw past the end of the payload is taken as its last byte, and the bit draw
   * modulo 8, so that every draw of the source is reachable).
   */
  datatype Fault = Fault(lost: bool, corrupt: bool, index: nat, bit: nat)

  const NoFault: Fault := Fault(false, false, 0, 0)

  /**
   * The choices stored under key k, NoFault when k is not listed. The fill loop
   * keys its faults by chunk index, retransmission by sequence number.
   */
  function FaultFor(faults: map<int, Fault>, k: int): Fault {
    if k in faults then faults[k] else NoFault
  }

  function ToSeq(o: Option<Frame>): seq<Frame> {
    if o.Some? then [o.value] else []
  }

  /**
   * `send_frame(conn, frame)` as evidently intended: the frame that reaches the
   * connection, None when `simulate_loss` drops it, otherwise the frame after
   * `simulate_error`. The buffered frame itself is left as it was.
   */
  function Send(f: Frame, fault: Fault): (w: Option<Frame>)
    ensures fault.lost <==> w.None?
    ensures w.Some? ==> w.value.seqNum == f.seqNum && w.value.frameType == f.frameType && w.value.crc == f.crc
    ensures !fault.lost && !fault.corrupt ==> w == Some(f)
  {
    if fault.lost then None else Some(Corrupt(f, fault))
  }

  /**
   * `send_frame(conn, frame)` as written: `simulate_error` changes the very frame
   * object the send buffer holds, so the frame left in the buffer is the corrupted
   * one that was sent. Returns the wire and the frame at rest afterwards.
   */
  function SendInPlace(f: Frame, fault: Fault): (r: (Option<Frame>, Frame))
    ensures fault.lost ==> r == (None, f)
    ensures !fault.lost ==> r.0 == Some(r.1)
    ensures r.1.seqNum == f.seqNum && r.1.frameType == f.frameType && r.1.crc == f.crc
    ensures !fault.corrupt ==> r.0 == Send(f, fault) && r.1 == f
  {
    if fault.lost then (None, f) else (Some(CorruptAsWritten(f, fault)), CorruptAsWritten(f, fault))
  }

  /** The byte the draw hits: an index past the end of the payload is taken as its last byte. */
  function DrawnIndex(f: Frame, fault: Fault): (i: nat)
    ensures f.data.Some? && |f.data.value| > 0 ==> i < |f.data.value|
    ensures f.data.Some? && fault.index < |f.data.value| ==> i == fault.index
  {
    if f.data.Some? && fault.index < |f.data.value| then fault.index
    else if f.data.Some? && |f.data.value| > 0 then |f.data.value| - 1 else 0
  }

  /** The frame after the corrected fault (Frames.SimulateByteError) with the draws of `fault`. */
  function Corrupt(f: Frame, fault: Fault): (g: Frame)
    ensures g.seqNum == f.seqNum && g.frameType == f.frameType && g.crc == f.crc
    ensures !fault.corrupt ==> g == f
  {
    SimulateByteError(f, fault.corrupt, DrawnIndex(f, fault), fault.bit % 8).0
  }

  /** The frame after `simulate_error` as written, re-decoding included, with the draws of `fault`. */
  function CorruptAsWritten(f: Frame, fault: Fault): (g: Frame)
    ensures g.seqNum == f.seqNum && g.frameType == f.frameType && g.crc == f.crc
    ensures !fault.corrupt ==> g == f
  {
    SimulateError(f, fault.corrupt, DrawnIndex(f, fault), fault.bit % 8).0
  }

  /** A corrupted DATA frame with a correct checksum and a non-empty payload arrives with a checksum that fails. */
  lemma CorruptTransmissionDetected(f: Frame, fault: Fault)
    requires !fault.lost && fault.corrupt
    requires f.frameType == DATA && f.data.Some? && |f.data.value| > 0 && VerifyCrc8(f.data.value, f.crc)
    ensures var wire := Send(f, fault);
      wire.Some? && wire.value.data.Some? && !VerifyCrc8(wire.value.data.value, wire.value.crc)
  {
    SimulatedErrorDetected(f, DrawnIndex(f, fault), fault.bit % 8);
  }

  /**
   * Whatever the draws, a DATA frame of the fill loop that arrives with a checksum
   * that verifies is the frame as built: the receiver never accepts a changed payload
   * from it.
   */
  lemma AcceptedIsIntact(k: int, chunk: seq<bv8>, fault: Fault)
    ensures var wire := Send(DataFrame(k, chunk), fault);
      wire.Some? && wire.value.data.Some? && VerifyCrc8(wire.value.data.value, wire.value.crc) ==> wire == Some(DataFrame(k, chunk))
  {
    var f := DataFrame(k, chunk);
    if !fault.lost && fault.corrupt && |chunk| > 0 {
      CorruptTransmissionDetected(f, fault);
    }
  }

  /**
   * The crc recomputation of `retransmit_from`: a DATA frame with a non-empty
   * payload gets the checksum of the payload it holds now.
   */
  function Refresh(f: Frame): Frame {
    if f.frameType == DATA && f.data.Some? && |f.data.value| > 0 then
      f.(crc := Some(Crc8(f.data.value) as int))
    else f
  }

  /**
   * The consequence of the in-place corruption: once a corrupted DATA frame stays
   * in the buffer, its payload differs from the chunk for good, and whenever
   * anything of it is left `retransmit_from` recomputes the checksum over the
   * damaged payload, so the retransmission (even one sent intact) carries the
   * changed payload under a checksum that verifies.
   */
  lemma CorruptedPayloadResent(k: int, chunk: seq<bv8>, fault: Fault)
    requires !fault.lost && fault.corrupt && |chunk| > 0
    ensures var rest := SendInPlace(DataFrame(k, chunk), fault).1;
      var again := Send(Refresh(rest), NoFault);
      && rest.data.Some? && rest.data != Some(chunk)
      && again.Some? && again.value.data == rest.data && again.value.seqNum == k
      && (|rest.data.value| > 0 ==> VerifyCrc8(again.value.data.value, again.value.crc))
  {
    var f := DataFrame(k, chunk);
    SimulateErrorEffect(f, true, DrawnIndex(f, fault), fault.bit % 8);
    var rest := SendInPlace(f, fault).1;
    if |rest.data.value| > 0 {
      RefreshVerifies(rest);
    }
  }

  /** After the recomputation the frame's crc matches its current payload, whatever happened to it before. */
  lemma RefreshVerifies(f: Frame)
    requires f.frameType == DATA && f.data.Some? && |f.data.value| > 0
    ensures Refresh(f).data == f.data && Refresh(f).seqNum == f.seqNum
    ensures VerifyCrc8(Refresh(f).data.value, Refresh(f).crc)
  {
  }

  /** Recomputing only touches the crc, and a frame whose crc already matched is left as it was. */
  lemma RefreshKeeps(f: Frame)
    ensures Refresh(f).seqNum == f.seqNum && Refresh(f).frameType == f.frameType && Refresh(f).data == f.data
    ensures f.data.Some? && VerifyCrc8(f.data.value, f.crc) ==> Refresh(f) == f
  {
  }

  // ---------------------------------------------------------------------------
  // The insertion order of the send buffer

  function Elems(s: seq<int>): set<int> {
    set x | x in s
  }

  predicate Distinct(s: seq<int>) {
    forall a, b | 0 <= a < b < |s| :: s[a] != s[b]
  }

  /** r can be obtained from s by deleting elements: r keeps the order of s. */
  predicate IsSubsequence(r: seq<int>, s: seq<int>)
    decreases |s|
  {
    if r == [] then true
    else if s == [] then false
    else (r[0] == s[0] && IsSubsequence(r[1..], s[1..])) || IsSubsequence(r, s[1..])
  }

  /** The keys of s not in `gone`, in their original order. */
  function Filter(s: seq<int>, gone: set<int>): (r: seq<int>)
    ensures Elems(r) == Elems(s) - gone
    ensures IsSubsequence(r, s)
    ensures Distinct(s) ==> Distinct(r)
  {
    if s == [] then []
    else
      var rest := Filter(s[1..], gone);
      assert Elems(s) == {s[0]} + Elems(s[1..]);
      if s[0] in gone then rest
      else
        assert Elems([s[0]] + rest) == {s[0]} + Elems(rest);
        [s[0]] + rest
  }

  lemma {:induction false} FilterAdd(s: seq<int>, gone: set<int>, k: int)
    ensures Filter(Filter(s, gone), {k}) == Filter(s, gone + {k})
  {
    if s != [] {
      FilterAdd(s[1..], gone, k);
    }
  }

  lemma {:induction false} FilterAbsent(s: seq<int>, gone: set<int>, k: int)
    requires k !in s
    ensures Filter(s, gone + {k}) == Filter(s, gone)
  {
    if s != [] {
      FilterAbsent(s[1..], gone, k);
    }
  }

  lemma MinusAdd<V>(m: map<int, V>, gone: set<int>, k: int)
    ensures (m - gone) - {k} == m - (gone + {k})
  {
  }

  lemma MinusAbsent<V>(m: map<int, V>, gone: set<int>, k: int)
    requires k !in m
    ensures m - (gone + {k}) == m - gone
  {
  }

  lemma MinusNone<V>(m: map<int, V>)
    ensures m - {} == m
  {
  }

  lemma FilterNone(s: seq<int>)
    ensures Filter(s, {}) == s
  {
  }

  lemma {:induction false} DistinctSize(s: seq<int>)
    requires Distinct(s)
    ensures |Elems(s)| == |s|
  {
    if s != [] {
      DistinctSize(s[1..]);
      assert Elems(s) == {s[0]} + Elems(s[1..]);
      assert s[0] !in Elems(s[1..]);
    }
  }

  /**
   * The shape of the send buffer: `order` lists each buffered sequence number once,
   * each frame is stored under its own in-range sequence number, at most a window
   * of frames is buffered, exactly the buffered frames have a timer, and every
   * timer id was handed out already.
   */
  ghost predicate Buffered(frames: map<int, Frame>, order: seq<int>, timers: map<int, nat>, nextId: nat) {
    && Distinct(order) && Elems(order) == frames.Keys
    && (forall k | k in frames :: InRange(k) && frames[k].seqNum == k)
    && |frames| <= WINDOW_SIZE
    && timers.Keys == frames.Keys
    && (forall k | k in timers :: timers[k] < nextId)
  }

  // ---------------------------------------------------------------------------
  // What an ACK does to the window, in each variant

  /** ACK progress as the Arthur rule tests it, limited to ACK numbers in the sequence space. */
  predicate IsProgress(base: int, ack: int) {
    InRange(ack) && SeqGe(ack, base) && ack != base
  }

  /** Arthur/sender.py: the base jumps to a progress ACK; any other ACK is ignored. */
  function JumpBase(base: int, ack: int): int {
    if IsProgress(base, ack) then ack else base
  }

  /** Arthur/sender.py: the buffered sequence numbers a progress ACK removes. */
  function JumpCleared(base: int, ack: int): set<int> {
    if IsProgress(base, ack) then Cleared(base, ack) else {}
  }

  /** gemini/sender.py: the base after the `while True` loop. */
  function StepBase(base: int, ack: int): int {
    if InRange(ack) && SeqGe(ack, base) then
      if ack == base then SeqAdd(base, 1) else ack
    else base
  }

  /** gemini/sender.py: the sequence numbers the `while True` loop removes. */
  function StepCleared(base: int, ack: int): set<int> {
    if InRange(ack) && SeqGe(ack, base) then
      if ack == base then {base} else Cleared(base, ack)
    else {}
  }

  /** A progress ACK is at most half the sequence space ahead, and walking there from the base ends at it. */
  lemma ProgressWithinHalf(base: int, ack: int)
    requires InRange(base) && IsProgress(base, ack)
    ensures 1 <= Dist(base, ack) <= (MAX_SEQ_NUM + 1) / 2
    ensures SeqAdd(base, Dist(base, ack)) == ack
  {
    SeqGeByDistance(ack, base);
    SeqAddDist(base, ack);
  }

  /**
   * The Arthur rule removes exactly the frames a cumulative ACK acknowledges:
   * those from the base up to, not including, the ACK number; the base then
   * equals the ACK, and ACKs that are not progress change nothing.
   */
  lemma JumpRemovesAcknowledged(base: int, ack: int, k: int)
    requires InRange(base)
    ensures k in JumpCleared(base, ack) <==>
              IsProgress(base, ack) && InRange(k) && Dist(base, k) < Dist(base, ack)
    ensures !IsProgress(base, ack) ==> JumpBase(base, ack) == base && JumpCleared(base, ack) == {}
    ensures IsProgress(base, ack) ==> JumpBase(base, ack) == ack && ack !in JumpCleared(base, ack)
  {
    if IsProgress(base, ack) {
      ClearedMembers(base, ack, k);
    }
  }

  /** The window base never moves backwards: it stays, or moves to a number that compares ahead of it. */
  lemma BaseMonotone(base: int, ack: int)
    requires InRange(base)
    ensures JumpBase(base, ack) == base || SeqGe(JumpBase(base, ack), base)
    ensures StepBase(base, ack) == base || SeqGe(StepBase(base, ack), base)
  {
    SeqGeSucc(base);
  }

  /** Under the Arthur rule, delivering the same ACK again changes nothing. */
  lemma JumpIdempotent(base: int, ack: int)
    requires InRange(base)
    ensures JumpBase(JumpBase(base, ack), ack) == JumpBase(base, ack)
    ensures JumpCleared(JumpBase(base, ack), ack) == {}
  {
  }

  /** On an ACK strictly ahead of the base the two variants agree. */
  lemma VariantsAgreeOnProgress(base: int, ack: int)
    requires InRange(base) && IsProgress(base, ack)
    ensures StepBase(base, ack) == JumpBase(base, ack) == ack
    ensures StepCleared(base, ack) == JumpCleared(base, ack) == Cleared(base, ack)
  {
  }

  /** On an ACK that compares behind the base both variants do nothing. */
  lemma VariantsAgreeOnStale(base: int, ack: int)
    requires InRange(base) && !SeqGe(ack, base)
    ensures StepBase(base, ack) == JumpBase(base, ack) == base
    ensures StepCleared(base, ack) == JumpCleared(base, ack) == {}
  {
  }

  /**
   * On an ACK equal to the base they differ: the Arthur rule ignores it, the gemini
   * loop removes the base frame and moves the base one step on.
   */
  lemma VariantsDivergeOnBaseAck(base: int)
    requires InRange(base)
    ensures JumpBase(base, base) == base && JumpCleared(base, base) == {}
    ensures StepBase(base, base) == SeqAdd(base, 1) != base && StepCleared(base, base) == {base}
  {
  }

  /**
   * The gemini loop discards a frame nobody acknowledged: ACK(base) says the
   * receiver still waits for `base`, so no ACK covers that frame, yet the loop
   * removes it. A second delivery of the same ACK number — the receiver re-sends
   * ACK(expected) for every lost, corrupted or out-of-order frame — is enough.
   */
  lemma StepwiseDropsUnacknowledged(base: int)
    requires InRange(base)
    ensures base !in Cleared(base, base)
    ensures base in StepCleared(base, base)
    ensures var b1 := StepBase(base, SeqAdd(base, 1));
      b1 == SeqAdd(base, 1) && SeqAdd(base, 1) in StepCleared(b1, SeqAdd(base, 1))
  {
    ClearedMembers(base, base, base);
    SeqGeSucc(base);
    ClearedMembers(base, SeqAdd(base, 1), base);
  }

  /**
   * As written, an ACK number outside 0..MAX_SEQ_NUM can pass the progress test
   * (-1 compares ahead of 3), and then the walk `current = seq_add(current, 1)`
   * never reaches it, because seq_add only yields numbers in range.
   */
  lemma OutOfRangeAckNeverReached()
    ensures SeqGe(-1, 3) && -1 != 3
    ensures forall n: nat :: SeqAdd(3, n) != -1
    ensures !IsProgress(3, -1)
  {
  }

  /**
   * As written, the gemini `while True` loop has no way out for an ACK number of -4
   * or less: it compares ahead of every number in the sequence space, so the else
   * branch never breaks, and `seq_add` never yields it, so `expected_ack == ack_num`
   * never holds. ACK numbers from -3 to -1 and above MAX_SEQ_NUM compare behind 0,
   * so the walk stops there at the latest.
   */
  lemma StepwiseOutOfRangeNeverBreaks(ack: int)
    requires ack <= -4
    ensures forall e | InRange(e) :: SeqGe(ack, e) && SeqAdd(e, 1) != ack
    ensures forall a | -3 <= a <= -1 || MAX_SEQ_NUM < a :: !SeqGe(a, 0)
  {
  }

  /** Along the walk to an ACK that compares ahead, every intermediate number still compares behind it. */
  lemma SeqGeAlongWalk(base: int, ack: int, s: nat)
    requires InRange(base) && InRange(ack) && SeqGe(ack, base) && s < Dist(base, ack)
    ensures SeqGe(ack, SeqAdd(base, s)) && SeqAdd(base, s) != ack
  {
    if ack != base {
      SeqGeByDistance(ack, base);
      DistAlong(base, ack, s);
      if s > 0 {
        SeqGeByDistance(ack, SeqAdd(base, s));
      } else {
        SeqAddSmall(base, 0);
      }
    }
  }

  /** The arithmetic of one step of a walk that has not yet reached `ack`. */
  lemma WalkArith(base: int, ack: int, steps: nat)
    requires InRange(base) && InRange(ack)
    requires steps <= Dist(base, ack) && SeqAdd(base, steps) != ack
    ensures steps < Dist(base, ack)
    ensures SeqAdd(SeqAdd(base, steps), 1) == SeqAdd(base, steps + 1)
  {
    SeqAddDist(base, ack);
    SeqAddStep(base, steps);
  }

  /** Removing any set of keys keeps the buffer's shape. */
  lemma RemoveSetKeepsBuffered(frames: map<int, Frame>, order: seq<int>, timers: map<int, nat>, nextId: nat, gone: set<int>)
    requires Buffered(frames, order, timers, nextId)
    ensures Buffered(frames - gone, Filter(order, gone), timers - gone, nextId)
  {
    SubsetSize(frames, gone);
  }

  lemma SubsetSize(frames: map<int, Frame>, gone: set<int>)
    ensures |frames - gone| <= |frames|
  {
    var kept := (frames - gone).Keys;
    assert frames.Keys == kept + (frames.Keys - kept);
  }

  /** The three collections an ACK walk edits: the send buffer, its insertion order and the timers. */
  datatype Buffer = Buffer(frames: map<int, Frame>, order: seq<int>, timers: map<int, nat>)

  /** The buffer with the keys in `gone` removed from all three collections. */
  function Without(b: Buffer, gone: set<int>): Buffer {
    Buffer(b.frames - gone, Filter(b.order, gone), b.timers - gone)
  }

  /** The body of both ACK loops: `if k in send_buffer: stop_timer(k); del send_buffer[k]`. */
  function Evict(b: Buffer, k: int): Buffer {
    if k in b.frames then Buffer(b.frames - {k}, Filter(b.order, {k}), b.timers - {k}) else b
  }

  /** The buffer after evicting `seq_add(base, i)` for i = 0 .. n-1, in that order. */
  function EvictWalk(b: Buffer, base: int, n: nat): Buffer {
    if n == 0 then b else Evict(EvictWalk(b, base, n - 1), SeqAdd(base, n - 1))
  }

  /** Evicting a key still buffered after removing `walked` adds it to the removed set. */
  lemma EvictPresent(b: Buffer, walked: set<int>, c: int)
    requires c in b.frames - walked
    ensures Evict(Without(b, walked), c) == Without(b, walked + {c})
  {
    FilterAdd(b.order, walked, c);
    MinusAdd(b.frames, walked, c);
    MinusAdd(b.timers, walked, c);
  }

  /** Adding a key that was never buffered to the removed set changes nothing. */
  lemma WithoutAbsent(b: Buffer, walked: set<int>, c: int)
    requires Elems(b.order) == b.frames.Keys == b.timers.Keys && c !in b.frames
    ensures Without(b, walked + {c}) == Without(b, walked)
  {
    FilterAbsent(b.order, walked, c);
    MinusAbsent(b.frames, walked, c);
    MinusAbsent(b.timers, walked, c);
  }

  /** One more key removed after removing `walked`; a key no longer buffered changes nothing. */
  lemma EvictWithout(b: Buffer, walked: set<int>, c: int)
    requires Elems(b.order) == b.frames.Keys == b.timers.Keys
    ensures Evict(Without(b, walked), c) == Without(b, walked + {c})
  {
    if c in b.frames - walked {
      EvictPresent(b, walked, c);
    } else if c in walked {
      assert walked + {c} == walked;
    } else {
      WithoutAbsent(b, walked, c);
    }
  }

  /** Walking n steps from `base` removes exactly the n sequence numbers from `base` on. */
  lemma {:induction false} EvictWalkWithout(b: Buffer, base: int, n: nat)
    requires Elems(b.order) == b.frames.Keys == b.timers.Keys
    ensures EvictWalk(b, base, n) == Without(b, Walked(base, n))
  {
    if n == 0 {
      FilterNone(b.order);
      MinusNone(b.frames);
      MinusNone(b.timers);
    } else {
      EvictWalkWithout(b, base, n - 1);
      EvictWithout(b, Walked(base, n - 1), SeqAdd(base, n - 1));
    }
  }

  /**
   * The removal walk of the Arthur ACK branch: starting at `base`, evict each
   * buffered frame, stepping with `seq_add` until `ack` is reached; that is, remove
   * the frames from `base` up to, not including, `ack`.
   */
  method WalkRemove(b: Buffer, base: int, ack: int) returns (r: Buffer)
    requires Elems(b.order) == b.frames.Keys == b.timers.Keys && InRange(base) && InRange(ack)
    ensures r == Without(b, Cleared(base, ack))
  {
    r := b;
    var current := base;
    ghost var steps: nat := 0;
    while current != ack
      invariant steps <= Dist(base, ack) && current == SeqAdd(base, steps)
      invariant r == EvictWalk(b, base, steps)
      decreases Dist(base, ack) - steps
    {
      WalkArith(base, ack, steps);
      if current in r.frames {
        r := Buffer(r.frames - {current}, Filter(r.order, {current}), r.timers - {current});
      }
      current := SeqAdd(current, 1);
      steps := steps + 1;
    }
    DistSpec(base, steps);
    EvictWalkWithout(b, base, steps);
  }

  /**
   * The arithmetic of one pass of the gemini loop when the ACK number equals the
   * base: only the first pass finds the ACK at or ahead, and it steps off the base.
   */
  lemma StepArithBase(base: int, steps: nat)
    requires InRange(base) && steps <= 1 && SeqGe(base, SeqAdd(base, steps))
    ensures steps == 0 && SeqAdd(base, 0) == base && SeqAdd(base, 1) != base
  {
    SeqGeSucc(base);
    SeqAddSmall(base, 0);
    SeqAddSmall(base, 1);
  }

  /**
   * The arithmetic of one pass of the gemini loop when the ACK number is ahead of
   * the base: the step lands on the ACK exactly when it completes the distance.
   */
  lemma StepArithAhead(base: int, ack: int, steps: nat)
    requires InRange(base) && InRange(ack) && ack != base
    requires steps == 0 || steps < Dist(base, ack)
    ensures SeqAdd(base, 0) == base && steps < Dist(base, ack)
    ensures SeqAdd(SeqAdd(base, steps), 1) == SeqAdd(base, steps + 1)
    ensures SeqAdd(base, steps + 1) == ack <==> steps + 1 == Dist(base, ack)
  {
    SeqAddSmall(base, 0);
    SeqAddDist(base, ack);
    SeqAddStep(base, steps);
    DistSpec(base, steps + 1);
  }

  /**
   * The gemini loop: while the ACK number compares at or ahead of the base, evict
   * the base frame and step the base on with `seq_add`; stop once the base equals
   * the ACK number. Returns the buffer and the new base.
   */
  method StepRemove(b: Buffer, base: int, ack: int) returns (r: Buffer, e: int)
    requires Elems(b.order) == b.frames.Keys == b.timers.Keys && InRange(base) && InRange(ack)
    ensures e == StepBase(base, ack)
    ensures r == Without(b, StepCleared(base, ack))
  {
    r, e := b, base;
    ghost var steps: nat := 0;
    while true
      invariant e == SeqAdd(base, steps) && r == EvictWalk(b, base, steps)
      invariant steps == 0 || (SeqGe(ack, base) && if ack == base then steps == 1 else steps < Dist(base, ack))
      decreases MAX_SEQ_NUM + 1 - steps
    {
      if SeqGe(ack, e) {
        if ack == base {
          StepArithBase(base, steps);
        } else {
          StepArithAhead(base, ack, steps);
        }
        if e in r.frames {
          r := Buffer(r.frames - {e}, Filter(r.order, {e}), r.timers - {e});
        }
        e := SeqAdd(e, 1);
        steps := steps + 1;
        if e == ack {
          EvictWalkWithout(b, base, steps);
          assert StepCleared(base, ack) == Walked(base, steps);
          break;
        }
      } else {
        if steps > 0 {
          assert ack == base by {
            if ack != base {
              SeqGeAlongWalk(base, ack, steps);
            }
          }
        }
        EvictWalkWithout(b, base, steps);
        assert steps == 1 ==> Walked(base, steps) == {SeqAdd(base, 0)} == {base};
        break;
      }
    }
  }

  // ---------------------------------------------------------------------------
  // The window-fill loop, on values

  /** What the fill loop and `retransmit_from` change: the buffer with its timers, the next sequence number, the timer ids and the wire. */
  datatype SendState = SendState(buf: Buffer, seqNum: int, nextId: nat, sent: seq<Frame>)

  ghost predicate Shaped(s: SendState) {
    InRange(s.seqNum) && Buffered(s.buf.frames, s.buf.order, s.buf.timers, s.nextId)
  }

  /**
   * `send_buffer[f.seq_num] = f` followed by `start_timer(f.seq_num)`: a new key goes
   * last in the insertion order, an existing key keeps its place; either way the
   * key gets the timer with id `id`.
   */
  function Put(b: Buffer, f: Frame, id: nat): Buffer {
    var k := f.seqNum;
    Buffer(b.frames[k := f], if k in b.frames then b.order else b.order + [k], b.timers[k := id])
  }

  /** Putting a frame under its own in-range number into a buffer with room keeps the buffer's shape. */
  lemma PutBuffered(b: Buffer, f: Frame, nextId: nat)
    requires Buffered(b.frames, b.order, b.timers, nextId) && InRange(f.seqNum) && |b.frames| < WINDOW_SIZE
    ensures var p := Put(b, f, nextId); Buffered(p.frames, p.order, p.timers, nextId + 1)
  {
    var k := f.seqNum;
    PutOrder(b.order, b.frames.Keys, k);
    PutTimers(b.timers, b.timers[k := nextId], k, nextId);
    PutFrames(b.frames, b.frames[k := f], f);
  }

  /** Storing a frame under its own in-range number keeps every frame stored under its own number. */
  lemma PutFrames(frames: map<int, Frame>, after: map<int, Frame>, f: Frame)
    requires forall c | c in frames :: InRange(c) && frames[c].seqNum == c
    requires InRange(f.seqNum) && after == frames[f.seqNum := f]
    ensures forall c | c in after :: InRange(c) && after[c].seqNum == c
    ensures after.Keys == frames.Keys + {f.seqNum}
    ensures |after| <= |frames| + 1
  {
  }

  /** Appending a key that is not listed yet keeps the insertion order free of repeats. */
  lemma PutOrder(order: seq<int>, keys: set<int>, k: int)
    requires Distinct(order) && Elems(order) == keys
    ensures var o := if k in keys then order else order + [k]; Distinct(o) && Elems(o) == keys + {k}
  {
    if k !in keys {
      assert Elems(order + [k]) == Elems(order) + {k};
    }
  }

  /** A timer started with the next id keeps every id handed out. */
  lemma PutTimers(timers: map<int, nat>, after: map<int, nat>, k: int, nextId: nat)
    requires forall c | c in timers :: timers[c] < nextId
    requires after == timers[k := nextId]
    ensures forall c | c in after :: after[c] < nextId + 1
    ensures after.Keys == timers.Keys + {k}
  {
  }

  /**
   * One pass of the fill loop for `chunk`: buffer `Frame(seq, 'DATA', chunk, crc8(chunk))`
   * under the current sequence number, send it, start its timer and step the
   * sequence number.
   */
  function FillStep(s: SendState, chunk: seq<bv8>, fault: Fault): SendState {
    var f := DataFrame(s.seqNum, chunk);
    Pass(s, (Send(f, fault), f))
  }

  /** A pass of the fill loop keeps the buffer's shape: it only runs while the window has room. */
  lemma FillStepShaped(s: SendState, chunk: seq<bv8>, fault: Fault)
    requires Shaped(s) && |s.buf.frames| < WINDOW_SIZE
    ensures Shaped(FillStep(s, chunk, fault))
  {
    PutBuffered(s.buf, DataFrame(s.seqNum, chunk), s.nextId);
  }

  /**
   * A pass of the fill loop whose send had outcome `p`: `p.1` is the frame as the
   * buffer holds it afterwards, `p.0` what reached the wire.
   */
  function Pass(s: SendState, p: (Option<Frame>, Frame)): SendState {
    SendState(Put(s.buf, p.1, s.nextId), SeqAdd(s.seqNum, 1), s.nextId + 1, s.sent + ToSeq(p.0))
  }

  /** How many chunks the loop sends when every number it assigns is free: the room left in the window, or the chunks left. */
  function Room(buffered: nat, left: int): nat {
    if buffered >= WINDOW_SIZE || left <= 0 then 0
    else if WINDOW_SIZE - buffered < left then WINDOW_SIZE - buffered
    else left
  }

  /** The m sequence numbers from b on, in order. */
  function SeqRun(b: int, m: nat): seq<int>
    decreases m
  {
    if m == 0 then [] else [b] + SeqRun(SeqAdd(b, 1), m - 1)
  }

  /** The run from b lists b, b+1, ... modulo the sequence space; within one cycle it repeats nothing. */
  lemma {:induction false} RunMembers(b: int, m: nat)
    requires InRange(b)
    ensures |SeqRun(b, m)| == m
    ensures forall j | 0 <= j < m :: SeqRun(b, m)[j] == SeqAdd(b, j)
    ensures 1 <= m <= MAX_SEQ_NUM + 1 ==> b !in SeqRun(SeqAdd(b, 1), m - 1)
    decreases m
  {
    if m > 0 {
      RunMembers(SeqAdd(b, 1), m - 1);
      forall j | 0 <= j < m
        ensures SeqRun(b, m)[j] == SeqAdd(b, j)
      {
        if j == 0 {
          SeqAddSmall(b, 0);
        } else {
          SeqAddAssoc(b, 1, j - 1);
        }
      }
      if m <= MAX_SEQ_NUM + 1 {
        var tail := SeqRun(SeqAdd(b, 1), m - 1);
        forall j | 0 <= j < |tail|
          ensures tail[j] != b
        {
          SeqAddAssoc(b, 1, j);
          DistSpec(b, j + 1);
          DistSpec(b, 0);
        }
      }
    }
  }

  /** None of the numbers of a run is buffered. */
  predicate FreeRun(frames: map<int, Frame>, run: seq<int>) {
    forall k | k in run :: k !in frames
  }

  /** The DATA frames built for consecutive chunks, numbered on from b. */
  function Outgoing(b: int, cs: seq<seq<bv8>>): seq<Frame>
    decreases |cs|
  {
    if cs == [] then [] else [DataFrame(b, cs[0])] + Outgoing(SeqAdd(b, 1), cs[1..])
  }

  /**
   * What the passes of the fill loop send, from chunk i on, when the first pass
   * takes number b: pass j builds the DATA frame of chunk i + j under number b + j
   * (modulo the sequence space), since every pass steps the number once.
   */
  function Passes(b: int, chunks: seq<seq<bv8>>, i: nat, faults: map<int, Fault>): (r: seq<(Option<Frame>, Frame)>)
    ensures |r| == if i < |chunks| then |chunks| - i else 0
    decreases |chunks| - i
  {
    if i < |chunks| then [(Send(DataFrame(b, chunks[i]), FaultFor(faults, i)), DataFrame(b, chunks[i]))] + Passes(SeqAdd(b, 1), chunks, i + 1, faults)
    else []
  }

  /** The first pass sends chunk i under number b; the rest are the passes from chunk i + 1 under b + 1. */
  lemma PassesCons(b: int, chunks: seq<seq<bv8>>, i: nat, faults: map<int, Fault>)
    requires i < |chunks|
    ensures var ps := Passes(b, chunks, i, faults); var f := DataFrame(b, chunks[i]);
      ps[0] == (Send(f, FaultFor(faults, i)), f) && ps[1..] == Passes(SeqAdd(b, 1), chunks, i + 1, faults)
  {
    var f := DataFrame(b, chunks[i]);
    ConsTail((Send(f, FaultFor(faults, i)), f), Passes(SeqAdd(b, 1), chunks, i + 1, faults));
  }

  lemma ConsTail<T>(x: T, p: seq<T>)
    ensures ([x] + p)[0] == x && ([x] + p)[1..] == p
  {
  }

  /**
   * The fill loop over given send outcomes: it runs while the window has room and
   * outcomes are left, and returns the state and how many outcomes it used.
   */
  function Loop(s: SendState, ps: seq<(Option<Frame>, Frame)>): (r: (SendState, nat))
    ensures r.1 <= |ps|
    ensures r.1 == |ps| || |r.0.buf.frames| >= WINDOW_SIZE
    decreases |ps|
  {
    if |s.buf.frames| < WINDOW_SIZE && ps != [] then
      var r := Loop(Pass(s, ps[0]), ps[1..]);
      (r.0, r.1 + 1)
    else (s, 0)
  }

  /**
   * The fill loop from chunk i, `while len(send_buffer) < WINDOW_SIZE and
   * data_index < len(message_chunks)`, the i-th chunk sent with the choices
   * `faults[i]`: the loop over what its passes send. Returns the state and the new
   * data index; it stops with the window full or the message used up.
   */
  function Fill(s: SendState, chunks: seq<seq<bv8>>, i: nat, faults: map<int, Fault>): (r: (SendState, nat))
    ensures i <= |chunks| ==> i <= r.1 <= |chunks|
    ensures r.1 >= |chunks| || |r.0.buf.frames| >= WINDOW_SIZE
  {
    var r := Loop(s, Passes(s.seqNum, chunks, i, faults));
    (r.0, i + r.1)
  }

  /**
   * Fill is the source's loop: with room in the window and a chunk left it is one
   * pass followed by the loop from the next chunk, and otherwise it changes nothing.
   */
  lemma FillStepwise(s: SendState, chunks: seq<seq<bv8>>, i: nat, faults: map<int, Fault>)
    ensures Fill(s, chunks, i, faults) ==
      if |s.buf.frames| < WINDOW_SIZE && i < |chunks| then Fill(FillStep(s, chunks[i], FaultFor(faults, i)), chunks, i + 1, faults)
      else (s, i)
  {
    if |s.buf.frames| < WINDOW_SIZE && i < |chunks| {
      PassesCons(s.seqNum, chunks, i, faults);
    }
  }

  /** The frames the outcomes leave in the buffer carry the numbers b, b + 1, ... in turn. */
  predicate Numbered(ps: seq<(Option<Frame>, Frame)>, b: int)
    decreases |ps|
  {
    ps == [] || (ps[0].1.seqNum == b && Numbered(ps[1..], SeqAdd(b, 1)))
  }

  /** Each pass numbers its frame with the loop's current sequence number. */
  lemma {:induction false} PassesNumbered(b: int, chunks: seq<seq<bv8>>, i: nat, faults: map<int, Fault>)
    ensures Numbered(Passes(b, chunks, i, faults), b)
    decreases |chunks| - i
  {
    if i < |chunks| {
      var ps := Passes(b, chunks, i, faults);
      assert ps[1..] == Passes(SeqAdd(b, 1), chunks, i + 1, faults);
      PassesNumbered(SeqAdd(b, 1), chunks, i + 1, faults);
    }
  }

  /** Pass j sends the frame of chunk i + j under number b + j. */
  lemma {:induction false} PassesAt(b: int, chunks: seq<seq<bv8>>, i: nat, faults: map<int, Fault>, j: nat)
    requires InRange(b) && i + j < |chunks|
    ensures var f := DataFrame(SeqAdd(b, j), chunks[i + j]); Passes(b, chunks, i, faults)[j] == (Send(f, FaultFor(faults, i + j)), f)
    decreases j
  {
    if j == 0 {
      SeqAddSmall(b, 0);
    } else {
      PassesAt(SeqAdd(b, 1), chunks, i + 1, faults, j - 1);
      SeqAddAssoc(b, 1, j - 1);
    }
  }

  /** The loop keeps the shape of the buffer when the frames come numbered in turn. */
  lemma {:induction false} LoopShaped(s: SendState, ps: seq<(Option<Frame>, Frame)>)
    requires Shaped(s) && Numbered(ps, s.seqNum)
    ensures Shaped(Loop(s, ps).0)
    decreases |ps|
  {
    if |s.buf.frames| < WINDOW_SIZE && ps != [] {
      PutBuffered(s.buf, ps[0].1, s.nextId);
      LoopShaped(Pass(s, ps[0]), ps[1..]);
    }
  }

  /** The fill loop keeps the buffer's shape, in particular the window bound. */
  lemma FillShaped(s: SendState, chunks: seq<seq<bv8>>, i: nat, faults: map<int, Fault>)
    requires Shaped(s)
    ensures Shaped(Fill(s, chunks, i, faults).0)
  {
    PassesNumbered(s.seqNum, chunks, i, faults);
    LoopShaped(s, Passes(s.seqNum, chunks, i, faults));
  }

  /** Every pass steps the sequence number once and hands out one timer id. */
  lemma {:induction false} LoopCounts(s: SendState, ps: seq<(Option<Frame>, Frame)>)
    requires InRange(s.seqNum)
    ensures var (t, c) := Loop(s, ps); t.seqNum == SeqAdd(s.seqNum, c) && t.nextId == s.nextId + c
    decreases |ps|
  {
    if |s.buf.frames| < WINDOW_SIZE && ps != [] {
      var t := Pass(s, ps[0]);
      LoopCounts(t, ps[1..]);
      SeqAddAssoc(s.seqNum, 1, Loop(t, ps[1..]).1);
    } else {
      SeqAddSmall(s.seqNum, 0);
    }
  }

  /** The fill loop steps the sequence number once, and starts one timer, per chunk it takes. */
  lemma FillCounts(s: SendState, chunks: seq<seq<bv8>>, i: nat, faults: map<int, Fault>)
    requires InRange(s.seqNum)
    ensures var (t, n) := Fill(s, chunks, i, faults);
      t.seqNum == SeqAdd(s.seqNum, n - i) && t.nextId == s.nextId + (n - i)
  {
    LoopCounts(s, Passes(s.seqNum, chunks, i, faults));
  }

  /** What reached the wire from the given outcomes, in order. */
  function Wire(ps: seq<(Option<Frame>, Frame)>): seq<Frame>
    decreases |ps|
  {
    if ps == [] then [] else ToSeq(ps[0].0) + Wire(ps[1..])
  }

  /** The loop appends to the wire what the outcomes it used sent. */
  lemma {:induction false} LoopWire(s: SendState, ps: seq<(Option<Frame>, Frame)>)
    ensures var (t, c) := Loop(s, ps); t.sent == s.sent + Wire(ps[..c])
    decreases |ps|
  {
    if |s.buf.frames| < WINDOW_SIZE && ps != [] {
      var t := LoopCons(s, ps);
      var r := Loop(t, ps[1..]);
      LoopWire(t, ps[1..]);
      WireCons(ps, r.1 + 1);
      AppendAssoc(s.sent, ToSeq(ps[0].0), Wire(ps[1..][..r.1]));
    } else {
      assert ps[..Loop(s, ps).1] == [];
    }
  }

  /** With room in the window and outcomes left, the loop is one pass, sending the first outcome, then the rest. */
  lemma LoopCons(s: SendState, ps: seq<(Option<Frame>, Frame)>) returns (t: SendState)
    requires |s.buf.frames| < WINDOW_SIZE && ps != []
    ensures t.sent == s.sent + ToSeq(ps[0].0)
    ensures Loop(s, ps) == (Loop(t, ps[1..]).0, Loop(t, ps[1..]).1 + 1)
  {
    t := Pass(s, ps[0]);
  }

  lemma WireCons(ps: seq<(Option<Frame>, Frame)>, c: nat)
    requires 0 < c <= |ps|
    ensures Wire(ps[..c]) == ToSeq(ps[0].0) + Wire(ps[1..][..c - 1])
  {
    assert ps[..c][1..] == ps[1..][..c - 1];
  }

  lemma AppendAssoc<T>(a: seq<T>, b: seq<T>, c: seq<T>)
    ensures (a + b) + c == a + (b + c)
  {
  }

  /** No send of chunks i .. n-1 is lost or corrupted. */
  predicate Clean(faults: map<int, Fault>, i: nat, n: nat) {
    forall j | i <= j < n :: !FaultFor(faults, j).lost && !FaultFor(faults, j).corrupt
  }

  /** Without loss or corruption the passes for chunks i .. n-1 put their DATA frames on the wire unchanged. */
  lemma {:induction false} PassesWire(b: int, chunks: seq<seq<bv8>>, i: nat, n: nat, faults: map<int, Fault>)
    requires i <= n <= |chunks| && Clean(faults, i, n)
    ensures Wire(Passes(b, chunks, i, faults)[..n - i]) == Outgoing(b, chunks[i..n])
    decreases n - i
  {
    var ps := Passes(b, chunks, i, faults);
    if i < n {
      PassesWire(SeqAdd(b, 1), chunks, i + 1, n, faults);
      assert ps[..n - i][1..] == Passes(SeqAdd(b, 1), chunks, i + 1, faults)[..n - (i + 1)];
      assert chunks[i..n][1..] == chunks[i + 1..n];
    } else {
      assert chunks[i..n] == [];
    }
  }

  /**
   * Without loss or corruption the fill loop puts on the wire, in order, the DATA
   * frame of each chunk it takes, numbered on from the current sequence number,
   * each with the checksum of its chunk.
   */
  lemma FillIntact(s: SendState, chunks: seq<seq<bv8>>, i: nat, faults: map<int, Fault>)
    requires i <= |chunks| && Clean(faults, i, |chunks|)
    ensures var (t, n) := Fill(s, chunks, i, faults);
      t.sent == s.sent + Outgoing(s.seqNum, chunks[i..n])
  {
    var ps := Passes(s.seqNum, chunks, i, faults);
    LoopWire(s, ps);
    PassesWire(s.seqNum, chunks, i, i + Loop(s, ps).1, faults);
  }

  /** One pass over a free number: the facts the lemmas below share. */
  lemma FreshPass(s: SendState, ps: seq<(Option<Frame>, Frame)>)
    requires InRange(s.seqNum) && ps != [] && Numbered(ps, s.seqNum)
    requires Room(|s.buf.frames|, |ps|) > 0
    requires FreeRun(s.buf.frames, SeqRun(s.seqNum, Room(|s.buf.frames|, |ps|)))
    ensures var t := Pass(s, ps[0]); var m := Room(|s.buf.frames|, |ps|);
      && s.seqNum !in s.buf.frames && ps[0].1.seqNum == s.seqNum
      && Numbered(ps[1..], t.seqNum)
      && |s.buf.frames| < WINDOW_SIZE
      && InRange(t.seqNum)
      && t.buf.order == s.buf.order + [s.seqNum]
      && |t.buf.frames| == |s.buf.frames| + 1
      && SeqRun(s.seqNum, m) == [s.seqNum] + SeqRun(t.seqNum, m - 1)
      && Room(|t.buf.frames|, |ps[1..]|) == m - 1
      && FreeRun(t.buf.frames, SeqRun(t.seqNum, m - 1))
  {
    var m := Room(|s.buf.frames|, |ps|);
    RunMembers(s.seqNum, m);
  }

  /** When every number the loop will assign is free, it makes Room passes and the buffer grows by as many frames. */
  lemma {:induction false} LoopFreshCount(s: SendState, ps: seq<(Option<Frame>, Frame)>)
    requires InRange(s.seqNum) && Numbered(ps, s.seqNum)
    requires FreeRun(s.buf.frames, SeqRun(s.seqNum, Room(|s.buf.frames|, |ps|)))
    ensures var (t, c) := Loop(s, ps);
      c == Room(|s.buf.frames|, |ps|) && |t.buf.frames| == |s.buf.frames| + c
    decreases |ps|
  {
    if Room(|s.buf.frames|, |ps|) > 0 {
      FreshPass(s, ps);
      LoopFreshCount(Pass(s, ps[0]), ps[1..]);
    }
  }

  /** ... and the new numbers follow the buffered ones in insertion order. */
  lemma {:induction false} LoopFreshOrder(s: SendState, ps: seq<(Option<Frame>, Frame)>)
    requires InRange(s.seqNum) && Numbered(ps, s.seqNum)
    requires FreeRun(s.buf.frames, SeqRun(s.seqNum, Room(|s.buf.frames|, |ps|)))
    ensures Loop(s, ps).0.buf.order == s.buf.order + SeqRun(s.seqNum, Room(|s.buf.frames|, |ps|))
    decreases |ps|
  {
    var m := Room(|s.buf.frames|, |ps|);
    if m > 0 {
      var t := Pass(s, ps[0]);
      FreshPass(s, ps);
      LoopFreshOrder(t, ps[1..]);
      AppendAssoc(s.buf.order, [s.seqNum], SeqRun(t.seqNum, m - 1));
    }
  }

  /** ... and the frames and timers already there stay as they were. */
  lemma {:induction false} LoopFreshKeeps(s: SendState, ps: seq<(Option<Frame>, Frame)>, k: int)
    requires InRange(s.seqNum) && Numbered(ps, s.seqNum)
    requires FreeRun(s.buf.frames, SeqRun(s.seqNum, Room(|s.buf.frames|, |ps|)))
    requires k in s.buf.frames && k in s.buf.timers
    ensures var t := Loop(s, ps).0;
      k in t.buf.frames && t.buf.frames[k] == s.buf.frames[k] && k in t.buf.timers && t.buf.timers[k] == s.buf.timers[k]
    decreases |ps|
  {
    if Room(|s.buf.frames|, |ps|) > 0 {
      FreshPass(s, ps);
      LoopFreshKeeps(Pass(s, ps[0]), ps[1..], k);
    }
  }

  /** ... and the j-th new number holds the frame pass j left, with the j-th new timer. */
  lemma {:induction false} LoopFreshNew(s: SendState, ps: seq<(Option<Frame>, Frame)>, j: nat)
    requires InRange(s.seqNum) && Numbered(ps, s.seqNum)
    requires FreeRun(s.buf.frames, SeqRun(s.seqNum, Room(|s.buf.frames|, |ps|)))
    requires j < Room(|s.buf.frames|, |ps|)
    ensures var t := Loop(s, ps).0; var k := SeqAdd(s.seqNum, j);
      k in t.buf.frames && t.buf.frames[k] == ps[j].1 && k in t.buf.timers && t.buf.timers[k] == s.nextId + j
    decreases |ps|
  {
    var t := Pass(s, ps[0]);
    FreshPass(s, ps);
    if j == 0 {
      SeqAddSmall(s.seqNum, 0);
      LoopFreshKeeps(t, ps[1..], s.seqNum);
    } else {
      LoopFreshNew(t, ps[1..], j - 1);
      SeqAddAssoc(s.seqNum, 1, j - 1);
    }
  }

  /**
   * When the numbers the fill loop will assign are all free, it takes exactly Room
   * chunks, the new numbers follow the buffered ones in insertion order, and the
   * frames already buffered keep their frame and timer.
   */
  lemma FillFreshCount(s: SendState, chunks: seq<seq<bv8>>, i: nat, faults: map<int, Fault>)
    requires InRange(s.seqNum) && i <= |chunks|
    requires FreeRun(s.buf.frames, SeqRun(s.seqNum, Room(|s.buf.frames|, |chunks| - i)))
    ensures var (t, n) := Fill(s, chunks, i, faults); var m := Room(|s.buf.frames|, |chunks| - i);
      && n == i + m && |t.buf.frames| == |s.buf.frames| + m
      && t.buf.order == s.buf.order + SeqRun(s.seqNum, m)
      && forall k | k in s.buf.frames && k in s.buf.timers ::
           k in t.buf.frames && t.buf.frames[k] == s.buf.frames[k] && k in t.buf.timers && t.buf.timers[k] == s.buf.timers[k]
  {
    var ps := Passes(s.seqNum, chunks, i, faults);
    PassesNumbered(s.seqNum, chunks, i, faults);
    LoopFreshCount(s, ps);
    LoopFreshOrder(s, ps);
    forall k | k in s.buf.frames && k in s.buf.timers
      ensures var t := Loop(s, ps).0;
        k in t.buf.frames && t.buf.frames[k] == s.buf.frames[k] && k in t.buf.timers && t.buf.timers[k] == s.buf.timers[k]
    {
      LoopFreshKeeps(s, ps, k);
    }
  }

  /**
   * ... and the j-th chunk it takes is buffered, as its send left it, under the j-th
   * number from the current one, with the j-th timer it started.
   */
  lemma FillFreshNew(s: SendState, chunks: seq<seq<bv8>>, i: nat, faults: map<int, Fault>, j: nat)
    requires InRange(s.seqNum) && i <= |chunks|
    requires FreeRun(s.buf.frames, SeqRun(s.seqNum, Room(|s.buf.frames|, |chunks| - i)))
    requires j < Room(|s.buf.frames|, |chunks| - i)
    ensures var t := Fill(s, chunks, i, faults).0; var k := SeqAdd(s.seqNum, j);
      && k in t.buf.frames && t.buf.frames[k] == DataFrame(k, chunks[i + j])
      && k in t.buf.timers && t.buf.timers[k] == s.nextId + j
  {
    var ps := Passes(s.seqNum, chunks, i, faults);
    PassesNumbered(s.seqNum, chunks, i, faults);
    LoopFreshNew(s, ps, j);
    PassesAt(s.seqNum, chunks, i, faults, j);
  }

  // ---------------------------------------------------------------------------
  // retransmit_from, on values

  /**
   * Retransmitting buffered frame k: its crc is recomputed over the payload it
   * holds, it is sent with the choices `fault`, and its timer is restarted with the
   * next id. A number that is not buffered is passed over.
   */
  function Resend(s: SendState, k: int, fault: Fault): SendState {
    if k in s.buf.frames then
      var g := Refresh(s.buf.frames[k]);
      SendState(Buffer(s.buf.frames[k := g], s.buf.order, s.buf.timers[k := s.nextId]),
        s.seqNum, s.nextId + 1, s.sent + ToSeq(Send(g, fault)))
    else s
  }

  /**
   * `retransmit_from(start)` over the first p numbers of the buffer order `keys`:
   * each number at or after `start` in the sense of `seq_greater_equal` is resent,
   * in buffer order, the one numbered k with the choices `faults[k]`.
   */
  function Retransmit(s: SendState, keys: seq<int>, start: int, p: nat, faults: map<int, Fault>): SendState
    requires p <= |keys|
    decreases p
  {
    if p == 0 then s
    else
      var r := Retransmit(s, keys, start, p - 1, faults);
      var k := keys[p - 1];
      if SeqGe(k, start) then Resend(r, k, FaultFor(faults, k)) else r
  }

  /** One more number of the order: resent when selected, passed over otherwise. */
  lemma RetransmitNext(s: SendState, keys: seq<int>, start: int, p: nat, faults: map<int, Fault>)
    requires p < |keys|
    ensures var r := Retransmit(s, keys, start, p, faults);
      Retransmit(s, keys, start, p + 1, faults) == if SeqGe(keys[p], start) then Resend(r, keys[p], FaultFor(faults, keys[p])) else r
  {
  }

  /** Resending one frame keeps the buffer's shape. */
  lemma ResendShaped(s: SendState, k: int, fault: Fault)
    requires Shaped(s)
    ensures Shaped(Resend(s, k, fault))
  {
    if k in s.buf.frames {
      var g := Refresh(s.buf.frames[k]);
      RefreshKeeps(s.buf.frames[k]);
      PutTimers(s.buf.timers, s.buf.timers[k := s.nextId], k, s.nextId);
      PutFrames(s.buf.frames, s.buf.frames[k := g], g);
    }
  }

  /** The retransmission keeps the buffer's shape. */
  lemma {:induction false} RetransmitShaped(s: SendState, keys: seq<int>, start: int, p: nat, faults: map<int, Fault>)
    requires Shaped(s) && p <= |keys|
    ensures Shaped(Retransmit(s, keys, start, p, faults))
    decreases p
  {
    if p > 0 {
      RetransmitShaped(s, keys, start, p - 1, faults);
      ResendShaped(Retransmit(s, keys, start, p - 1, faults), keys[p - 1], FaultFor(faults, keys[p - 1]));
    }
  }

  /**
   * The retransmission leaves the set of buffered numbers, the insertion order and
   * the next sequence number as they were, and only hands out new timer ids.
   */
  lemma {:induction false} RetransmitKeeps(s: SendState, keys: seq<int>, start: int, p: nat, faults: map<int, Fault>)
    requires p <= |keys|
    ensures var r := Retransmit(s, keys, start, p, faults);
      && r.buf.frames.Keys == s.buf.frames.Keys && r.buf.order == s.buf.order && r.seqNum == s.seqNum
      && (s.buf.timers.Keys == s.buf.frames.Keys ==> r.buf.timers.Keys == s.buf.timers.Keys)
      && r.nextId >= s.nextId
    decreases p
  {
    if p > 0 {
      RetransmitKeeps(s, keys, start, p - 1, faults);
    }
  }

  /** A frame the retransmission does not select keeps its frame and its timer. */
  lemma {:induction false} RetransmitUntouched(s: SendState, keys: seq<int>, start: int, p: nat, faults: map<int, Fault>, k: int)
    requires p <= |keys| && (k !in keys[..p] || !SeqGe(k, start))
    ensures var r := Retransmit(s, keys, start, p, faults);
      && (k in s.buf.frames ==> k in r.buf.frames && r.buf.frames[k] == s.buf.frames[k])
      && (k in s.buf.timers ==> k in r.buf.timers && r.buf.timers[k] == s.buf.timers[k])
    decreases p
  {
    if p > 0 {
      assert keys[..p] == keys[..p - 1] + [keys[p - 1]];
      RetransmitUntouched(s, keys, start, p - 1, faults, k);
    }
  }

  /**
   * A buffered frame the retransmission selects (each number listed once) gets the
   * crc of the payload it holds, and a timer restarted by this retransmission.
   */
  lemma {:induction false} RetransmitSelected(s: SendState, keys: seq<int>, start: int, p: nat, faults: map<int, Fault>, k: int)
    requires p <= |keys| && Distinct(keys)
    requires k in keys[..p] && SeqGe(k, start) && k in s.buf.frames
    ensures var r := Retransmit(s, keys, start, p, faults);
      && k in r.buf.frames && r.buf.frames[k] == Refresh(s.buf.frames[k])
      && k in r.buf.timers && s.nextId <= r.buf.timers[k] < r.nextId
    decreases p
  {
    assert keys[..p] == keys[..p - 1] + [keys[p - 1]];
    var q := Retransmit(s, keys, start, p - 1, faults);
    RetransmitKeeps(s, keys, start, p - 1, faults);
    if keys[p - 1] == k {
      assert k !in keys[..p - 1];
      RetransmitUntouched(s, keys, start, p - 1, faults, k);
    } else {
      RetransmitSelected(s, keys, start, p - 1, faults, k);
    }
  }

  /** The frames the retransmission sends, with no loss or corruption: the selected buffered ones, in order, with recomputed crcs. */
  function Resent(frames: map<int, Frame>, keys: seq<int>, start: int, p: nat): seq<Frame>
    requires p <= |keys|
    decreases p
  {
    if p == 0 then []
    else
      var k := keys[p - 1];
      Resent(frames, keys, start, p - 1) + if SeqGe(k, start) && k in frames then [Refresh(frames[k])] else []
  }

  /** No send of a frame numbered in `ks` is lost or corrupted. */
  predicate Harmless(faults: map<int, Fault>, ks: seq<int>) {
    forall k | k in ks :: !FaultFor(faults, k).lost && !FaultFor(faults, k).corrupt
  }

  /** Without loss or corruption, the retransmission puts the recomputed selected frames on the wire, in buffer order. */
  lemma {:induction false} RetransmitWire(s: SendState, keys: seq<int>, start: int, p: nat, faults: map<int, Fault>)
    requires p <= |keys| && Distinct(keys) && Harmless(faults, keys)
    ensures Retransmit(s, keys, start, p, faults).sent == s.sent + Resent(s.buf.frames, keys, start, p)
    decreases p
  {
    if p > 0 {
      var k := keys[p - 1];
      RetransmitWire(s, keys, start, p - 1, faults);
      assert k !in keys[..p - 1];
      RetransmitUntouched(s, keys, start, p - 1, faults, k);
      RetransmitKeeps(s, keys, start, p - 1, faults);
    }
  }

  /** Every DATA frame with a payload that a harmless retransmission sends carries a checksum that verifies. */
  lemma {:induction false} ResentVerifies(frames: map<int, Frame>, keys: seq<int>, start: int, p: nat)
    requires p <= |keys|
    ensures forall g | g in Resent(frames, keys, start, p) && g.frameType == DATA && g.data.Some? && |g.data.value| > 0 ::
      VerifyCrc8(g.data.value, g.crc)
    decreases p
  {
    if p > 0 {
      ResentVerifies(frames, keys, start, p - 1);
      var k := keys[p - 1];
      if SeqGe(k, start) && k in frames {
        RefreshKeeps(frames[k]);
        var f := frames[k];
        if f.frameType == DATA && f.data.Some? && |f.data.value| > 0 {
          RefreshVerifies(f);
        }
      }
    }
  }

  // ---------------------------------------------------------------------------
  // The state of one sender session

  class Sender {
    /** Next sequence number to assign. */
    var sequenceNumber: int
    /** Window base: the oldest unacknowledged sequence number. */
    var expectedAck: int
    /** The frames of `send_buffer`, by sequence number. */
    var frames: map<int, Frame>
    /** The keys of `send_buffer` in insertion order (an OrderedDict iterates in this order). */
    var order: seq<int>
    /** The `timers` dictionary: the sequence numbers with a timer, each with the id of its current timer. */
    var timers: map<int, nat>
    /** Id handed to the next timer started, so that a restarted timer is told apart from the old one. */
    var nextTimerId: nat
    /** Frames handed to the connection, oldest first. */
    var sent: seq<Frame>

    ghost predicate Valid()
      reads this
    {
      InRange(expectedAck) && Shaped(Snapshot())
    }

    /** The module-level initial state: nothing sent, nothing buffered, no timers. */
    constructor ()
      ensures Valid()
      ensures sequenceNumber == 0 && expectedAck == 0
      ensures frames == map[] && order == [] && timers == map[] && sent == []
    {
      sequenceNumber, expectedAck := 0, 0;
      frames, order := map[], [];
      timers, nextTimerId := map[], 0;
      sent := [];
    }

    /** `start_timer(seq)`: any previous timer for seq is cancelled and replaced by a new one. */
    method StartTimer(k: int)
      modifies this`timers, this`nextTimerId
      ensures timers == old(timers)[k := old(nextTimerId)]
      ensures nextTimerId == old(nextTimerId) + 1
    {
      timers := timers[k := nextTimerId];
      nextTimerId := nextTimerId + 1;
    }

    /** `send_buffer[f.seq_num] = f`: a new key goes last; an existing key keeps its place. */
    method BufferPut(f: Frame)
      modifies this`frames, this`order
      ensures frames == old(frames)[f.seqNum := f]
      ensures order == if f.seqNum in old(frames) then old(order) else old(order) + [f.seqNum]
    {
      if f.seqNum !in frames {
        order := order + [f.seqNum];
      }
      frames := frames[f.seqNum := f];
    }

    /** `send_frame(sender_socket, send_buffer[k])` with the fault choices for this call; the buffered frame is not touched. */
    method SendFrame(k: int, fault: Fault)
      requires k in frames
      modifies this`sent
      ensures sent == old(sent) + ToSeq(Send(frames[k], fault))
    {
      sent := sent + ToSeq(Send(frames[k], fault));
    }

    /** The state the fill loop and the retransmission work on, as a value. */
    function Snapshot(): SendState
      reads this
    {
      SendState(Buffer(frames, order, timers), sequenceNumber, nextTimerId, sent)
    }

    /**
     * One pass of the fill loop: build the DATA frame of `chunk` under the current
     * sequence number with its crc, buffer it, send it, start its timer and step the
     * sequence number.
     */
    method SendChunk(chunk: seq<bv8>, fault: Fault)
      modifies this`frames, this`order, this`timers, this`nextTimerId, this`sent, this`sequenceNumber
      ensures Snapshot() == FillStep(old(Snapshot()), chunk, fault)
    {
      var crc := CalculateCrc8(chunk);
      var frame := Frame(sequenceNumber, DATA, Some(chunk), Some(crc as int));
      assert frame == DataFrame(sequenceNumber, chunk);
      BufferPut(frame);
      SendFrame(sequenceNumber, fault);
      StartTimer(sequenceNumber);
      sequenceNumber := SeqAdd(sequenceNumber, 1);
      ghost var after := FillStep(old(Snapshot()), chunk, fault);
      assert sent == after.sent;
      assert Buffer(frames, order, timers) == after.buf;
    }

    /**
     * The window-fill loop of both sender files: while the window has room and
     * chunks are left, build the DATA frame of the next chunk with its crc, buffer
     * it, send it with the choices `faults[dataIndex]`, start its timer and step the
     * sequence number and the data index.
     */
    method FillWindow(chunks: seq<seq<bv8>>, dataIndex: nat, faults: map<int, Fault>) returns (newIndex: nat)
      requires Valid() && dataIndex <= |chunks|
      modifies this`frames, this`order, this`timers, this`nextTimerId, this`sent, this`sequenceNumber
      ensures Valid()
      ensures (Snapshot(), newIndex) == Fill(old(Snapshot()), chunks, dataIndex, faults)
    {
      newIndex := dataIndex;
      while |frames| < WINDOW_SIZE && newIndex < |chunks|
        invariant Valid()
        invariant dataIndex <= newIndex <= |chunks|
        invariant Fill(Snapshot(), chunks, newIndex, faults) == Fill(old(Snapshot()), chunks, dataIndex, faults)
        decreases |chunks| - newIndex
      {
        ghost var before := Snapshot();
        FillStepwise(before, chunks, newIndex, faults);
        FillStepShaped(before, chunks[newIndex], FaultFor(faults, newIndex));
        SendChunk(chunks[newIndex], FaultFor(faults, newIndex));
        newIndex := newIndex + 1;
      }
      FillStepwise(Snapshot(), chunks, newIndex, faults);
    }

    /**
     * `retransmit_from(start)`: every buffered frame whose number is at or after
     * `start`, in buffer order, gets its crc recomputed over the payload it holds
     * (DATA frames with a payload), is sent with the choices `faults[k]`, and has its
     * timer cancelled and restarted. The source first collects the frames and then
     * sends them; sending changes neither the buffer order nor any other buffered
     * frame, so one pass over the order does the same.
     */
    method RetransmitFrom(start: int, faults: map<int, Fault>)
      requires Valid()
      modifies this`frames, this`timers, this`nextTimerId, this`sent
      ensures Valid()
      ensures Snapshot() == Retransmit(old(Snapshot()), old(order), start, |old(order)|, faults)
    {
      ghost var s0 := Snapshot();
      ResendAll(order, start, faults);
      RetransmitShaped(s0, s0.buf.order, start, |s0.buf.order|, faults);
    }

    /**
     * The loop of `retransmit_from` over the keys of the buffer in insertion order:
     * every key at or after `start` is resent, in that order.
     */
    method ResendAll(keys: seq<int>, start: int, faults: map<int, Fault>)
      requires Elems(keys) == frames.Keys
      modifies this`frames, this`timers, this`nextTimerId, this`sent
      ensures Snapshot() == Retransmit(old(Snapshot()), keys, start, |keys|, faults)
    {
      ghost var s0 := Snapshot();
      for p := 0 to |keys|
        invariant Snapshot() == Retransmit(s0, keys, start, p, faults)
      {
        var k := keys[p];
        RetransmitNext(s0, keys, start, p, faults);
        if SeqGe(k, start) {
          RetransmitKeeps(s0, keys, start, p, faults);
          assert k in Elems(keys);
          ResendFrame(k, FaultFor(faults, k));
        }
      }
    }

    /**
     * One frame of `retransmit_from`: the timer of buffered frame k is cancelled,
     * its crc recomputed over the payload it holds when it is a DATA frame with a
     * payload, it is sent, and its timer started again.
     */
    method ResendFrame(k: int, fault: Fault)
      requires k in frames
      modifies this`frames, this`timers, this`nextTimerId, this`sent
      ensures Snapshot() == Resend(old(Snapshot()), k, fault)
    {
      var f := frames[k];
      if f.frameType == DATA && f.data.Some? && |f.data.value| > 0 {
        var crc := CalculateCrc8(f.data.value);
        f := f.(crc := Some(crc as int));
      }
      assert f == Refresh(old(frames)[k]);
      frames := frames[k := f];
      SendFrame(k, fault);
      StartTimer(k);
    }

    /**
     * The timer of frame k that was started with id `id` expires and runs
     * `retransmit_from(k)`, unless it was cancelled meanwhile: a cancelled timer is
     * one whose id is no longer the one recorded for k.
     */
    method OnTimeout(k: int, id: nat, faults: map<int, Fault>)
      requires Valid()
      modifies this`frames, this`timers, this`nextTimerId, this`sent
      ensures Valid()
      ensures Snapshot() ==
        if k in old(timers) && old(timers)[k] == id then Retransmit(old(Snapshot()), old(order), k, |old(order)|, faults)
        else old(Snapshot())
    {
      if k in timers && timers[k] == id {
        RetransmitFrom(k, faults);
      }
    }

    /**
     * The ACK branch of Arthur/sender.py: a progress ACK stops the timer of, and
     * removes, every buffered frame from the base up to the ACK number, and the base
     * jumps to the ACK number; any other ACK is ignored. ACK numbers outside the
     * sequence space are taken as not progress, which the source does not do.
     */
    method HandleAckJump(ack: int)
      requires Valid()
      modifies this`frames, this`order, this`timers, this`expectedAck
      ensures Valid()
      ensures expectedAck == JumpBase(old(expectedAck), ack)
      ensures frames == old(frames) - JumpCleared(old(expectedAck), ack)
      ensures timers == old(timers) - JumpCleared(old(expectedAck), ack)
      ensures order == Filter(old(order), JumpCleared(old(expectedAck), ack))
      ensures frames == map[] ==> timers == map[]
    {
      var base := expectedAck;
      if InRange(ack) && SeqGe(ack, base) && ack != base {
        var r := WalkRemove(Buffer(frames, order, timers), base, ack);
        frames, order, timers, expectedAck := r.frames, r.order, r.timers, ack;
        RemoveSetKeepsBuffered(old(frames), old(order), old(timers), nextTimerId, Cleared(base, ack));
      } else {
        FilterNone(order);
        MinusNone(frames);
        MinusNone(timers);
      }
    }

    /**
     * The `while True` ACK loop of gemini/sender.py, with ACK numbers outside the
     * sequence space ignored (the source does not ignore them).
     */
    method HandleAckStepwise(ack: int)
      requires Valid()
      modifies this`frames, this`order, this`timers, this`expectedAck
      ensures Valid()
      ensures expectedAck == StepBase(old(expectedAck), ack)
      ensures frames == old(frames) - StepCleared(old(expectedAck), ack)
      ensures timers == old(timers) - StepCleared(old(expectedAck), ack)
      ensures order == Filter(old(order), StepCleared(old(expectedAck), ack))
      ensures frames == map[] ==> timers == map[]
    {
      if InRange(ack) {
        var r, e := StepRemove(Buffer(frames, order, timers), expectedAck, ack);
        frames, order, timers, expectedAck := r.frames, r.order, r.timers, e;
        RemoveSetKeepsBuffered(old(frames), old(order), old(timers), nextTimerId, StepCleared(old(expectedAck), ack));
      } else {
        FilterNone(order);
        MinusNone(frames);
        MinusNone(timers);
      }
    }
  }
}
