/**
 * The receiver engine of gemini/receiver.py: the state `expected_seq_num`,
 * `last_accepted_seq` and `received_message`, the per-frame handling of the main
 * loop (CRC check, in-order, duplicate and out-of-order branches, the cumulative
 * ACK), `send_ack`, and the exception handling around one iteration of the loop.
 *
 * A step is specified on values (RecvState, Receive, Deliver, DeliverAll) and the
 * Receiver class follows those functions statement by statement.
 */
module Receiver {
  import opened Wrappers
  import opened SeqNum
  import opened Checksum
  import opened Frames
  import opened Framing
  import Sender

  /** The receiver's state, with the ACK frames that reached the connection. */
  datatype RecvState = RecvState(expected: int, last: Option<int>, message: seq<seq<bv8>>,
                                 acks: seq<Frame>, running: bool)

  /** The module-level initial values, with `last_accepted_seq = None`. */
  const Initial: RecvState := RecvState(0, None, [], [], true)

  /**
   * `send_ack(conn, n)`: the ACK frame reaches the connection unless `simulate_loss`
   * drops it. At most one frame arrives, and what the sender's `from_json` makes of
   * it is an ACK for n with no payload and no checksum.
   */
  function AckOut(n: int, lost: bool): (r: seq<Frame>)
    ensures |r| <= 1
    ensures lost <==> r == []
    ensures forall a | a in r ::
      var d := FromRecord(ToRecord(a));
      d.Success? && d.value.frameType == ACK && d.value.seqNum == n && d.value.data.None? && d.value.crc.None?
  {
    if lost then [] else [AckFrame(n)]
  }

  /**
   * The handling of one decoded frame. `lost` is the loss draw of the one ACK the
   * frame may cause. A DATA frame without a payload makes `.encode` fail, and the
   * general exception handler stops the receiver.
   */
  function Receive(st: RecvState, f: Frame, lost: bool): RecvState {
    if f.frameType != DATA then st
    else if f.data.None? then st.(running := false)
    else if !VerifyCrc8(f.data.value, f.crc) then st.(acks := st.acks + AckOut(st.expected, lost))
    else if f.seqNum == st.expected then
      var st' := if st.last != Some(st.expected) then
                   st.(message := st.message + [f.data.value], last := Some(st.expected))
                 else st;
      var next := SeqAdd(st'.expected, 1);
      st'.(expected := next, acks := st'.acks + AckOut(next, lost))
    else st.(acks := st.acks + AckOut(st.expected, lost))
  }

  /**
   * What the receiver keeps true: `expected_seq_num` counts the accepted chunks
   * modulo MAX_SEQ_NUM + 1, and `last_accepted_seq` is None before the first accepted
   * chunk and the number just before `expected_seq_num` after it.
   */
  ghost predicate Consistent(st: RecvState) {
    && st.expected == SeqAdd(0, |st.message|)
    && (st.last.Some? <==> |st.message| > 0)
    && (st.last.Some? ==> InRange(st.last.value) && SeqAdd(st.last.value, 1) == st.expected)
  }

  lemma InitialConsistent()
    ensures Consistent(Initial)
    ensures Initial.expected == 0 && Initial.last == None && Initial.message == [] && Initial.running
  {
  }

  /** Under the invariant the duplicate branch (`last_accepted_seq == expected_seq_num`) is never taken. */
  lemma DuplicateNeverTaken(st: RecvState)
    requires Consistent(st)
    ensures st.last != Some(st.expected)
  {
    if st.last.Some? {
      var l := st.last.value;
      SeqAddSmall(l, 1);
    }
  }

  /** Every frame keeps the invariant. */
  lemma ReceiveConsistent(st: RecvState, f: Frame, lost: bool)
    requires Consistent(st)
    ensures Consistent(Receive(st, f, lost))
  {
    DuplicateNeverTaken(st);
    SeqAddAssoc(0, |st.message|, 1);
  }

  /**
   * A DATA frame whose checksum fails changes neither the expected number, the last
   * accepted number nor the message, and ACKs the expected number again.
   */
  lemma CrcMismatchReAcks(st: RecvState, f: Frame, lost: bool)
    requires f.frameType == DATA && f.data.Some? && !VerifyCrc8(f.data.value, f.crc)
    ensures var r := Receive(st, f, lost);
      && r.expected == st.expected && r.last == st.last && r.message == st.message && r.running == st.running
      && r.acks == st.acks + AckOut(st.expected, lost)
  {
  }

  /**
   * A valid in-order frame is accepted: its payload is appended once, the old
   * expected number becomes the last accepted one, the expected number advances by
   * one, and the ACK carries the new expected number.
   */
  lemma InOrderAccepted(st: RecvState, f: Frame, lost: bool)
    requires Consistent(st)
    requires f.frameType == DATA && f.data.Some? && VerifyCrc8(f.data.value, f.crc) && f.seqNum == st.expected
    ensures var r := Receive(st, f, lost);
      && r.message == st.message + [f.data.value]
      && r.last == Some(st.expected)
      && r.expected == SeqAdd(st.expected, 1)
      && r.acks == st.acks + AckOut(SeqAdd(st.expected, 1), lost)
      && r.running == st.running
  {
    DuplicateNeverTaken(st);
  }

  /** A valid frame with another sequence number changes nothing but re-ACKs the expected number. */
  lemma OutOfOrderReAcks(st: RecvState, f: Frame, lost: bool)
    requires f.frameType == DATA && f.data.Some? && VerifyCrc8(f.data.value, f.crc) && f.seqNum != st.expected
    ensures Receive(st, f, lost) == st.(acks := st.acks + AckOut(st.expected, lost))
  {
  }

  /** A frame that is not DATA changes nothing and produces no ACK. */
  lemma NonDataIgnored(st: RecvState, f: Frame, lost: bool)
    requires f.frameType != DATA
    ensures Receive(st, f, lost) == st
  {
  }

  /**
   * The message is append-only: it grows by the frame's payload exactly when the
   * frame is a valid in-order DATA frame, and is left as it was otherwise.
   */
  lemma ReceiveAppends(st: RecvState, f: Frame, lost: bool)
    requires Consistent(st)
    ensures var r := Receive(st, f, lost);
      var accepted := f.frameType == DATA && f.data.Some? && VerifyCrc8(f.data.value, f.crc) && f.seqNum == st.expected;
      && (accepted ==> r.message == st.message + [f.data.value])
      && (!accepted ==> r.message == st.message)
  {
    DuplicateNeverTaken(st);
  }

  /**
   * Every ACK the receiver sends is cumulative: it carries the number of chunks
   * accepted so far, modulo MAX_SEQ_NUM + 1.
   */
  lemma AckIsCumulative(st: RecvState, f: Frame, lost: bool)
    requires Consistent(st)
    ensures var r := Receive(st, f, lost);
      forall i | |st.acks| <= i < |r.acks| :: r.acks[i] == AckFrame(SeqAdd(0, |r.message|))
  {
    ReceiveConsistent(st, f, lost);
  }

  // ---------------------------------------------------------------------------
  // Go-Back-N delivery

  /**
   * The stream property that the sequence-number space makes possible: if the
   * message so far is the first chunks of the sender's stream, and the frame is the
   * transmission (intact or corrupted) of chunk j numbered `SeqAdd(0, j)` with j
   * less than a full cycle of sequence numbers away from the next chunk wanted,
   * then after the frame the message is still a prefix of the stream.
   */
  lemma DeliversStreamPrefix(st: RecvState, chunks: seq<seq<bv8>>, j: nat, fault: Sender.Fault, lost: bool)
    requires Consistent(st)
    requires |st.message| <= |chunks| && st.message == chunks[..|st.message|]
    requires j < |chunks| && |st.message| - MAX_SEQ_NUM <= j <= |st.message| + MAX_SEQ_NUM
    requires Sender.Send(Sender.DataFrame(SeqAdd(0, j), chunks[j]), fault).Some?
    ensures var r := Receive(st, Sender.Send(Sender.DataFrame(SeqAdd(0, j), chunks[j]), fault).value, lost);
      |r.message| <= |chunks| && r.message == chunks[..|r.message|]
  {
    var n := |st.message|;
    var w := Sender.Send(Sender.DataFrame(SeqAdd(0, j), chunks[j]), fault);
    var f := w.value;
    Sender.AcceptedIsIntact(SeqAdd(0, j), chunks[j], fault);
    ReceiveAppends(st, f, lost);
    if f.frameType == DATA && f.data.Some? && VerifyCrc8(f.data.value, f.crc) && f.seqNum == st.expected {
      assert f == Sender.DataFrame(SeqAdd(0, j), chunks[j]);
      SameNumberSameIndex(j, n);
      assert chunks[..n + 1] == chunks[..n] + [chunks[n]];
    }
  }

  /**
   * With `simulate_error` as written the receiver can take a damaged chunk: the
   * first chunk "aA", hit in the top bit of 'A', is sent as "a" under the checksum
   * of "aA", which matches, so "a" is accepted and ACKed as if it were the chunk.
   */
  lemma DamagedChunkDelivered()
    ensures var chunk: seq<bv8> := [0x61, 0x41];
      var w := Sender.CorruptAsWritten(Sender.DataFrame(0, chunk), Sender.Fault(false, true, 1, 7));
      var r := Receive(Initial, w, false);
      r.message == [[0x61]] && r.message[0] != chunk && r.acks == [AckFrame(1)]
  {
    RedecodedHitUndetected();
  }

  /** Two stream positions less than a cycle apart with the same sequence number are equal. */
  lemma SameNumberSameIndex(j: nat, n: nat)
    requires n - MAX_SEQ_NUM <= j <= n + MAX_SEQ_NUM
    requires SeqAdd(0, j) == SeqAdd(0, n)
    ensures j == n
  {
    var m := MAX_SEQ_NUM + 1;
    assert j == (j / m) * m + SeqAdd(0, j);
    assert n == (n / m) * m + SeqAdd(0, n);
    assert j - n == (j / m - n / m) * m;
  }

  // ---------------------------------------------------------------------------
  // One iteration of the main loop

  /** The decoding stage of the frame bytes. */
  datatype Body =
    | Truncated          // the connection closed before the frame was complete
    | NotJson            // `json.loads` raised JSONDecodeError
    | Unreadable         // `decode('utf-8')` raised UnicodeDecodeError, or the JSON value is not an object (TypeError in `from_json`)
    | Decoded(r: Record) // the decoded frame object

  /** What one iteration of the main loop reads: nothing (the peer closed), or a prefix and a frame body. */
  datatype Arrival = Closed | Arrived(prefix: string, body: Body)

  /**
   * One iteration of `while running`: a closed connection, a prefix `int()` cannot
   * read, a truncated frame, a body that is not UTF-8 or not a JSON object, and a
   * record without `seq_num` or `frame_type` stop the receiver (the general
   * exception handler); undecodable JSON is skipped; a decoded frame is handled by
   * Receive.
   */
  function Deliver(st: RecvState, a: Arrival, lost: bool): RecvState {
    match a
    case Closed => st.(running := false)
    case Arrived(prefix, body) =>
      if ParseLength(prefix).None? then st.(running := false)
      else match body
        case Truncated => st.(running := false)
        case NotJson => st
        case Unreadable => st.(running := false)
        case Decoded(r) =>
          match FromRecord(r)
          case Failure(_) => st.(running := false)
          case Success(f) => Receive(st, f, lost)
  }

  /** The loop over the arrivals, with the ACK loss draws `losses[i]`, until `running` is false. */
  function DeliverAll(st: RecvState, arrivals: seq<Arrival>, losses: seq<bool>): RecvState
    requires |losses| == |arrivals|
    decreases |arrivals|
  {
    if arrivals == [] || !st.running then st
    else DeliverAll(Deliver(st, arrivals[0], losses[0]), arrivals[1..], losses[1..])
  }

  /** An iteration keeps the invariant and leaves the old message as a prefix growing by at most one chunk. */
  lemma DeliverConsistent(st: RecvState, a: Arrival, lost: bool)
    requires Consistent(st)
    ensures var r := Deliver(st, a, lost);
      Consistent(r) && |st.message| <= |r.message| <= |st.message| + 1 && r.message[..|st.message|] == st.message
  {
    if a.Arrived? && ParseLength(a.prefix).Some? && a.body.Decoded? && FromRecord(a.body.r).Success? {
      var f := FromRecord(a.body.r).value;
      ReceiveConsistent(st, f, lost);
      ReceiveAppends(st, f, lost);
    }
  }

  /**
   * Over a whole session the invariant holds, the message only grows (the old one
   * stays a prefix), and it grows by at most one chunk per arrival.
   */
  lemma {:induction false} DeliverAllConsistent(st: RecvState, arrivals: seq<Arrival>, losses: seq<bool>)
    requires Consistent(st) && |losses| == |arrivals|
    ensures var r := DeliverAll(st, arrivals, losses);
      && Consistent(r)
      && |st.message| <= |r.message| <= |st.message| + |arrivals|
      && r.message[..|st.message|] == st.message
    decreases |arrivals|
  {
    if arrivals != [] && st.running {
      var mid := Deliver(st, arrivals[0], losses[0]);
      DeliverConsistent(st, arrivals[0], losses[0]);
      DeliverAllConsistent(mid, arrivals[1..], losses[1..]);
      var r := DeliverAll(mid, arrivals[1..], losses[1..]);
      assert r.message[..|st.message|] == r.message[..|mid.message|][..|st.message|];
    }
  }

  /**
   * A session read in two parts is the session read whole, and once the receiver
   * has stopped, later arrivals change nothing.
   */
  lemma {:induction false} DeliverAllSplit(st: RecvState, a1: seq<Arrival>, l1: seq<bool>, a2: seq<Arrival>, l2: seq<bool>)
    requires |l1| == |a1| && |l2| == |a2|
    ensures DeliverAll(st, a1 + a2, l1 + l2) == DeliverAll(DeliverAll(st, a1, l1), a2, l2)
    ensures !DeliverAll(st, a1, l1).running ==> DeliverAll(st, a1 + a2, l1 + l2) == DeliverAll(st, a1, l1)
    decreases |a1|
  {
    if a1 == [] {
      assert a1 + a2 == a2 && l1 + l2 == l2;
    } else if st.running {
      assert (a1 + a2)[1..] == a1[1..] + a2 && (l1 + l2)[1..] == l1[1..] + l2;
      DeliverAllSplit(Deliver(st, a1[0], l1[0]), a1[1..], l1[1..], a2, l2);
    }
  }

  // ---------------------------------------------------------------------------
  // The receiver as a state machine

  class Receiver {
    var expectedSeqNum: int
    var lastAcceptedSeq: Option<int>
    var receivedMessage: seq<seq<bv8>>
    /** The ACK frames that reached the connection, in order. */
    var acksSent: seq<Frame>
    var running: bool

    function Snapshot(): RecvState
      reads this
    {
      RecvState(expectedSeqNum, lastAcceptedSeq, receivedMessage, acksSent, running)
    }

    ghost predicate Valid()
      reads this
    {
      Consistent(Snapshot())
    }

    constructor ()
      ensures Snapshot() == Initial && Valid()
    {
      expectedSeqNum := 0;
      lastAcceptedSeq := None;
      receivedMessage := [];
      acksSent := [];
      running := true;
    }

    /** `send_ack(conn, ack_num)`, with the loss draw as a parameter. */
    method SendAck(ackNum: int, lost: bool)
      modifies this`acksSent
      ensures acksSent == old(acksSent) + AckOut(ackNum, lost)
    {
      if !lost {
        acksSent := acksSent + [AckFrame(ackNum)];
      }
    }

    /** The handling of one decoded frame in the main loop. */
    method HandleFrame(f: Frame, lost: bool)
      requires Valid()
      modifies this
      ensures Valid()
      ensures Snapshot() == Receive(old(Snapshot()), f, lost)
    {
      ReceiveConsistent(Snapshot(), f, lost);
      if f.frameType == DATA {
        if f.data.None? {
          running := false;
          return;
        }
        var crc := CalculateCrc8(f.data.value);
        if f.crc != Some(crc as int) {
          SendAck(expectedSeqNum, lost);
          return;
        }
        if f.seqNum == expectedSeqNum {
          if lastAcceptedSeq != Some(expectedSeqNum) {
            receivedMessage := receivedMessage + [f.data.value];
            lastAcceptedSeq := Some(expectedSeqNum);
          }
          expectedSeqNum := SeqAdd(expectedSeqNum, 1);
          SendAck(expectedSeqNum, lost);
        } else {
          SendAck(expectedSeqNum, lost);
        }
      }
    }

    /** One iteration of the main loop, with its exception handlers. */
    method HandleArrival(a: Arrival, lost: bool)
      requires Valid()
      modifies this
      ensures Valid()
      ensures Snapshot() == Deliver(old(Snapshot()), a, lost)
    {
      match a
      case Closed =>
        running := false;
      case Arrived(prefix, body) =>
        var len := ParseLength(prefix);
        if len.None? {
          running := false;
          return;
        }
        match body
        case Truncated =>
          running := false;
        case NotJson =>
        case Unreadable =>
          running := false;
        case Decoded(r) =>
          var decoded := FromRecord(r);
          if decoded.Failure? {
            running := false;
          } else {
            HandleFrame(decoded.value, lost);
          }
    }

    /** `while running:` over the arrivals, `losses[i]` being the ACK loss draw of arrival i. */
    method Run(arrivals: seq<Arrival>, losses: seq<bool>)
      requires Valid() && |losses| == |arrivals|
      modifies this
      ensures Valid()
      ensures Snapshot() == DeliverAll(old(Snapshot()), arrivals, losses)
    {
      var i := 0;
      while i < |arrivals| && running
        invariant 0 <= i <= |arrivals|
        invariant Valid()
        invariant DeliverAll(Snapshot(), arrivals[i..], losses[i..]) == DeliverAll(old(Snapshot()), arrivals, losses)
        decreases |arrivals| - i
      {
        assert arrivals[i..][1..] == arrivals[i + 1..];
        assert losses[i..][1..] == losses[i + 1..];
        HandleArrival(arrivals[i], losses[i]);
        i := i + 1;
      }
    }
  }
}
