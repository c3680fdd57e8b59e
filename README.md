# Go-Back-N ARQ over a reliable stream, with simulated loss and corruption

This project models the core of a small Go-Back-N sliding-window protocol written in
Python, and proves properties of that model. The sender splits a message into chunks and
sends DATA frames, each protected by a CRC-8. It keeps up to `WINDOW_SIZE` = 4
unacknowledged frames in an ordered send buffer, with one timer per buffered frame. When
a timer expires it retransmits every buffered frame from that sequence number on.
Sequence numbers run modulo `MAX_SEQ_NUM + 1` = 8. The receiver accepts only the
in-order frame with a good checksum and answers every DATA frame with a cumulative ACK
carrying the next number it expects. Frames travel as JSON behind a ten-digit
zero-padded decimal length prefix. Before each transmission a fault injector may drop a
frame or flip one bit of its payload.

There are two sender variants. They share everything except the rule that moves the
window base when an ACK arrives:

- Arthur/sender.py jumps the base to any ACK that is progress.
- gemini/sender.py walks the base forward one step at a time.

The model has eight modules:

| module | file | contents |
|---|---|---|
| `Wrappers` | wrappers.dfy | `Option` and `Result` |
| `Checksum` | crc8.dfy | the bitwise CRC-8 (polynomial 0x07, initial value 0, most significant bit first), as a left fold `Crc8` and as the nested loop `CalculateCrc8`, plus `verify_crc8` |
| `Utf8` | utf8.dfy | what `bytes.decode('utf-8', errors='ignore')` keeps of a byte string |
| `Frames` | frames.dfy | the frame record, the `from_json` field rules and `simulate_error`, both as written and as corrected |
| `Framing` | framing.dfy | the length prefix: `str(n).zfill(10)` on the sending side, `int(s.strip())` on the reading side |
| `SeqNum` | seqnum.dfy | `seq_add`, `seq_greater_equal` and the modular walk of the ACK loops |
| `Sender` | sender.dfy | the sender state as a class. The fill loop, `retransmit_from`, the timers and both ACK rules are methods. Each method is proved equal to a function on a value snapshot (`SendState`), and the lemmas are about those functions. |
| `Receiver` | receiver.dfy | the receiver state as a class. Per-frame handling, `send_ack`, one iteration of the main loop and the loop itself are methods. They are specified by `Receive`, `Deliver` and `DeliverAll` on `RecvState`. |

How the model represents the parts of the program it does not execute:

- **Fault injection.** The random draws become parameters. A `Fault` gives the loss
  flag, the corruption flag, the byte index and the bit. A `faults` map holds the
  choices. The fill loop (`Passes`, `Fill`) keys it by chunk index. The retransmit
  family (`Retransmit`, `ResendAll`, `OnTimeout`) keys it by sequence number. `lost`
  flags give the ACK losses.
- **Timers.** A timer is a map entry from a sequence number to a fresh timer id.
  Cancelling and restarting a timer replaces the id. An expiry is the call
  `OnTimeout(k, id)`, which acts only if `id` is still the current timer of `k`.
- **The wire.** What reaches the connection is appended to a sequence of frames: `sent`
  on the sender, `acksSent` on the receiver.
- **Payloads.** A payload is the UTF-8 encoding of the frame's `data` string
  (`seq<bv8>`), the bytes its checksum is computed over. The re-decoding in
  `simulate_error` is modelled on those bytes by `Utf8.IgnoreInvalid`.

## Model

| member | source | states |
|---|---|---|
| Checksum.CalculateCrc8 | gemini/utils.py:56-70 | the byte loop with its eight-step shift loop computes exactly the left fold `Crc8`; the result is a byte (0..255), and the empty input gives 0x00 |
| Checksum.CrcSnoc | gemini/utils.py:62-69 | the CRC of `d + [b]` is eight shift-and-xor rounds applied to `crc(d) ^ b` |
| Checksum.CrcFromAppend | gemini/utils.py:62-69 | feeding a byte string in two parts is the same as feeding it whole |
| Checksum.CrcFromInjective | gemini/utils.py:62-69 | two different register values stay different after feeding the same bytes |
| Checksum.VerifyOwnCrc | gemini/utils.py:72-77 | `verify_crc8(d, calculate_crc8(d))` always holds |
| Checksum.ByteChangeDetected | gemini/utils.py:72-77 | changing any single byte of the data changes its CRC-8 |
| Checksum.StaleCrcRejected | gemini/utils.py:72-77 | data with one byte changed fails verification against the checksum of the original |
| Checksum.CheckValue | gemini/utils.py:56-70 | the CRC of ASCII "123456789" is 0xF4, the published check value of CRC-8 with polynomial 0x07 and initial value 0 |
| Frames.AckFrame | gemini/receiver.py:29 | the ACK the receiver builds reaches the sender, through `to_json` and `from_json`, as an ACK for the given number with no data and no crc |
| Frames.DecodeEncode | gemini/utils.py:35-45 | decoding the record that `to_json` writes gives the frame back |
| Frames.DecodeFields | gemini/utils.py:40-45 | decoding succeeds exactly when `seq_num` and `frame_type` are present; an absent `data` or `crc` becomes None; re-encoding gives the record back |
| Frames.FlipBit | gemini/utils.py:94-98 | the result has the same length, differs at the chosen index and equals the input everywhere else |
| Frames.FlipBitInvolution | gemini/utils.py:98 | flipping the same bit twice restores the data |
| Frames.FlipBitDetected | gemini/utils.py:94-99 | a payload with one flipped bit fails verification against its original checksum |
| Utf8.IgnoreInvalidShrinks | gemini/utils.py:100 | `decode('utf-8', errors='ignore')` only drops bytes: the result is never longer, and a result of the same length is the input itself |
| Utf8.IgnoreInvalidValid | gemini/utils.py:100 | what the decoding keeps decodes again to itself, so the string it yields always re-encodes without loss |
| Utf8.AsciiValid | gemini/utils.py:100 | ASCII text decodes to itself |
| Utf8.AsciiTopBitDropped | gemini/utils.py:97-100 | in ASCII text, a byte whose top bit is set is dropped by the decoding, and nothing else is |
| Frames.SimulateErrorEffect | gemini/utils.py:88-102 | `simulate_error` as written reports a hit exactly for a selected DATA frame. It leaves ACK frames, unselected frames and frames without payload unchanged, and never touches the sequence number, the type or the crc. On a hit the payload always changes and never grows, and it is again text that decodes to itself. When the flipped bytes still decode, it is exactly the input with the chosen bit flipped |
| Frames.SimulateByteErrorEffect | gemini/utils.py:88-99 | the corrected fault reports and keeps fields as `simulate_error` does; on a hit it changes only the chosen byte, by XOR with `1 << bit` |
| Frames.SimulatedErrorDetected | gemini/utils.py:88-99 | under the corrected fault, a DATA frame with a payload and a correct checksum fails verification once hit |
| Frames.DecodableHitDetected | gemini/utils.py:88-102 | as written, a hit whose flipped bytes still decode fails verification against the original checksum |
| Frames.AsciiLowBitHitDetected | gemini/utils.py:88-102 | as written, a hit in one of the low seven bits of an ASCII payload always fails verification |
| Frames.AsciiTopBitHitDeletes | gemini/utils.py:88-102 | as written, a hit in the top bit of an ASCII payload deletes the hit byte from the payload sent |
| Frames.RedecodedHitUndetected | gemini/utils.py:94-100 | as written, the payload "aA" hit in the top bit of 'A' is sent as "a", and "a" verifies against the checksum of "aA" |
| Framing.ZFill | Arthur/sender.py:44 | `zfill(width)` ends with the string itself, preceded by just enough '0' characters to reach `width`; a longer string is left as it is |
| Framing.DecimalString | Arthur/sender.py:44 | `str(n)` is a non-empty string of decimal digits |
| Framing.StripLeft | gemini/receiver.py:71 | the leading strip removes a prefix made only of whitespace and returns a suffix that does not start with whitespace |
| Framing.StripRight | gemini/receiver.py:71 | the trailing strip removes a suffix made only of whitespace and returns a prefix that does not end with whitespace |
| Framing.DecimalStringValue | gemini/receiver.py:71 | reading the digits of `str(n)` back gives n |
| Framing.LengthPrefixRoundTrip | gemini/receiver.py:71 | for 0 <= n < 10^10 the prefix that `send_ack` writes at gemini/receiver.py:39 is exactly ten characters, and `int(prefix.strip())` gives n back |
| Framing.LongFrameOverflowsPrefix | Arthur/sender.py:44 | a length of 10^10 or more gives a prefix longer than the ten characters the reader takes |
| SeqNum.SeqAdd | Arthur/sender.py:97-99 | `seq_add` always lands in 0..MAX_SEQ_NUM; the same function appears at gemini/sender.py:96-98 and gemini/receiver.py:21-23 |
| SeqNum.SeqGeReflexive | Arthur/sender.py:106-107 | `seq_greater_equal(a, a)` holds |
| SeqNum.SeqGeAntisymmetricTotal | Arthur/sender.py:101-114 | for a != b exactly one of `seq_ge(a, b)` and `seq_ge(b, a)` holds; the same function appears at gemini/sender.py:100-113 |
| SeqNum.SeqGeByDistance | Arthur/sender.py:109-114 | within the sequence space, `seq_ge(a, b)` for a != b holds exactly when a is at most half the circle ahead of b (ties at exactly half broken by a < b) |
| SeqNum.SeqGeSucc | Arthur/sender.py:101-114 | the successor of a number is ahead of it and not behind it |
| SeqNum.WalkedMembers | Arthur/sender.py:176-181 | n steps of the walk from b visit exactly the numbers less than n steps ahead of b |
| SeqNum.WalkedSize | Arthur/sender.py:176-181 | fewer than a full cycle of steps never visits a number twice |
| SeqNum.ClearedMembers | Arthur/sender.py:176-181 | the walk from base to ack visits exactly the numbers strictly before ack; it visits `Dist(base, ack)` of them, which is at most MAX_SEQ_NUM, so it takes at most MAX_SEQ_NUM + 1 steps; it includes base and excludes ack |
| Sender.Chunks | Arthur/sender.py:250-251 | over the message's characters: the chunks concatenate back to the message; each is non-empty and at most `chunk_size` characters long; all but the last are exactly `chunk_size` long (same at gemini/sender.py:246-247) |
| Sender.Send | Arthur/sender.py:22-53 | a lost frame produces nothing on the wire; otherwise the frame sent keeps its number, type and crc, and is the buffered frame itself when it is not corrupted |
| Sender.SendInPlace | Arthur/sender.py:26-36 | as written: a lost frame leaves nothing on the wire and the buffer as it was; otherwise the frame left in the buffer is the very frame that was sent, with its number, type and crc, and without corruption both are the buffered frame |
| Sender.Corrupt | gemini/utils.py:88-99 | the frame after the corrected fault keeps its number, type and crc, and is unchanged when not selected |
| Sender.CorruptAsWritten | gemini/utils.py:88-102 | the frame after `simulate_error` as written keeps its number, type and crc, and is unchanged when not selected |
| Sender.CorruptTransmissionDetected | Arthur/sender.py:29-36 | under the corrected fault, a corrupted transmission of a DATA frame with a payload and a good checksum reaches the receiver with a checksum that fails |
| Sender.AcceptedIsIntact | Arthur/sender.py:271-281 | in the corrected engine, whatever the faults, a DATA frame of the fill loop that arrives with a checksum that verifies is exactly the frame that was built |
| Sender.CorruptedPayloadResent | Arthur/sender.py:72-77 | as written: after an in-place corruption the buffered payload differs from the chunk for good, and the retransmission carries it; when anything of it is left, it goes under a recomputed checksum that verifies |
| Sender.RefreshVerifies | Arthur/sender.py:72-75 | after the recomputation the crc of a DATA frame with a payload matches the payload it holds |
| Sender.RefreshKeeps | Arthur/sender.py:72-75 | the recomputation touches only the crc, and does nothing to a frame whose crc is already correct |
| Sender.Filter | Arthur/sender.py:178-180 | deleting keys from the ordered buffer keeps exactly the other keys, in their order and without duplicates |
| Sender.ProgressWithinHalf | Arthur/sender.py:174 | a progress ACK is between 1 and half a cycle ahead of the base |
| Sender.JumpRemovesAcknowledged | Arthur/sender.py:174-186 | a progress ACK removes exactly the numbers from the base up to the ACK (exclusive) and moves the base to the ACK; any other ACK removes nothing and keeps the base |
| Sender.BaseMonotone | Arthur/sender.py:174-186 | in both variants the new base is the old one or ahead of it |
| Sender.JumpIdempotent | Arthur/sender.py:174-200 | handling the same ACK twice under the Arthur rule changes nothing the second time |
| Sender.VariantsAgreeOnProgress | gemini/sender.py:181-194 | for an ACK strictly ahead of the base both variants end with the base at the ACK, having removed the same numbers |
| Sender.VariantsAgreeOnStale | gemini/sender.py:186-199 | for an ACK with `seq_ge(ack, base)` false neither variant changes the base or removes anything |
| Sender.VariantsDivergeOnBaseAck | gemini/sender.py:181-199 | for an ACK equal to the base, the gemini loop removes the base and advances by one, while the Arthur rule changes nothing |
| Sender.StepwiseDropsUnacknowledged | gemini/sender.py:186-194 | as written: an ACK equal to the base removes a frame that ACK does not acknowledge; the ACK for base + 1, arriving after that loop has already moved the base to base + 1, is again an ACK equal to the base and removes frame base + 1 unacknowledged too |
| Sender.OutOfRangeAckNeverReached | Arthur/sender.py:174-181 | as written: the ACK -1 with base 3 passes the progress test, yet no number of `seq_add` steps from 3 reaches it |
| Sender.StepwiseOutOfRangeNeverBreaks | gemini/sender.py:181-199 | as written: an ACK of -4 or less compares ahead of every number in 0..7 and is never reached by `seq_add`, so the `while True` loop breaks neither way; ACKs from -3 to -1 or above 7 compare behind 0 |
| Sender.WalkRemove | Arthur/sender.py:176-181 | the `while current_seq_to_clear != ack_num` loop removes exactly the walked numbers from the buffer, its order and the timers |
| Sender.StepRemove | gemini/sender.py:181-199 | the `while True` loop terminates, ends with the base given by the gemini rule, and removes exactly the numbers that rule clears, from the buffer, its order and the timers |
| Sender.RemoveSetKeepsBuffered | Arthur/sender.py:176-181 | removing any set of numbers with their timers keeps the buffer well formed |
| Sender.PutBuffered | Arthur/sender.py:279-282 | inserting a frame and starting its timer, while the window has room, keeps the buffer well formed and within the window |
| Sender.Fill | Arthur/sender.py:271 | the fill loop stops only when the window is full or the chunks are exhausted, and never moves the chunk index back |
| Sender.FillStepwise | Arthur/sender.py:271-285 | the fill loop is the unrolling of one pass: build the frame, buffer it, send it, start its timer, advance the sequence number and the chunk index |
| Sender.FillShaped | Arthur/sender.py:271-285 | the fill loop never takes the buffer past `WINDOW_SIZE` and keeps every buffered frame keyed by its own number (same at gemini/sender.py:265-279) |
| Sender.FillCounts | Arthur/sender.py:284-285 | after sending m chunks, the sequence number has advanced by `seq_add(·, m)` and m timers were started |
| Sender.FillIntact | Arthur/sender.py:281 | without loss or corruption, the wire carries the DATA frames built for the chunks sent, in order |
| Sender.FillFreshCount | Arthur/sender.py:271-279 | when the numbers it assigns are free, the loop sends as many chunks as the window has room for, appends their numbers to the buffer order and keeps every old entry and timer |
| Sender.FillFreshNew | Arthur/sender.py:276-282 | the j-th new entry is keyed by `seq_add(seq, j)`, holds the DATA frame of chunk i + j with `crc == calculate_crc8(data)`, and has a newly started timer |
| Sender.ResendShaped | Arthur/sender.py:67-79 | resending one frame keeps the buffer well formed |
| Sender.RetransmitShaped | Arthur/sender.py:55-79 | `retransmit_from` keeps the buffer well formed |
| Sender.RetransmitKeeps | Arthur/sender.py:59-79 | `retransmit_from` keeps the set of buffer keys, the buffer order and the sequence number, and the timers stay keyed by the buffered numbers |
| Sender.RetransmitUntouched | Arthur/sender.py:62-64 | a frame before `start`, and its timer, are left as they were |
| Sender.RetransmitSelected | Arthur/sender.py:67-79 | every buffered frame at or after `start` has its crc recomputed over its current payload and its timer restarted with a new id (same at gemini/sender.py:66-78) |
| Sender.RetransmitWire | Arthur/sender.py:62-77 | without loss or corruption, the wire carries the recomputed selected frames in buffer order |
| Sender.ResentVerifies | Arthur/sender.py:72-76 | every retransmitted DATA frame with a payload has a checksum that verifies |
| Sender.Sender.constructor | Arthur/sender.py:14-17 | the initial state: sequence number 0, base 0, an empty buffer, no timers, nothing sent |
| Sender.Sender.StartTimer | Arthur/sender.py:81-89 | `start_timer` replaces any existing timer of the number with a new one |
| Sender.Sender.BufferPut | Arthur/sender.py:279 | `send_buffer[seq] = frame`: a new key goes last in the order, and an existing key keeps its place |
| Sender.Sender.SendFrame | Arthur/sender.py:22-53 | `send_frame` appends to the wire what `Send` produces for the buffered frame |
| Sender.Sender.SendChunk | Arthur/sender.py:272-285 | one pass of the fill loop yields exactly the state `FillStep` describes |
| Sender.Sender.FillWindow | Arthur/sender.py:271-285 | the fill loop keeps the invariant and ends in the state and chunk index `Fill` describes (same at gemini/sender.py:265-279) |
| Sender.Sender.RetransmitFrom | Arthur/sender.py:55-79 | `retransmit_from` keeps the invariant and ends in the state `Retransmit` describes over the buffer order (same at gemini/sender.py:54-78) |
| Sender.Sender.ResendAll | Arthur/sender.py:62-79 | the pass over the buffer order resends each selected frame in order |
| Sender.Sender.ResendFrame | Arthur/sender.py:68-79 | one frame: recompute its crc if it is DATA with a payload, send it, restart its timer |
| Sender.Sender.OnTimeout | Arthur/sender.py:87 | an expiry of the current timer of k runs `retransmit_from(k)`; an expiry of a replaced timer does nothing |
| Sender.Sender.HandleAckJump | Arthur/sender.py:174-194 | the Arthur ACK branch keeps the invariant, sets the base by the jump rule and removes exactly the cleared frames and timers, keeping the others in order; an empty buffer afterwards has no timers |
| Sender.Sender.HandleAckStepwise | gemini/sender.py:181-199 | the gemini ACK loop keeps the invariant, sets the base by the stepwise rule and removes exactly the numbers it walks over with their timers, keeping the others in order; an empty buffer afterwards has no timers |
| Receiver.AckOut | gemini/receiver.py:25-43 | `send_ack` puts at most one frame on the wire, none exactly when the loss draw drops it, and the sender's `from_json` reads what arrives as an ACK for n with no payload and no crc |
| Receiver.InitialConsistent | gemini/receiver.py:13-14 | the initial state (expected 0, nothing accepted, `last_accepted_seq = None` from line 48) satisfies the invariant |
| Receiver.DuplicateNeverTaken | gemini/receiver.py:100-106 | under the invariant `last_accepted_seq != expected_seq_num`, so the duplicate branch is never taken |
| Receiver.ReceiveConsistent | gemini/receiver.py:87-114 | every frame keeps the invariant: `expected_seq_num` is the count of accepted chunks modulo 8, and `last_accepted_seq` is the number just before it once a chunk has been accepted |
| Receiver.CrcMismatchReAcks | gemini/receiver.py:93-96 | a CRC mismatch leaves the expected number, the last accepted number and the message unchanged, and re-ACKs the expected number |
| Receiver.InOrderAccepted | gemini/receiver.py:99-107 | a valid in-order frame appends its payload once, makes the old expected number the last accepted one, advances the expected number by one and ACKs the new value |
| Receiver.OutOfOrderReAcks | gemini/receiver.py:108-112 | a valid frame with another number changes nothing but re-ACKs the expected number |
| Receiver.NonDataIgnored | gemini/receiver.py:113-114 | a frame that is not DATA changes nothing and produces no ACK |
| Receiver.ReceiveAppends | gemini/receiver.py:99-112 | the message grows by the payload exactly when the frame is a valid in-order DATA frame, and is unchanged otherwise |
| Receiver.AckIsCumulative | gemini/receiver.py:95-112 | every ACK sent carries the number of chunks accepted so far, modulo 8 |
| Receiver.DeliversStreamPrefix | gemini/receiver.py:93-107 | in the corrected engine, if the message so far is a prefix of the sender's chunks, then any transmission of chunk j (intact or corrupted, with j less than a cycle away) leaves the message a prefix of the chunks |
| Receiver.DamagedChunkDelivered | gemini/receiver.py:92-107 | as written: the first chunk "aA", hit in the top bit of 'A', arrives as "a" with a matching checksum and is accepted and ACKed |
| Receiver.SameNumberSameIndex | gemini/receiver.py:99 | two stream positions less than a cycle apart that carry the same sequence number are the same position |
| Receiver.DeliverConsistent | gemini/receiver.py:62-126 | one iteration keeps the invariant, and the old message stays a prefix, growing by at most one chunk |
| Receiver.DeliverAllConsistent | gemini/receiver.py:62-126 | over a whole session the invariant holds, and the message only grows, by at most one chunk per arrival |
| Receiver.DeliverAllSplit | gemini/receiver.py:62 | a session read in two parts is the session read whole, and after the receiver stops nothing changes |
| Receiver.Receiver.constructor | gemini/receiver.py:13-18 | the initial receiver state |
| Receiver.Receiver.SendAck | gemini/receiver.py:25-43 | `send_ack` appends the ACK frame to the wire unless it is lost |
| Receiver.Receiver.HandleFrame | gemini/receiver.py:87-114 | the per-frame handling keeps the invariant and yields exactly the state `Receive` describes |
| Receiver.Receiver.HandleArrival | gemini/receiver.py:64-126 | one iteration with its exception handlers yields the state `Deliver` describes: a closed connection, an unreadable prefix, a truncated frame, a body that is not UTF-8 or not a JSON object, or a missing key stops the receiver; undecodable JSON is skipped |
| Receiver.Receiver.Run | gemini/receiver.py:62-126 | `while running` over the arrivals yields the state `DeliverAll` describes |

## Left out

- **Sockets.** `connect`, `bind`, `accept`, `recv`, `sendall`, the time-outs and the
  partial-read loops are left out because they are I/O. A received frame arrives
  whole. The failed-send handlers (Arthur/sender.py:52-53, gemini/receiver.py:42-43) are
  not modelled.
- **Threads and the lock.** Every method runs as one atomic step. A timer that fires
  while another step is running is not modelled.
- **JSON and UTF-8.** `json.dumps`/`json.loads` and UTF-8 encoding are library calls.
  A payload is the UTF-8 bytes of its string, and the model does not encode
  characters to bytes itself. The one decoding the core relies on, `errors='ignore'` at
  gemini/utils.py:100, is modelled by `Utf8.IgnoreInvalid`. A JSON payload that is not a
  string is not modelled.
- **JSON null.** A record field is None when its key is absent or null. A present but
  null `seq_num` or `frame_type` is treated as missing.
- **Length prefix.** `ParseLength` accepts only decimal digits after stripping spaces.
  Python's `int()` also accepts a sign and underscores, so a prefix such as "-5" counts
  as an error here rather than as a zero-length frame.
- Framing.IsSpace: only the six C-locale whitespace characters are stripped. Python's
  `str.strip()` also strips the ASCII separators \x1c-\x1f and the other Unicode
  whitespace characters.
- **Sender main loop and ACK listener.** The outer `while running` loop of `main_sender`,
  `time.sleep`, the final wait for ACKs, logging and the message literal are left out.
  So are the listener's handling of non-ACK frames and of decode errors
  (Arthur/sender.py:205-220). Only the fill loop and the ACK branch are modelled.
- **client.py and server.py.** These are a separate stop-and-wait demo and a print loop.
- **Timer cancellation.** It is folded into replacing the timer id. `stop_timer` is the
  timer half of the buffer eviction (`Evict`). The stop-all-timers branch at
  Arthur/sender.py:191-194 is left out: both ACK handlers prove that an empty buffer has
  no timers, so the branch has nothing to stop.
- **Collect-then-send.** `retransmit_from` collects the selected frames and then sends
  them. The model does both in one pass over the buffer order. Sending never changes the
  buffer keys or their order, so the two give the same result.
- **The window invariant.** The invariant that the buffered numbers are exactly those from
  `expected_ack` up to `sequence_number` is not proved. `Sender.FillFreshCount` and
  `Sender.FillFreshNew` instead take as a hypothesis that the numbers the loop assigns
  are not already buffered. `Receiver.DeliversStreamPrefix` likewise takes as a
  hypothesis that the frame's stream position is less than a cycle away from the
  receiver's.
- Sender.Chunks: it is stated over any sequence, and the source applies it to the
  message's characters. The UTF-8 encoding of each chunk into payload bytes is not
  modelled: the engine takes the payloads as given, and a chunk of 512 characters can
  be up to 2048 bytes.
- Sender.DrawnIndex: a byte draw past the end of the payload is taken as the last byte,
  and the bit draw is taken modulo 8 (in `Corrupt` and `CorruptAsWritten`). This keeps
  every draw of the source reachable without a precondition on the draws.
- Sender.Send: the engine corrupts only the copy on the wire, not the frame object the
  buffer holds, and it keeps the damaged bytes rather than re-decoding them. Both are
  corrections (see Findings). `Sender.SendInPlace` models the code as written.
- Sender.CorruptTransmissionDetected: it holds for the corrected fault only. As written,
  a hit can delete bytes, and the shorter payload can verify (`Frames.RedecodedHitUndetected`).
- Sender.AcceptedIsIntact: it holds for the corrected engine only. As written, a damaged
  chunk can be accepted (`Receiver.DamagedChunkDelivered`).
- Receiver.DeliversStreamPrefix: it holds for the corrected engine only, for the same
  reason. It is the safety half only: one frame never breaks the stream prefix. Eventual
  delivery (with losses and retransmissions the receiver ends up with every chunk, in
  order, without gaps or duplicates) is not proved, and neither is any concrete
  session such as losing frame 2 once, having frames 3 to 5 discarded and re-ACKed with
  2, and after the timeout resending 2 to 5. The sender's `Fill` and `Retransmit` and
  the receiver's `DeliverAll` are never composed into one run.
- Sender.Sender.HandleAckJump: ACK numbers outside 0..MAX_SEQ_NUM are ignored. The source
  also ignores those that fail the progress test, and loops forever on those that pass
  it (see Findings).
- Sender.Sender.HandleAckStepwise: ACK numbers outside 0..MAX_SEQ_NUM are ignored. In
  the source, an ACK from -3 to -1 or above 7 walks the base forward, removing frames,
  until it reaches a number the ACK compares behind (0 at the latest). An ACK of -4 or
  less makes the loop run forever (see Findings). The receiver only ever sends ACKs in
  range.

## Findings

| source | as written | input that shows it | evidently intended | confidence | as-written member | corrected member |
|---|---|---|---|---|---|---|
| Arthur/sender.py:174-181 | an ACK passes `seq_greater_equal(ack, base) and ack != base` whenever it is "ahead" in the half-circle test, even if it is outside 0..7, and the clearing loop then runs until `current_seq_to_clear == ack` | base 3, ACK -1: `seq_ge(-1, 3)` holds, and `seq_add` never yields -1, so the loop never ends | treat only numbers in the sequence space as progress | medium, not executed (ACK frames carry no checksum, but the receiver only sends numbers in range) | Sender.OutOfRangeAckNeverReached | Sender.ProgressWithinHalf, Sender.JumpRemovesAcknowledged |
| gemini/sender.py:186-194 | an ACK equal to `expected_ack` passes `seq_greater_equal`, and the loop deletes the base frame and advances the base | base 2 with frame 2 buffered, the receiver re-ACKs 2 after a corrupted frame 2: frame 2 is deleted unacknowledged with its timer and is never retransmitted | an ACK equal to the base acknowledges nothing (the Arthur rule) | high, not executed | Sender.StepwiseDropsUnacknowledged, Sender.VariantsDivergeOnBaseAck | Sender.JumpRemovesAcknowledged, Sender.JumpIdempotent |
| gemini/sender.py:181-199 | the `while True` loop stops only when `seq_greater_equal(ack, expected_ack)` fails or `expected_ack == ack` | ACK -4 with any base: `seq_ge(-4, e)` holds for every e in 0..7, and `seq_add` never yields -4, so the loop never ends, holding the lock | treat only numbers in the sequence space as ACKs | medium, not executed (ACK frames carry no checksum, but the receiver only sends numbers in range) | Sender.StepwiseOutOfRangeNeverBreaks | Sender.StepRemove, Sender.Sender.HandleAckStepwise |
| gemini/utils.py:94-100 | after the bit flip the bytes are decoded with `errors='ignore'`, which drops the bytes that no longer form UTF-8, against the comment at line 99 that the corruption should be caught by the CRC | payload "aA" with its CRC, hit at byte 1, bit 7: 0xC1 is dropped, "a" is sent, and CRC-8 of "a" equals CRC-8 of "aA" (0x20), so the receiver accepts "a" as the chunk | the damaged bytes reach the receiver unchanged, so any hit fails the checksum | high, not executed | Frames.RedecodedHitUndetected, Frames.AsciiTopBitHitDeletes, Receiver.DamagedChunkDelivered | Frames.SimulateByteErrorEffect, Frames.SimulatedErrorDetected, Sender.AcceptedIsIntact |
| Arthur/sender.py:32-36, 72-75 | `simulate_error` flips a bit in the very frame object the buffer holds; on timeout `retransmit_from` recomputes the crc over that damaged payload | `DataFrame(0, [0x00])` corrupted at byte 0, bit 0: the buffer holds payload [0x01] with the old crc; the retransmission carries [0x01] with a crc that verifies, and the receiver accepts it | contested: the comments at Arthur/sender.py:29-35 say the error is a transmission error that the original crc lets the receiver detect, which points to corrupting the wire copy only, so the buffered frame stays as built and every accepted payload is the chunk; the comment at Arthur/sender.py:72-73 instead recomputes the crc on purpose for data the error simulation altered | plausible, not executed | Sender.CorruptedPayloadResent, Sender.SendInPlace | Sender.Send, Sender.AcceptedIsIntact, Sender.FillFreshNew |
