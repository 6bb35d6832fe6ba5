# BFSK receiver core (OpenModem, Teensy 4.0)

A Dafny model of the two interrupt handlers at the heart of the OpenModem
binary-FSK receiver (`BFSK/teensy_FSK/BFSKrx.h`):

- **The bit interrupt**, `mod_isr` with `resetCode`. It is modelled in
  `frame_decoder.dfy` as the class `FrameDecoder.Decoder`. The class holds
  `receivedCode` (a two-byte `array<bv8>`), `bitCount`, `start_check`, a
  counter of `releaseTrigger` activations, and the byte just past the end of
  `receivedCode`. That extra byte is the field `overrun`, and it is written
  when the cursor is at 16. `Decoder.ModIsr` is proved to follow the pure
  step function `FrameDecoder.Step`, which works on the value
  `DecoderState(synced, frame)`. `Run` repeats `Step` over a bit stream. The
  frame-level properties (timing, acceptance, the first frame, the accepted
  pattern) are lemmas about `Step` and `Run`.
- **The sampling interrupt**, `adc_isr`. It is modelled in `tone_detector.dfy`
  as the class `ToneDetector.Detector`. The method has the source's loop over
  the two tones, the shared counter `buffer_adc_0_count`, and the threshold
  slicer that drives `digitalOutPin1`. The Goertzel update and magnitude are
  written on `real` values. The proofs are about the scheduler (the functions
  `CountAt`, `Finalises` and `Finalisers`) and about the slicer (`Slice`).
- `bits.dfy` (module `Bits`) holds the byte-level operations:
  - `BitSet` and `BitClear`, the two Arduino macros `mod_isr` calls, numbered from the least significant bit;
  - `Memcmp`, the C library comparison `mod_isr` calls;
  - `Bit`, a bitRead-style reading of one bit, used to state the contracts (the source never calls `bitRead`);
  - the reading of a byte buffer as a bit string, where bit k is bit k % 8 of byte k / 8.

The two handlers talk through the output pin. In the model this is a plain
value: `Detector.pin` is what `Decoder.ModIsr`'s argument `currBit` stands for.

What the code does, as proved here:
- Before the first 1-bit, 0-bits change nothing.
- The first 1-bit sets `start_check` and is itself stored at position 0.
  `start_check` is never cleared.
- From then on every bit is stored, and a decision is made on exactly every
  17th bit. `releaseTrigger` runs once for each 17-bit frame whose first 16
  bits equal the bits of `startCode`, and never otherwise.
- With `startCode = {0xAA, 0xAA}`, the frames accepted are exactly those
  whose first 16 bits are 0,1,0,1,…. The 17th bit is free, and it is written
  to `receivedCode[2]`, one byte past the array.
- The first frame after synchronisation starts with the sync 1, so it is
  always rejected.
- The decoder's overflow branch is unreachable.
- In `adc_isr` the two tones never finalise in the same call. They
  finalise alternately: the counter's parity names the next tone to
  finalise. Tone 1 follows tone 0 after 199 calls, and tone 0 follows
  tone 1 after 200 calls.

A tidier reading of the receiver would behave differently in four places;
the model follows the code as written:
- A tidier reading would reset the sync flag along with the buffer. The
  code's `resetCode` never clears `start_check`.
- A tidier reading would send each byte MSB-first after the sync bit and
  accept the stream `1,1,0,1,0,1,…,0`. The code stores bit k
  at `1 << (k % 8)` of byte k / 8 and compares position 0 (the sync bit)
  with bit 0 of `0xAA`, which is 0. So that stream is rejected
  (`SyncFrameRejected`), and the release code is accepted only as a later
  frame (`ReleaseAfterFirstFrame`).
- A tidier reading would have both tone filters finish their windows in
  lockstep. The code shares one counter between the tones, so they finish alternately
  (`OneFinaliserPerCall`, `Alternation`).
- A tidier reading would have an Overflow outcome. The code's guard
  (`bitCount > codeByteLength*8`, checked after the `== codeByteLength*8+1`
  case) can never fire. In the model that branch is `assert false`, and
  `Outcome` has only `None`, `Accept` and `Reject`.

## Model

| member | source | states |
|---|---|---|
| `Bits.BitSet` | BFSK/teensy_FSK/BFSKrx.h:365 | bitSet: the chosen bit becomes 1 and the other seven bits are unchanged |
| `Bits.BitClear` | BFSK/teensy_FSK/BFSKrx.h:371 | bitClear: the chosen bit becomes 0 and the other seven bits are unchanged |
| `Bits.ByteExt` | BFSK/teensy_FSK/BFSKrx.h:386 | two bytes with the same eight bits are the same byte |
| `Bits.ZeroByte` | BFSK/teensy_FSK/BFSKrx.h:359 | a byte is 0 iff none of its bits is set |
| `Bits.BytesEqIffBitsEq` | BFSK/teensy_FSK/BFSKrx.h:386 | two byte strings are equal iff their bit strings are equal, both directions |
| `Bits.Memcmp` | BFSK/teensy_FSK/BFSKrx.h:386-391 | memcmp is 0 iff the first n bytes agree; a negative or positive result comes from the first differing byte being smaller or larger |
| `FrameDecoder.MatchesStartCode` | BFSK/teensy_FSK/BFSKrx.h:386 | the comparison at frame level: a frame matches iff its first 16 bits are the bits of startCode, read LSB-first; position 16 is not looked at |
| `FrameDecoder.SyncLeadRejected` | BFSK/teensy_FSK/BFSKrx.h:356-386 | a frame with a 1 at position 0 never matches, since bit 0 of 0xAA is 0 |
| `FrameDecoder.Step` | BFSK/teensy_FSK/BFSKrx.h:356-400 | one mod_isr call on abstract state: it keeps the reachable states, and it is synchronised afterwards iff it was before or the bit is 1 |
| `FrameDecoder.Run` | BFSK/teensy_FSK/BFSKrx.h:356-363 | over a bit stream: one outcome per bit, and synchronised at the end iff synchronised before or some bit is 1, so start_check is never cleared |
| `FrameDecoder.SyncBit` | BFSK/teensy_FSK/BFSKrx.h:356-366 | before sync a 0 bit changes nothing; a 1 bit synchronises and is recorded at position 0 |
| `FrameDecoder.IdleIgnoresZeros` | BFSK/teensy_FSK/BFSKrx.h:356-363 | any number of 0 bits before sync leave the idle state and produce no decision |
| `FrameDecoder.RunAppend` | BFSK/teensy_FSK/BFSKrx.h:336-401 | running over two bit streams in a row equals running over the first and then the second from where it left off |
| `FrameDecoder.RunPartial` | BFSK/teensy_FSK/BFSKrx.h:363-398 | while a frame is incomplete, each bit is appended to the recorded frame and no decision is made |
| `FrameDecoder.RunFrame` | BFSK/teensy_FSK/BFSKrx.h:385-394 | from a frame boundary, 17 bits give 16 Nones then Accept iff the frame matches startCode, otherwise Reject, and return to a frame boundary |
| `FrameDecoder.DecisionTiming` | BFSK/teensy_FSK/BFSKrx.h:363-397 | once synchronised, outcome i is a decision iff it completes a 17-bit frame; the frame in progress afterwards has (length + bits) mod 17 bits |
| `FrameDecoder.ReleasesPerMatchingFrame` | BFSK/teensy_FSK/BFSKrx.h:385-406 | over any sequence of 17-bit frames, the number of Accepts (releaseTrigger calls) equals the number of frames matching startCode |
| `FrameDecoder.LastBitIgnored` | BFSK/teensy_FSK/BFSKrx.h:385-386 | frames that agree on positions 0..15 get the same decision: position 16 is ignored |
| `FrameDecoder.AaBit` | BFSK/teensy_FSK/BFSKrx.h:106-107 | bit j of 0xAA is set iff j is odd |
| `FrameDecoder.AcceptedPattern` | BFSK/teensy_FSK/BFSKrx.h:103-108 | with startCode {0xAA, 0xAA}, a frame is accepted iff positions 0..15 read 0,1,0,1,... |
| `FrameDecoder.SyncFrameRejected` | BFSK/teensy_FSK/BFSKrx.h:356-394 | the sync 1 followed by any 16 bits is rejected, because position 0 holds 1 and bit 0 of 0xAA is 0 |
| `FrameDecoder.FirstFrameRejected` | BFSK/teensy_FSK/BFSKrx.h:356-394 | any number of leading 0 bits, then the sync 1 and 16 more bits: the first decision is Reject and the decoder is at a frame boundary |
| `FrameDecoder.EncodedCodeAccepted` | BFSK/teensy_FSK/BFSKrx.h:364-386 | a two-byte code written into a frame LSB-first, with any 17th bit, is accepted iff it is startCode |
| `FrameDecoder.ReleaseAfterFirstFrame` | BFSK/teensy_FSK/BFSKrx.h:356-406 | sync bit, 16 bits, then startCode's bits and any last bit: one Reject, then exactly one Accept |
| `FrameDecoder.BitWrite` | BFSK/teensy_FSK/BFSKrx.h:364-373 | the recording branch: the bit at the cursor becomes currBit and the other seven bits are unchanged |
| `FrameDecoder.RecordStep` | BFSK/teensy_FSK/BFSKrx.h:364-373 | storing bit b at cursor k inside the buffer extends the recorded bits by exactly b, and the bits after it stay zero |
| `FrameDecoder.DecisionIsMemcmp` | BFSK/teensy_FSK/BFSKrx.h:386-391 | memcmp of the buffer with startCode is 0 iff the recorded frame matches startCode bit by bit |
| `FrameDecoder.ZeroBuffer` | BFSK/teensy_FSK/BFSKrx.h:405 | an all-zero buffer has no recorded bit set |
| `FrameDecoder.Decoder.State` | BFSK/teensy_FSK/BFSKrx.h:85-102 | the abstract value of the globals is always a reachable decoder state |
| `FrameDecoder.Decoder.constructor` | BFSK/teensy_FSK/BFSKrx.h:85-102 | power-up: zeroed buffer, cursor 0, not synchronised, no release |
| `FrameDecoder.Decoder.Cell` | BFSK/teensy_FSK/BFSKrx.h:365-371 | the read of receivedCode[bitCount/8] inside bitSet/bitClear: inside the array it is that element, and at index 2, one past the end, it is the byte `overrun`; its requires `index <= receivedCode.Length`, checked at every call in `RecordBit`, is the proof that index 2 is the only out-of-bounds index mod_isr ever reaches |
| `FrameDecoder.Decoder.StoreCell` | BFSK/teensy_FSK/BFSKrx.h:365-371 | a write to receivedCode[index]: inside the array it changes that element only, and at index 2 it changes only the byte past the end; its requires `index <= receivedCode.Length`, checked at every call in `RecordBit`, proves no write lands further than one byte past the array |
| `FrameDecoder.Decoder.ZeroCode` | BFSK/teensy_FSK/BFSKrx.h:359 | memset: every byte of receivedCode becomes 0 |
| `FrameDecoder.Decoder.RecordBit` | BFSK/teensy_FSK/BFSKrx.h:364-373 | sets or clears bit bitCount%8 of byte bitCount/8 to currBit and increments bitCount by one; at cursor 16 the byte past the end is written and the array is untouched |
| `FrameDecoder.Decoder.ResetCode` | BFSK/teensy_FSK/BFSKrx.h:403-406 | bitCount becomes 0 and both bytes become 0; start_check and the byte past the end are untouched |
| `FrameDecoder.Decoder.ReleaseTrigger` | BFSK/teensy_FSK/BFSKrx.h:408-424 | one more actuator activation |
| `FrameDecoder.Decoder.ModIsr` | BFSK/teensy_FSK/BFSKrx.h:336-401 | follows Step exactly; keeps 0 <= bitCount <= 16 and bitCount > 0 ==> start_check; releaseTrigger runs iff the outcome is Accept; after a decision bitCount is 0 and the buffer is zero; the 17th bit goes to the byte past the end; the overflow branch is unreachable |
| `ToneDetector.CountAt` | BFSK/teensy_FSK/BFSKrx.h:259-277 | the shared counter at each tone's turn, and after the call, stays in [0, BUFFER_SIZE*N_FSK-2] |
| `ToneDetector.Finalises` | BFSK/teensy_FSK/BFSKrx.h:261-268 | the per-tone branch test: tone i takes the finalise branch iff it is tone 0 with counter 398 or tone 1 with counter 397 |
| `ToneDetector.OneFinaliserPerCall` | BFSK/teensy_FSK/BFSKrx.h:259-277 | at most one tone finalises per call: tone 0 iff the counter is 398, tone 1 iff it is 397 |
| `ToneDetector.FinaliserParity` | BFSK/teensy_FSK/BFSKrx.h:259-277 | a tone t finalises only when t is the counter's parity, and the parity then flips; otherwise the counter grows by exactly two |
| `ToneDetector.Finalisers` | BFSK/teensy_FSK/BFSKrx.h:259-277 | the tones finalising over n calls, at most one per call |
| `ToneDetector.Alternation` | BFSK/teensy_FSK/BFSKrx.h:259-277 | finalisations over any number of calls alternate between tone 0 and tone 1, starting with the counter's parity |
| `ToneDetector.AlternatesCons` | BFSK/teensy_FSK/BFSKrx.h:259-277 | a tone put in front of an alternating list that starts with the other tone keeps it alternating |
| `ToneDetector.NextFinalisation` | BFSK/teensy_FSK/BFSKrx.h:259-277 | from counter c the next finalisation is exactly at call (398 - c)/2 + 1, and it is tone c mod 2 |
| `ToneDetector.Slice` | BFSK/teensy_FSK/BFSKrx.h:280-292 | tone 0 dominant ==> pin 0, tone 1 dominant ==> pin 1, and the pin changes only when one tone dominates |
| `ToneDetector.DominanceExclusive` | BFSK/teensy_FSK/BFSKrx.h:280-284 | the two driving cases of the slicer cannot both hold |
| `ToneDetector.SliceHolds` | BFSK/teensy_FSK/BFSKrx.h:288-292 | a magnitude equal to the threshold, or both above, or both below, keeps the previous level; the slicer is idempotent |
| `ToneDetector.GoertzelStep` | BFSK/teensy_FSK/BFSKrx.h:262 | no contract: the filter update q0 = x + coeff*q1 - q2, left as plain real arithmetic on purpose |
| `ToneDetector.Magnitude` | BFSK/teensy_FSK/BFSKrx.h:271 | no contract: the magnitude q1*q1 + q2*q2 - q1*q2*coeff, left as plain real arithmetic on purpose |
| `ToneDetector.Detector.constructor` | BFSK/teensy_FSK/BFSKrx.h:141-142 | the coefficients are stored; filters, magnitudes and counter start at zero; the five arrays are new, so the detector just built can run `AdcIsr` |
| `ToneDetector.Detector.AdcIsr` | BFSK/teensy_FSK/BFSKrx.h:247-300 | the counter advances as CountAt says and stays in range; a finalising tone gets its magnitude and q1 = q2 = 0 and skips the sample; the other tone takes the Goertzel update; the pin follows Slice on the new magnitudes |

## Left out

- Hardware bring-up, which is register and NVIC writes to vendor peripherals: `BFSKrxADCSetup`, `BFSKrxStart`, `BFSKrxStop`, `BPSKrxStop`, `PIT_setup` and the `pinMode` calls (BFSKrx.h:137-139, 159-234, 310-326).
- `BFSKrxSetup`'s timer arithmetic (`usec`, `cycles`): a float-to-integer conversion used only to load a timer register. `package_length` and `outputValue` are never read.
- The Goertzel numerics are on `real`, so float rounding is not modelled. No claim is made about spectra or convergence.
- `releaseTrigger`'s 256 toggles with `delay(10)`: timing and actuation. It is modelled only as an activation counter.
- Serial debug output, the clearing of `PIT_TFLG0`, the `DSB` barrier, and all commented-out code.
- The ADC read (`readSingle`) is the parameter `adcVal`. The pin read at BFSKrx.h:343 is the parameter `currBit`.
- Concurrency between the two interrupts, and `volatile`. The pin is a plain value handed from `AdcIsr` to `ModIsr`, with no interleaving semantics.
- What lies in memory after `receivedCode` is not known. The model gives that byte its own field, `overrun`, whose initial value is a constructor parameter. The model does not capture what the C compiler and linker actually place there.
- `buffer_adc_0_count` is `uint16_t`. The counter is proved to stay within [0, 398], so its 16-bit wrap-around is never reached and is not modelled.
