/** The bit-timer interrupt of the receiver (mod_isr and resetCode): it
  * waits for a first 1-bit, then records every bit it is handed into a
  * two-byte buffer and, every FrameBits bits, compares the buffer with the
  * release code and fires the trigger on a match.
  *
  * DecoderState and Step are the behaviour of one call on abstract
  * values; the class Decoder is the interrupt handler on the byte buffer,
  * proved to follow Step. */
module FrameDecoder {
  import opened Bits

  /** codeByteLength */
  const CodeByteLength: nat := 2
  /** Number of buffer bits the comparison looks at. */
  const CodeBits: nat := CodeByteLength * 8
  /** A frame is complete when bitCount reaches codeByteLength*8+1. */
  const FrameBits: nat := CodeBits + 1
  /** startCode, the agreed release code. */
  const StartCode: seq<bv8> := [0xAA, 0xAA]

  /** What one call of the bit interrupt decided. */
  datatype Outcome = None | Accept | Reject

  /** The decoder's state as values: whether the sync bit has been seen
    * (start_check) and the bits recorded so far in the current frame
    * (bitCount of them, position 0 first). */
  datatype DecoderState = DecoderState(synced: bool, frame: seq<bool>)

  /** The state at power-up. */
  const Idle: DecoderState := DecoderState(false, [])

  /** The states the decoder can be in between two calls. */
  predicate Wf(s: DecoderState)
  {
    |s.frame| <= CodeBits && (!s.synced ==> s.frame == [])
  }

  /** (value at) bit k of the release code, as the buffer stores it. */
  function CodeBit(k: nat): (bit: bool)
    requires k < CodeBits
  {
    Bit(StartCode[k / 8], k % 8)
  }

  /** The comparison: recorded bit k equals bit k % 8 of startCode[k / 8]
    * for every k below CodeBits. Position CodeBits is not looked at. */
  function MatchesStartCode(frame: seq<bool>): (m: bool)
    requires |frame| >= CodeBits
    ensures m <==> frame[..CodeBits] == BitsOf(StartCode, CodeBits)
  {
    forall k :: 0 <= k < CodeBits ==> frame[k] == CodeBit(k)
  }

  /** One call of mod_isr on the abstract state, with the bit read from the pin. */
  function Step(s: DecoderState, b: bool): (r: (DecoderState, Outcome))
    requires Wf(s)
    ensures Wf(r.0)
    ensures r.0.synced == (s.synced || b)
  {
    if !s.synced && !b then (s, None)
    else
      var frame := s.frame + [b];
      if |frame| == FrameBits then
        (DecoderState(true, []), if MatchesStartCode(frame) then Accept else Reject)
      else
        (DecoderState(true, frame), None)
  }

  /** Successive calls of mod_isr, one per bit of `bits`. */
  function Run(s: DecoderState, bits: seq<bool>): (r: (DecoderState, seq<Outcome>))
    requires Wf(s)
    ensures Wf(r.0) && |r.1| == |bits|
    ensures r.0.synced <==> s.synced || true in bits
    decreases |bits|
  {
    if bits == [] then (s, [])
    else
      var first := Step(s, bits[0]);
      var rest := Run(first.0, bits[1..]);
      assert bits == [bits[0]] + bits[1..];
      (rest.0, [first.1] + rest.1)
  }

  /** Run on a bit followed by more bits. */
  lemma RunCons(s: DecoderState, b: bool, bits: seq<bool>)
    requires Wf(s)
    ensures Run(s, [b] + bits) == (Run(Step(s, b).0, bits).0, [Step(s, b).1] + Run(Step(s, b).0, bits).1)
  {
    assert ([b] + bits)[0] == b && ([b] + bits)[1..] == bits;
  }

  /** Run on a single bit is one Step. */
  lemma RunOne(s: DecoderState, b: bool)
    requires Wf(s)
    ensures Run(s, [b]) == (Step(s, b).0, [Step(s, b).1])
  {
    RunCons(s, b, []);
    assert [b] + [] == [b];
    assert Run(Step(s, b).0, []) == (Step(s, b).0, []);
    assert [Step(s, b).1] + [] == [Step(s, b).1];
  }

  /** How many outcomes are Accept, that is, how often releaseTrigger ran. */
  function Accepts(os: seq<Outcome>): (n: nat)
    ensures n <= |os|
  {
    if os == [] then 0 else (if os[0] == Accept then 1 else 0) + Accepts(os[1..])
  }

  /** n outcomes None. */
  function Nones(n: nat): (r: seq<Outcome>)
    ensures |r| == n && forall i :: 0 <= i < n ==> r[i] == None
  {
    seq(n, i => None)
  }

  /** n zero bits. */
  function Zeros(n: nat): (r: seq<bool>)
    ensures |r| == n && forall i :: 0 <= i < n ==> !r[i]
  {
    seq(n, i => false)
  }

  // ---------------------------------------------------------------------
  // Synchronisation

  /** Before synchronisation a 0 bit changes nothing; the first 1 bit
    * synchronises and is itself recorded at position 0. */
  lemma SyncBit(b: bool)
    ensures Step(Idle, b) == (if b then DecoderState(true, [true]) else Idle, None)
  {
    assert [] + [true] == [true];
  }

  /** Run over a concatenation is Run over the parts in turn. */
  lemma {:induction false} RunAppend(s: DecoderState, a: seq<bool>, b: seq<bool>)
    requires Wf(s)
    ensures Run(s, a + b) == (Run(Run(s, a).0, b).0, Run(s, a).1 + Run(Run(s, a).0, b).1)
    decreases |a|
  {
    if a != [] {
      var s1 := Step(s, a[0]).0;
      assert a + b == [a[0]] + (a[1..] + b) && a == [a[0]] + a[1..];
      RunCons(s, a[0], a[1..] + b);
      RunCons(s, a[0], a[1..]);
      RunAppend(s1, a[1..], b);
      var o := Step(s, a[0]).1;
      var mid := Run(s1, a[1..]);
      assert Run(s, a + b) == (Run(s1, a[1..] + b).0, [o] + Run(s1, a[1..] + b).1);
      assert Run(s, a) == (mid.0, [o] + mid.1);
      assert Run(s1, a[1..] + b) == (Run(mid.0, b).0, mid.1 + Run(mid.0, b).1);
      assert [o] + (mid.1 + Run(mid.0, b).1) == ([o] + mid.1) + Run(mid.0, b).1;
    } else {
      assert a + b == b && Run(s, a).1 + Run(s, b).1 == Run(s, b).1;
    }
  }

  /** Accepts distributes over concatenation. */
  lemma {:induction false} AcceptsAppend(x: seq<Outcome>, y: seq<Outcome>)
    ensures Accepts(x + y) == Accepts(x) + Accepts(y)
    decreases |x|
  {
    if x != [] {
      assert (x + y)[0] == x[0] && (x + y)[1..] == x[1..] + y;
      AcceptsAppend(x[1..], y);
    } else {
      assert x + y == y;
    }
  }

  /** Zero bits before synchronisation are ignored. */
  lemma {:induction false} IdleIgnoresZeros(n: nat)
    ensures Run(Idle, Zeros(n)) == (Idle, Nones(n))
  {
    if n > 0 {
      assert Zeros(n)[1..] == Zeros(n - 1);
      IdleIgnoresZeros(n - 1);
      assert Nones(n) == [None] + Nones(n - 1);
    }
  }

  // ---------------------------------------------------------------------
  // Frame timing and the decision

  /** Inside a frame, bits are only recorded: no decision is made before
    * the frame is complete. */
  lemma {:induction false} RunPartial(s: DecoderState, bits: seq<bool>)
    requires Wf(s) && s.synced && |s.frame| + |bits| <= CodeBits
    ensures Run(s, bits) == (DecoderState(true, s.frame + bits), Nones(|bits|))
    decreases |bits|
  {
    if bits == [] {
      assert s.frame + bits == s.frame;
    } else {
      var s1 := DecoderState(true, s.frame + [bits[0]]);
      assert Step(s, bits[0]) == (s1, None);
      RunPartial(s1, bits[1..]);
      assert s1.frame + bits[1..] == s.frame + bits;
      assert Nones(|bits|) == [None] + Nones(|bits| - 1);
    }
  }

  /** The outcome of a complete frame. */
  function FrameOutcomes(f: seq<bool>): (r: seq<Outcome>)
    requires |f| == FrameBits
    ensures |r| == FrameBits
  {
    Nones(CodeBits) + [if MatchesStartCode(f) then Accept else Reject]
  }

  /** From a synchronised state at a frame boundary, FrameBits bits give
    * FrameBits-1 Nones and then exactly one decision, Accept iff the bits
    * match the release code, and bring the decoder back to a frame
    * boundary. */
  lemma {:induction false} RunFrame(f: seq<bool>)
    requires |f| == FrameBits
    ensures Run(DecoderState(true, []), f) == (DecoderState(true, []), FrameOutcomes(f))
  {
    var s0 := DecoderState(true, []);
    assert f == f[..CodeBits] + [f[CodeBits]];
    RunAppend(s0, f[..CodeBits], [f[CodeBits]]);
    RunPartial(s0, f[..CodeBits]);
    assert [] + f[..CodeBits] == f[..CodeBits];
    var s1 := DecoderState(true, f[..CodeBits]);
    RunOne(s1, f[CodeBits]);
    assert s1.frame + [f[CodeBits]] == f;
  }

  /** Once synchronised, a decision is made on exactly every FrameBits-th
    * bit: outcome i is a decision iff the bit it records is the last of a
    * frame. The frame in progress afterwards holds the remaining bits. */
  lemma {:induction false} DecisionTiming(s: DecoderState, bits: seq<bool>)
    requires Wf(s) && s.synced
    ensures |Run(s, bits).0.frame| == (|s.frame| + |bits|) % FrameBits
    ensures forall i :: 0 <= i < |bits| ==>
              (Run(s, bits).1[i] != None <==> (|s.frame| + i + 1) % FrameBits == 0)
    decreases |bits|
  {
    if bits != [] {
      var (s1, o) := Step(s, bits[0]);
      DecisionTiming(s1, bits[1..]);
      var n := |s.frame|;
      assert |s1.frame| == (n + 1) % FrameBits;
      assert o != None <==> (n + 1) % FrameBits == 0;
      forall i | 1 <= i < |bits|
        ensures (Run(s, bits).1[i] != None <==> (n + i + 1) % FrameBits == 0)
      {
        assert Run(s, bits).1[i] == Run(s1, bits[1..]).1[i - 1];
        ModShift(n, i);
      }
      ModShift(n, |bits|);
    }
  }

  /** (n + 1) % m + k and n + 1 + k agree modulo m. */
  lemma ModShift(n: nat, k: nat)
    ensures ((n + 1) % FrameBits + k) % FrameBits == (n + 1 + k) % FrameBits
  {
  }

  /** The whole-frame concatenation of a list of frames. */
  function Flatten(frames: seq<seq<bool>>): (r: seq<bool>)
    requires forall i :: 0 <= i < |frames| ==> |frames[i]| == FrameBits
    ensures |r| == FrameBits * |frames|
  {
    if frames == [] then [] else frames[0] + Flatten(frames[1..])
  }

  /** How many frames of the list match the release code. */
  function MatchingFrames(frames: seq<seq<bool>>): (n: nat)
    requires forall i :: 0 <= i < |frames| ==> |frames[i]| == FrameBits
    ensures n <= |frames|
  {
    if frames == [] then 0
    else (if MatchesStartCode(frames[0]) then 1 else 0) + MatchingFrames(frames[1..])
  }

  /** Once synchronised at a frame boundary, releaseTrigger runs exactly
    * once per received frame that matches the release code and never
    * otherwise, and the decoder ends at a frame boundary. */
  lemma {:induction false} ReleasesPerMatchingFrame(frames: seq<seq<bool>>)
    requires forall i :: 0 <= i < |frames| ==> |frames[i]| == FrameBits
    ensures Run(DecoderState(true, []), Flatten(frames)).0 == DecoderState(true, [])
    ensures Accepts(Run(DecoderState(true, []), Flatten(frames)).1) == MatchingFrames(frames)
  {
    var s0 := DecoderState(true, []);
    if frames != [] {
      RunAppend(s0, frames[0], Flatten(frames[1..]));
      RunFrame(frames[0]);
      ReleasesPerMatchingFrame(frames[1..]);
      var os0 := FrameOutcomes(frames[0]);
      AcceptsAppend(os0, Run(s0, Flatten(frames[1..])).1);
      AcceptsAppend(Nones(CodeBits), [os0[CodeBits]]);
      NonesAccepts(CodeBits);
      assert Accepts([os0[CodeBits]]) == if os0[CodeBits] == Accept then 1 else 0;
    }
  }

  /** Nothing in a run of Nones is an Accept. */
  lemma {:induction false} NonesAccepts(n: nat)
    ensures Accepts(Nones(n)) == 0
  {
    if n > 0 {
      assert Nones(n)[1..] == Nones(n - 1);
      NonesAccepts(n - 1);
    }
  }

  // ---------------------------------------------------------------------
  // Which frames are accepted

  /** The decision depends only on positions 0..CodeBits-1: the bit at
    * position CodeBits (the one stored past the end of the buffer) never
    * changes it. */
  lemma LastBitIgnored(f: seq<bool>, g: seq<bool>)
    requires |f| == |g| == FrameBits && f[..CodeBits] == g[..CodeBits]
    ensures MatchesStartCode(f) == MatchesStartCode(g)
  {
    assert forall k :: 0 <= k < CodeBits ==> f[k] == f[..CodeBits][k] && g[k] == g[..CodeBits][k];
  }

  /** The frames accepted with startCode = {0xAA, 0xAA}: positions
    * 0..CodeBits-1 must read 0,1,0,1,...; the last position is free. */
  lemma {:induction false} AcceptedPattern(f: seq<bool>)
    requires |f| == FrameBits
    ensures MatchesStartCode(f) <==> forall k :: 0 <= k < CodeBits ==> f[k] == (k % 2 == 1)
  {
    forall k | 0 <= k < CodeBits
      ensures CodeBit(k) == (k % 2 == 1)
    {
      AaBit(k % 8);
    }
  }

  /** Bit j of 0xAA is set exactly for odd j. */
  lemma AaBit(j: nat)
    requires j < 8
    ensures Bit(0xAA, j) == (j % 2 == 1)
  {
  }

  /** A frame whose position 0 holds a 1 never matches, since bit 0 of
    * 0xAA is 0. */
  lemma SyncLeadRejected(frame: seq<bool>)
    requires |frame| >= CodeBits && frame[0]
    ensures !MatchesStartCode(frame)
  {
    AaBit(0);
    assert !CodeBit(0);
  }

  /** The first frame after synchronisation is always rejected: its
    * position 0 holds the sync 1, while bit 0 of 0xAA is 0. */
  lemma {:induction false} SyncFrameRejected(rest: seq<bool>)
    requires |rest| == CodeBits
    ensures Run(Idle, [true] + rest) == (DecoderState(true, []), Nones(CodeBits) + [Reject])
  {
    var s1 := DecoderState(true, [true]);
    SyncBit(true);
    RunCons(Idle, true, rest);
    var head := rest[..CodeBits - 1];
    var last := rest[CodeBits - 1];
    assert rest == head + [last];
    RunAppend(s1, head, [last]);
    RunPartial(s1, head);
    var s2 := DecoderState(true, [true] + head);
    RunOne(s2, last);
    assert (s2.frame + [last])[0];
    SyncLeadRejected(s2.frame + [last]);
    assert Nones(CodeBits) + [Reject] == [None] + (Nones(CodeBits - 1) + [Reject]);
  }

  /** Leading zero bits before the sync bit are ignored, so the first frame
    * of any bit stream is rejected. */
  lemma {:induction false} FirstFrameRejected(n: nat, rest: seq<bool>)
    requires |rest| == CodeBits
    ensures Run(Idle, Zeros(n) + [true] + rest) == (DecoderState(true, []), Nones(n + CodeBits) + [Reject])
  {
    var f := [true] + rest;
    assert Zeros(n) + [true] + rest == Zeros(n) + f;
    RunAppend(Idle, Zeros(n), f);
    IdleIgnoresZeros(n);
    SyncFrameRejected(rest);
    assert Nones(n + CodeBits) + [Reject] == Nones(n) + (Nones(CodeBits) + [Reject]);
  }

  /** Encoding a code into a frame the way the buffer reads it (bit k is
    * bit k % 8 of byte k / 8, any last bit) and decoding it gives Accept
    * exactly for the release code. */
  lemma {:induction false} EncodedCodeAccepted(code: seq<bv8>, last: bool)
    requires |code| == CodeByteLength
    ensures MatchesStartCode(BitsOf(code, CodeBits) + [last]) <==> code == StartCode
  {
    var f := BitsOf(code, CodeBits) + [last];
    BytesEqIffBitsEq(code, StartCode);
    if MatchesStartCode(f) {
      assert BitsOf(code, CodeBits) == BitsOf(StartCode, CodeBits) by {
        forall k | 0 <= k < CodeBits
          ensures BitsOf(code, CodeBits)[k] == BitsOf(StartCode, CodeBits)[k]
        {
          assert f[k] == CodeBit(k);
        }
      }
    }
  }

  /** A transmission of the release code is accepted only as the second
    * frame: the sync 1 and the next CodeBits bits form a rejected first
    * frame, and the release code's own bits, with any last bit, then
    * give exactly one Accept. */
  lemma {:induction false} ReleaseAfterFirstFrame(rest: seq<bool>, last: bool)
    requires |rest| == CodeBits
    ensures Run(Idle, [true] + rest + (BitsOf(StartCode, CodeBits) + [last])) ==
              (DecoderState(true, []), Nones(CodeBits) + [Reject] + (Nones(CodeBits) + [Accept]))
  {
    var f := BitsOf(StartCode, CodeBits) + [last];
    RunAppend(Idle, [true] + rest, f);
    SyncFrameRejected(rest);
    RunFrame(f);
    EncodedCodeAccepted(StartCode, last);
  }

  // ---------------------------------------------------------------------
  // The interrupt handler on the byte buffer

  /** bitSet when b holds, bitClear otherwise: the two branches at the
    * recording step. */
  function BitWrite(x: bv8, i: nat, b: bool): (r: bv8)
    requires i < 8
    ensures Bit(r, i) == b
    ensures forall j :: 0 <= j < 8 && j != i ==> Bit(r, j) == Bit(x, j)
  {
    if b then BitSet(x, i) else BitClear(x, i)
  }

  /** Recording a bit at cursor k < CodeBits into a buffer whose bits from
    * k on are zero appends that bit to the recorded frame and keeps the
    * bits after it zero. */
  lemma {:induction false} RecordStep(a: seq<bv8>, k: nat, b: bool)
    requires |a| == CodeByteLength && k < CodeBits
    requires forall p :: k <= p < CodeBits ==> !Bit(a[p / 8], p % 8)
    ensures BitsOf(a[k / 8 := BitWrite(a[k / 8], k % 8, b)], k + 1) == BitsOf(a, k) + [b]
    ensures forall p :: k + 1 <= p < CodeBits ==>
              !Bit(a[k / 8 := BitWrite(a[k / 8], k % 8, b)][p / 8], p % 8)
  {
    var a' := a[k / 8 := BitWrite(a[k / 8], k % 8, b)];
    forall p | 0 <= p < CodeBits && p != k
      ensures Bit(a'[p / 8], p % 8) == Bit(a[p / 8], p % 8)
    {
      if p / 8 == k / 8 {
        assert p % 8 != k % 8;
      }
    }
    assert BitsOf(a', k + 1)[k] == b;
  }

  /** The buffer holds exactly the bits of the frame in progress. */
  lemma {:induction false} DecisionIsMemcmp(a: seq<bv8>, b: bool)
    requires |a| == CodeByteLength
    ensures Memcmp(a, StartCode, CodeByteLength) == 0 <==> MatchesStartCode(BitsOf(a, CodeBits) + [b])
  {
    assert a[..CodeByteLength] == a && StartCode[..CodeByteLength] == StartCode;
    EncodedCodeAccepted(a, b);
  }

  /** An all-zero buffer has no bit set. */
  lemma ZeroBuffer(a: seq<bv8>)
    requires forall i :: 0 <= i < |a| ==> a[i] == 0
    ensures forall p :: 0 <= p < 8 * |a| ==> !Bit(a[p / 8], p % 8)
  {
    forall p | 0 <= p < 8 * |a|
      ensures !Bit(a[p / 8], p % 8)
    {
      ZeroByte(a[p / 8]);
    }
  }

  /** The globals of mod_isr: receivedCode, bitCount, start_check; the
    * byte just past receivedCode (reached by the write at cursor
    * CodeBits) is the field overrun; releases counts releaseTrigger calls. */
  class Decoder {
    var receivedCode: array<bv8>
    var overrun: bv8
    var bitCount: nat
    var startCheck: bool
    var releases: nat

    /** Between calls: the cursor is at most CodeBits, it is zero before
      * synchronisation, and no buffer bit at or after the cursor is set. */
    ghost predicate Valid()
      reads this, receivedCode
    {
      receivedCode.Length == CodeByteLength && bitCount <= CodeBits &&
      (!startCheck ==> bitCount == 0) &&
      forall p :: bitCount <= p < CodeBits ==> !Bit(receivedCode[p / 8], p % 8)
    }

    /** The decoder's state as values. */
    ghost function State(): (s: DecoderState)
      reads this, receivedCode
      requires Valid()
      ensures Wf(s)
    {
      DecoderState(startCheck, BitsOf(receivedCode[..], bitCount))
    }

    /** Power-up: the globals are zero-initialised; `adjacent` is whatever
      * the byte after receivedCode holds. */
    constructor (adjacent: bv8)
      ensures Valid() && State() == Idle && fresh(receivedCode)
      ensures receivedCode[..] == [0, 0] && overrun == adjacent && releases == 0
    {
      receivedCode := new bv8[CodeByteLength](_ => 0);
      overrun := adjacent;
      bitCount := 0;
      startCheck := false;
      releases := 0;
      new;
      ZeroBuffer(receivedCode[..]);
    }

    /** receivedCode[index] as the C code reads it, for index up to one
      * past the end; index CodeByteLength is the byte overrun. */
    function Cell(index: nat): (v: bv8)
      reads this, receivedCode
      requires index <= receivedCode.Length
      ensures index < receivedCode.Length ==> v == receivedCode[index]
      ensures index == receivedCode.Length ==> v == overrun
    {
      if index < receivedCode.Length then receivedCode[index] else overrun
    }

    /** receivedCode[index] = v, for index up to one past the end. */
    method StoreCell(index: nat, v: bv8)
      requires index <= receivedCode.Length
      modifies this`overrun, receivedCode
      ensures index < receivedCode.Length ==>
                receivedCode[..] == old(receivedCode[..])[index := v] && overrun == old(overrun)
      ensures index == receivedCode.Length ==>
                receivedCode[..] == old(receivedCode[..]) && overrun == v
    {
      if index < receivedCode.Length {
        receivedCode[index] := v;
      } else {
        overrun := v;
      }
    }

    /** memset(receivedCode, 0, sizeof(receivedCode)). */
    method ZeroCode()
      modifies receivedCode
      ensures forall i :: 0 <= i < receivedCode.Length ==> receivedCode[i] == 0
    {
      forall i | 0 <= i < receivedCode.Length {
        receivedCode[i] := 0;
      }
    }

    /** Record one bit at the cursor: bit bitCount % 8 of byte bitCount / 8
      * becomes b, every other bit is unchanged, and the cursor advances by
      * one. At cursor CodeBits the byte written is the one past the end. */
    method RecordBit(b: bool)
      requires receivedCode.Length == CodeByteLength && bitCount <= CodeBits
      modifies this`bitCount, this`overrun, receivedCode
      ensures bitCount == old(bitCount) + 1
      ensures old(bitCount) < CodeBits ==>
                receivedCode[..] == old(receivedCode[..])[old(bitCount) / 8 :=
                  BitWrite(old(receivedCode[bitCount / 8]), old(bitCount) % 8, b)] &&
                overrun == old(overrun)
      ensures old(bitCount) == CodeBits ==>
                receivedCode[..] == old(receivedCode[..]) && overrun == BitWrite(old(overrun), 0, b)
    {
      if b {
        StoreCell(bitCount / 8, BitSet(Cell(bitCount / 8), bitCount % 8));
        bitCount := bitCount + 1;
      } else {
        StoreCell(bitCount / 8, BitClear(Cell(bitCount / 8), bitCount % 8));
        bitCount := bitCount + 1;
      }
    }

    /** resetCode: the cursor and the buffer go back to zero; start_check
      * and the byte past the end are not touched. */
    method ResetCode()
      requires receivedCode.Length == CodeByteLength
      modifies this`bitCount, receivedCode
      ensures Valid() && bitCount == 0 && receivedCode[..] == [0, 0]
    {
      bitCount := 0;
      ZeroCode();
      ZeroBuffer(receivedCode[..]);
    }

    /** releaseTrigger, seen only as one activation of the actuator. */
    method ReleaseTrigger()
      modifies this`releases
      ensures releases == old(releases) + 1
    {
      releases := releases + 1;
    }

    /** mod_isr with the pin level read at its start as currBit. */
    method ModIsr(currBit: bool) returns (outcome: Outcome)
      requires Valid()
      modifies this, receivedCode
      ensures Valid() && receivedCode == old(receivedCode)
      ensures (State(), outcome) == Step(old(State()), currBit)
      ensures releases == old(releases) + (if outcome == Accept then 1 else 0)
      ensures outcome != None ==> bitCount == 0 && receivedCode[..] == [0, 0]
      ensures overrun == if (old(startCheck) || currBit) && old(bitCount) == CodeBits
                         then BitWrite(old(overrun), 0, currBit) else old(overrun)
    {
      ghost var s := State();
      if currBit && !startCheck {
        startCheck := true;
        ZeroCode();
        ZeroBuffer(receivedCode[..]);
      }
      ghost var before := receivedCode[..];
      if startCheck {
        ghost var k := bitCount;
        RecordBit(currBit);
        if k < CodeBits {
          RecordStep(before, k, currBit);
        }
      }
      outcome := None;
      if bitCount == FrameBits {
        DecisionIsMemcmp(receivedCode[..], currBit);
        assert BitsOf(receivedCode[..], CodeBits) + [currBit] == s.frame + [currBit];
        if Memcmp(receivedCode[..], StartCode, CodeByteLength) == 0 {
          ReleaseTrigger();
          ResetCode();
          outcome := Accept;
        } else {
          ResetCode();
          outcome := Reject;
        }
      } else if bitCount > CodeBits {
        // The overflow guard, where the source calls resetCode(): the
        // cursor never passes FrameBits, and FrameBits is handled just
        // above, so the branch is dead and holds nothing checkable.
        assert false;
      }
    }
  }
}
