/** The sampling interrupt of the receiver (adc_isr): two Goertzel filters,
  * one per FSK tone, share one sample counter; when the counter reaches
  * Limit the tone whose turn it is finalises its window instead of taking
  * the sample. After the loop a threshold slicer drives the output pin.
  *
  * The filter arithmetic is kept on `real` values; only the control
  * structure and the decision rule are the subject of the proofs. */
module ToneDetector {

  /** N_FSK */
  const NFsk: nat := 2
  /** BUFFER_SIZE */
  const BufferSize: nat := 200
  /** The counter value at which a tone finalises: BUFFER_SIZE*N_FSK-2. */
  const Limit: nat := BufferSize * NFsk - 2
  /** THRESHOLD_VALUE */
  const Threshold: real := 2000000.0

  // ---------------------------------------------------------------------
  // The window scheduler

  /** The shared counter when tone i takes its turn in the loop of one
    * call that started with counter c; CountAt(c, NFsk) is the counter
    * after the call. */
  function CountAt(c: int, i: nat): (r: int)
    requires 0 <= c <= Limit && i <= NFsk
    ensures 0 <= r <= Limit
    decreases i
  {
    if i == 0 then c
    else
      var p := CountAt(c, i - 1);
      if p < Limit then p + 1 else 0
  }

  /** Tone i finalises its window in a call that started with counter c. */
  function Finalises(c: int, i: nat): (f: bool)
    requires 0 <= c <= Limit && i < NFsk
    ensures f <==> (i == 0 && c == Limit) || (i == 1 && c == Limit - 1)
  {
    assert CountAt(c, 0) == c;
    assert CountAt(c, 1) == if c < Limit then c + 1 else 0;
    CountAt(c, i) >= Limit
  }

  /** At most one tone finalises per call; tone 0 finalises exactly when
    * the counter is Limit, tone 1 exactly when it is Limit - 1. */
  lemma OneFinaliserPerCall(c: int)
    requires 0 <= c <= Limit
    ensures !(Finalises(c, 0) && Finalises(c, 1))
    ensures Finalises(c, 0) <==> c == Limit
    ensures Finalises(c, 1) <==> c == Limit - 1
  {
  }

  /** The parity of the counter names the next tone to finalise: a tone t
    * finalises only when t == c % 2, and then the parity flips to the
    * other tone; a call in which nobody finalises keeps the parity. */
  lemma FinaliserParity(c: int)
    requires 0 <= c <= Limit
    ensures forall t :: 0 <= t < NFsk && Finalises(c, t) ==> t == c % 2 && CountAt(c, NFsk) % 2 == 1 - t
    ensures !Finalises(c, 0) && !Finalises(c, 1) ==> CountAt(c, NFsk) == c + 2
  {
  }

  /** The tones that finalise, in order, over n successive calls starting
    * with counter c. */
  function Finalisers(c: int, n: nat): (r: seq<nat>)
    requires 0 <= c <= Limit
    ensures |r| <= n
    decreases n
  {
    if n == 0 then []
    else
      (if Finalises(c, 0) then [0] else []) + (if Finalises(c, 1) then [1] else []) +
      Finalisers(CountAt(c, NFsk), n - 1)
  }

  /** Each entry names the other tone than the entry before it. */
  predicate Alternates(r: seq<nat>)
  {
    forall i :: 0 <= i < |r| - 1 ==> r[i] + r[i + 1] == 1
  }

  /** One call's contribution to Finalisers, by the counter it starts with. */
  lemma FinalisersUnfold(c: int, n: nat)
    requires 0 <= c <= Limit && n > 0
    ensures CountAt(c, NFsk) == if c == Limit then 1 else if c == Limit - 1 then 0 else c + 2
    ensures Finalisers(c, n) ==
              (if c == Limit then [0] else if c == Limit - 1 then [1] else []) +
              Finalisers(CountAt(c, NFsk), n - 1)
  {
    OneFinaliserPerCall(c);
  }

  /** Finalisations alternate between the two tones, starting with the
    * tone named by the counter's parity. */
  lemma {:induction false} Alternation(c: int, n: nat)
    requires 0 <= c <= Limit
    ensures |Finalisers(c, n)| > 0 ==> Finalisers(c, n)[0] == c % 2
    ensures Alternates(Finalisers(c, n))
    decreases n
  {
    if n > 0 {
      Alternation(CountAt(c, NFsk), n - 1);
      AlternationStep(c, n);
    }
  }

  /** The inductive step of Alternation: one call in front of n - 1 more. */
  lemma AlternationStep(c: int, n: nat)
    requires 0 <= c <= Limit && n > 0
    requires |Finalisers(CountAt(c, NFsk), n - 1)| > 0 ==>
               Finalisers(CountAt(c, NFsk), n - 1)[0] == CountAt(c, NFsk) % 2
    requires Alternates(Finalisers(CountAt(c, NFsk), n - 1))
    ensures |Finalisers(c, n)| > 0 ==> Finalisers(c, n)[0] == c % 2
    ensures Alternates(Finalisers(c, n))
  {
    FinalisersUnfold(c, n);
    var rest := Finalisers(CountAt(c, NFsk), n - 1);
    if c == Limit {
      AlternatesCons(0, rest);
    } else if c == Limit - 1 {
      AlternatesCons(1, rest);
    } else {
      assert [] + rest == rest;
    }
  }

  /** Putting t in front of an alternating list that starts with the
    * other tone keeps it alternating. */
  lemma AlternatesCons(t: nat, rest: seq<nat>)
    requires t < NFsk && Alternates(rest) && (|rest| > 0 ==> t + rest[0] == 1)
    ensures Alternates([t] + rest)
  {
    forall i | 0 <= i < |[t] + rest| - 1
      ensures ([t] + rest)[i] + ([t] + rest)[i + 1] == 1
    {
      if i > 0 {
        assert ([t] + rest)[i] == rest[i - 1];
      }
    }
  }

  /** The next finalisation comes exactly at call (Limit - c) / 2 + 1
    * from a call that starts with counter c, and it is tone c % 2. So
    * after tone 0 finalises (counter 1 next) tone 1 follows in 199
    * calls, after tone 1 (counter 0 next) tone 0 follows in 200 calls:
    * each tone's window spans 399 calls. */
  lemma {:induction false} NextFinalisation(c: int)
    requires 0 <= c <= Limit
    ensures Finalisers(c, (Limit - c) / 2) == []
    ensures Finalisers(c, (Limit - c) / 2 + 1) == [c % 2]
    decreases Limit - c
  {
    OneFinaliserPerCall(c);
    if c >= Limit - 1 {
      assert (Limit - c) / 2 == 0;
      assert Finalisers(CountAt(c, NFsk), 0) == [];
      if c == Limit {
        assert Finalisers(c, 1) == [0] + [];
      } else {
        assert Finalisers(c, 1) == [1];
      }
    } else {
      FinaliserParity(c);
      NextFinalisation(c + 2);
      assert (Limit - c) / 2 == (Limit - (c + 2)) / 2 + 1;
      assert Finalisers(c, (Limit - c) / 2) == Finalisers(c + 2, (Limit - c) / 2 - 1);
      assert Finalisers(c, (Limit - c) / 2 + 1) == Finalisers(c + 2, (Limit - c) / 2);
    }
  }

  // ---------------------------------------------------------------------
  // The threshold slicer

  /** The output pin after the slicer: 0 when tone 0 dominates, 1 when
    * tone 1 dominates, otherwise the previous level. */
  function Slice(mag0: real, mag1: real, prev: bool): (level: bool)
    ensures mag0 > Threshold && mag1 < Threshold ==> !level
    ensures mag1 > Threshold && mag0 < Threshold ==> level
    ensures level != prev ==> (mag0 > Threshold && mag1 < Threshold) || (mag1 > Threshold && mag0 < Threshold)
  {
    if mag0 > Threshold && mag1 < Threshold then false
    else if mag1 > Threshold && mag0 < Threshold then true
    else prev
  }

  /** The two driving cases cannot both hold. */
  lemma DominanceExclusive(mag0: real, mag1: real)
    ensures !((mag0 > Threshold && mag1 < Threshold) && (mag1 > Threshold && mag0 < Threshold))
  {
  }

  /** A magnitude exactly at the threshold (or both above, or both below)
    * keeps the previous level; applying the slicer again with the same
    * magnitudes changes nothing. */
  lemma SliceHolds(mag0: real, mag1: real, prev: bool)
    ensures mag0 == Threshold || mag1 == Threshold ==> Slice(mag0, mag1, prev) == prev
    ensures (mag0 > Threshold) == (mag1 > Threshold) ==> Slice(mag0, mag1, prev) == prev
    ensures Slice(mag0, mag1, Slice(mag0, mag1, prev)) == Slice(mag0, mag1, prev)
  {
  }

  // ---------------------------------------------------------------------
  // The interrupt handler

  /** One Goertzel update: q0 = x + coeff*q1 - q2, as plain real
    * arithmetic with no contract. */
  function GoertzelStep(x: real, coeff: real, q1: real, q2: real): (q0: real)
  {
    x + coeff * q1 - q2
  }

  /** The Goertzel magnitude of a finished window, as plain real
    * arithmetic with no contract. */
  function Magnitude(q1: real, q2: real, coeff: real): (mag: real)
  {
    q1 * q1 + q2 * q2 - q1 * q2 * coeff
  }

  /** What a tone's filter holds after a call, from what it held before
    * (q0, q1, q2, mag) and the sample x: a finalising tone has its
    * magnitude computed and q1 = q2 = 0, and does not take the sample;
    * any other tone takes x. */
  predicate ToneAfter(finalises: bool, x: real, coeff: real,
                      q0: real, q1: real, q2: real, mag: real,
                      q0': real, q1': real, q2': real, mag': real)
  {
    if finalises then
      mag' == Magnitude(q1, q2, coeff) && q1' == 0.0 && q2' == 0.0 && q0' == q0
    else
      q0' == GoertzelStep(x, coeff, q1, q2) && q1' == q0' && q2' == q1 && mag' == mag
  }

  /** The globals of adc_isr: the coefficients, the filter arrays, the
    * shared counter buffer_adc_0_count and the level of the output pin
    * that the bit interrupt reads. */
  class Detector {
    const coeff: array<real>
    const q0: array<real>
    const q1: array<real>
    const q2: array<real>
    const mag: array<real>
    var count: int
    var pin: bool

    ghost predicate Valid()
      reads this
    {
      coeff.Length == NFsk && q0.Length == NFsk && q1.Length == NFsk &&
      q2.Length == NFsk && mag.Length == NFsk &&
      q0 != q1 && q0 != q2 && q0 != mag && q1 != q2 && q1 != mag && q2 != mag &&
      coeff != q0 && coeff != q1 && coeff != q2 && coeff != mag &&
      0 <= count <= Limit
    }

    /** Zero-initialised globals, with the two coefficients stored by the
      * setup routine. */
    constructor (coeff0: real, coeff1: real)
      ensures Valid() && count == 0 && !pin
      ensures fresh(coeff) && fresh(q0) && fresh(q1) && fresh(q2) && fresh(mag)
      ensures coeff[..] == [coeff0, coeff1]
      ensures q0[..] == q1[..] == q2[..] == mag[..] == [0.0, 0.0]
    {
      coeff := new real[NFsk](i => if i == 0 then coeff0 else coeff1);
      q0 := new real[NFsk](_ => 0.0);
      q1 := new real[NFsk](_ => 0.0);
      q2 := new real[NFsk](_ => 0.0);
      mag := new real[NFsk](_ => 0.0);
      count := 0;
      pin := false;
    }

    /** adc_isr with the converted sample adcVal. */
    method AdcIsr(adcVal: bv8)
      requires Valid()
      modifies this, q0, q1, q2, mag
      ensures Valid()
      ensures count == CountAt(old(count), NFsk)
      ensures forall t :: 0 <= t < NFsk ==>
                ToneAfter(Finalises(old(count), t), adcVal as int as real, coeff[t],
                          old(q0[t]), old(q1[t]), old(q2[t]), old(mag[t]), q0[t], q1[t], q2[t], mag[t])
      ensures pin == Slice(mag[0], mag[1], old(pin))
    {
      ghost var c := count;
      for i := 0 to NFsk
        invariant Valid()
        invariant count == CountAt(c, i) && pin == old(pin)
        invariant forall t :: 0 <= t < i ==>
                    ToneAfter(Finalises(c, t), adcVal as int as real, coeff[t],
                              old(q0[t]), old(q1[t]), old(q2[t]), old(mag[t]), q0[t], q1[t], q2[t], mag[t])
        invariant forall t :: i <= t < NFsk ==>
                    q0[t] == old(q0[t]) && q1[t] == old(q1[t]) && q2[t] == old(q2[t]) && mag[t] == old(mag[t])
      {
        if count < Limit {
          q0[i] := GoertzelStep(adcVal as int as real, coeff[i], q1[i], q2[i]);
          q2[i] := q1[i];
          q1[i] := q0[i];
          count := count + 1;
        } else {
          count := 0;
          mag[i] := Magnitude(q1[i], q2[i], coeff[i]);
          q1[i] := 0.0;
          q2[i] := 0.0;
        }
      }
      if mag[0] > Threshold && mag[1] < Threshold {
        pin := false;
      } else if mag[1] > Threshold && mag[0] < Threshold {
        pin := true;
      }
    }
  }
}
