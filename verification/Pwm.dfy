/** The registers of the PWM part of rtl/audio_pwm.v, for a counter of any width. */
module Pwm {

  import opened GrayCode
  import opened Powers
  import opened PwmSpec

  class PwmOutput {
    const width: nat
    var counter: Bits
    var sample: Bits
    var out: bool

    ghost predicate Valid()
      reads this
    {
      width > 0 && |counter| == |sample| == width
    }

    /** The registers as numbers. */
    ghost function Value(): (s: State)
      requires Valid()
      reads this
      ensures Fits(width, s)
    {
      ToNatIsSmall(counter);
      ToNatIsSmall(sample);
      State(ToNat(counter), ToNat(sample), out)
    }

    constructor (width: nat)
      requires width > 0
      ensures Valid() && this.width == width && Value() == State(0, 0, false)
    {
      this.width, counter, sample, out := width, ToBits(width, 0), ToBits(width, 0), false;
      new;
      ZeroRegister(width);
    }

    /** The generate loop: wire k of the result is wire width - 1 - k of the counter. */
    method ReverseCounter() returns (reversed: Bits)
      requires Valid()
      ensures reversed == Reversed(counter)
    {
      reversed := [];
      for k := 0 to width
        invariant |reversed| == k
        invariant forall i :: 0 <= i < k ==> reversed[i] == counter[width - 1 - i]
      {
        reversed := reversed + [counter[width - 1 - k]];
      }
    }

    /** One clock: reset, or count, compare, and take the data word offered in a handshake. */
    method Tick(reset: bool, data: Option<Bits>)
      requires Valid() && (data.Some? ==> |data.value| == width)
      modifies this
      ensures Valid()
      ensures Value() == Step(width, old(Value()), In(reset, data))
    {
      var reversed := ReverseCounter();
      var high := ToNat(sample) >= ToNat(reversed);
      CounterValues(width, counter);
      ZeroRegister(width);
      if reset {
        counter, sample, out := ToBits(width, 0), ToBits(width, 0), false;
      } else {
        counter, out := Increment(counter), high;
        if data.Some? {
          sample := FlipTop(data.value);
          FlipTopIsOffset(data.value);
        }
      }
    }
  }

  lemma {:induction false} ZeroRegister(w: nat)
    ensures ToNat(ToBits(w, 0)) == 0
  {
    if w > 0 {
      ZeroRegister(w - 1);
      assert ToBits(w, 0)[1..] == ToBits(w - 1, 0);
    }
  }

  /** A register is the register of its own value. */
  lemma {:induction false} RegisterOfValue(b: Bits)
    ensures ToBits(|b|, ToNat(b)) == b
    decreases |b|
  {
    if |b| > 0 {
      RegisterOfValue(b[1..]);
      assert b == [b[0]] + b[1..];
    }
  }

  lemma CounterValues(w: nat, b: Bits)
    requires |b| == w
    ensures ToNat(Reversed(b)) == Rev(w, ToNat(b))
    ensures ToNat(Increment(b)) == if ToNat(b) + 1 == Pow2(w) then 0 else ToNat(b) + 1
  {
    RegisterOfValue(b);
    ReversedValue(w, ToNat(b));
    IncrementWraps(b);
  }

  lemma {:induction false} IncrementWraps(b: Bits)
    ensures ToNat(Increment(b)) == if ToNat(b) + 1 == Pow2(|b|) then 0 else ToNat(b) + 1
    decreases |b|
  {
    if |b| > 0 {
      ToNatIsSmall(b[1..]);
      IncrementWraps(b[1..]);
      assert Increment(b)[1..] == (if b[0] then Increment(b[1..]) else b[1..]);
    }
  }
}
