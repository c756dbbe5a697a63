/** How often a constant sample reaches the bit-reversed counter (rtl/audio_pwm.v, PWM part). */
module PwmSpec {

  import opened GrayCode
  import opened Powers

  /** assign reversed[k] = counter[w - 1 - k] */
  function Reversed(b: Bits): (r: Bits)
    ensures |r| == |b|
    ensures forall k :: 0 <= k < |b| ==> r[k] == b[|b| - 1 - k]
  {
    seq(|b|, k requires 0 <= k < |b| => b[|b| - 1 - k])
  }

  /** The value of the w-bit counter c with its bits reversed. */
  function Rev(w: nat, c: nat): nat {
    if w == 0 then 0 else (if c % 2 == 1 then Pow2(w - 1) else 0) + Rev(w - 1, c / 2)
  }

  lemma ReversedTwice(b: Bits)
    ensures Reversed(Reversed(b)) == b
  {}

  lemma {:induction false} ToNatAppend(b: Bits, t: bool)
    ensures ToNat(b + [t]) == ToNat(b) + (if t then Pow2(|b|) else 0)
    decreases |b|
  {
    if |b| == 0 {
      assert b + [t] == [t];
    } else {
      ToNatAppend(b[1..], t);
      assert (b + [t])[1..] == b[1..] + [t];
    }
  }

  lemma ReversedCons(h: bool, t: Bits)
    ensures Reversed([h] + t) == Reversed(t) + [h]
  {}

  lemma LowBitBecomesTop(h: bool, t: Bits)
    ensures ToNat(Reversed([h] + t)) == ToNat(Reversed(t)) + (if h then Pow2(|t|) else 0)
  {
    ReversedCons(h, t);
    ToNatAppend(Reversed(t), h);
  }

  /** Reversing the wires of a register holding c gives Rev. */
  lemma {:induction false} ReversedValue(w: nat, c: nat)
    ensures ToNat(Reversed(ToBits(w, c))) == Rev(w, c)
    decreases w
  {
    if w == 0 {
      assert Reversed(ToBits(0, c)) == [];
    } else {
      ReversedValue(w - 1, c / 2);
      LowBitBecomesTop(c % 2 == 1, ToBits(w - 1, c / 2));
    }
  }

  lemma {:induction false} RevIsSmall(w: nat, c: nat)
    ensures Rev(w, c) < Pow2(w)
    decreases w
  {
    if w > 0 { RevIsSmall(w - 1, c / 2); }
  }

  /** The top of a counter's low part is what its reversal turns on first. */
  lemma {:induction false} RevSplit(k: nat, m: nat, q: nat, j: nat)
    requires j < Pow2(k)
    ensures Rev(k + m, q * Pow2(k) + j) == Rev(k, j) * Pow2(m) + Rev(m, q)
    decreases k
  {
    if k > 0 {
      var p := Pow2(k - 1);
      var c := q * Pow2(k) + j;
      assert c == 2 * (q * p) + j;
      assert c % 2 == j % 2 && c / 2 == q * p + j / 2;
      RevSplit(k - 1, m, q, j / 2);
      Pow2Add(k - 1, m);
      Distribute(p, Pow2(m), Rev(k - 1, j / 2));
    }
  }

  lemma Distribute(p: nat, m: nat, r: nat)
    ensures p * m + r * m == (p + r) * m
  {}

  // ----- Counting -----

  /** How many of the counter values c < n have Rev(k, c) < t. */
  function CountBelow(k: nat, t: int, n: nat): nat
    decreases n
  {
    if n == 0 then 0 else CountBelow(k, t, n - 1) + (if Rev(k, n - 1) < t then 1 else 0)
  }

  lemma RevOfPair(k: nat, c: nat)
    ensures Rev(k + 1, 2 * c) == Rev(k, c) && Rev(k + 1, 2 * c + 1) == Pow2(k) + Rev(k, c)
  {
    assert (2 * c) / 2 == c && (2 * c + 1) / 2 == c;
  }

  /** Even counter values reverse into the lower half, odd ones into the upper half. */
  lemma {:induction false} CountByParity(k: nat, t: int, m: nat)
    ensures CountBelow(k + 1, t, 2 * m) == CountBelow(k, t, m) + CountBelow(k, t - Pow2(k), m)
    decreases m
  {
    if m > 0 {
      var c := m - 1;
      CountByParity(k, t, c);
      RevOfPair(k, c);
      assert CountBelow(k + 1, t, 2 * c + 1) == CountBelow(k + 1, t, 2 * c) + (if Rev(k + 1, 2 * c) < t then 1 else 0);
      assert 2 * m - 1 == 2 * c + 1;
    }
  }

  lemma {:induction false} CountAllOrNone(k: nat, t: int, n: nat)
    ensures t <= 0 ==> CountBelow(k, t, n) == 0
    ensures t >= Pow2(k) ==> CountBelow(k, t, n) == n
    decreases n
  {
    if n > 0 {
      CountAllOrNone(k, t, n - 1);
      RevIsSmall(k, n - 1);
    }
  }

  /** Reversal is a permutation: over a full period exactly t values lie below t. */
  lemma {:induction false} FullPeriodCount(k: nat, t: int)
    requires 0 <= t <= Pow2(k)
    ensures CountBelow(k, t, Pow2(k)) == t
    decreases k
  {
    if k == 0 {
      assert CountBelow(0, t, 1) == (if Rev(0, 0) < t then 1 else 0);
    } else {
      var p := Pow2(k - 1);
      CountByParity(k - 1, t, p);
      if t <= p {
        FullPeriodCount(k - 1, t);
        CountAllOrNone(k - 1, t - p, p);
      } else {
        FullPeriodCount(k - 1, t - p);
        CountAllOrNone(k - 1, t, p);
      }
    }
  }

  /** How many of the n counter values from c on have s >= Rev(w, c): the clocks on which the output goes high. */
  function CountHigh(w: nat, s: nat, c: nat, n: nat): nat
    decreases n
  {
    if n == 0 then 0 else CountHigh(w, s, c, n - 1) + (if s >= Rev(w, c + n - 1) then 1 else 0)
  }

  /** A sample against a reversed counter is the sample's top part against the reversed low part. */
  lemma CompareTops(s: nat, m: nat, r: nat, x: nat)
    requires m > 0 && r < m
    ensures s >= x * m + r <==> x < Share(s, m, r)
  {
    var q, e := s / m, s % m;
    assert s == q * m + e;
    if x <= q {
      Multiples(x, q, m);
    } else {
      Multiples(q + 1, x, m);
    }
  }

  lemma Multiples(a: nat, b: nat, m: nat)
    requires a <= b
    ensures a * m <= b * m && (a < b ==> a * m + m <= b * m)
  {
    assert b * m == a * m + (b - a) * m;
    if a < b { MultipleAtLeast(b - a, m); }
  }

  /** floor(s / m), and one more when the rest reaches r. */
  function Share(s: nat, m: nat, r: nat): nat
    requires m > 0
  {
    s / m + (if s % m >= r then 1 else 0)
  }

  lemma {:induction false} WindowIsShortPeriod(k: nat, j: nat, s: nat, q: nat, n: nat)
    requires n <= Pow2(k)
    ensures CountHigh(k + j, s, q * Pow2(k), n) == CountBelow(k, Share(s, Pow2(j), Rev(j, q)), n)
    decreases n
  {
    if n > 0 {
      WindowIsShortPeriod(k, j, s, q, n - 1);
      RevSplit(k, j, q, n - 1);
      RevIsSmall(j, q);
      CompareTops(s, Pow2(j), Rev(j, q), Rev(k, n - 1));
    }
  }

  lemma ShareIsSmall(s: nat, p: nat, m: nat, r: nat)
    requires m > 0 && s < p * m
    ensures Share(s, m, r) <= p
  {
    if s / m >= p { Multiples(p, s / m, m); }
  }

  /**
   * In an aligned window of 2^k clocks a sample of k + j bits is high floor(s / 2^j) times, or once
   * more: exactly when the sample's low part reaches the reversed number of the window.
   */
  lemma WindowCount(k: nat, j: nat, s: nat, q: nat)
    requires s < Pow2(k + j)
    ensures CountHigh(k + j, s, q * Pow2(k), Pow2(k)) == Share(s, Pow2(j), Rev(j, q))
  {
    Pow2Add(k, j);
    ShareIsSmall(s, Pow2(k), Pow2(j), Rev(j, q));
    WindowIsShortPeriod(k, j, s, q, Pow2(k));
    FullPeriodCount(k, Share(s, Pow2(j), Rev(j, q)));
  }

  /** Over a full period a sample is high s + 1 times. */
  lemma PeriodCount(w: nat, s: nat)
    requires s < Pow2(w)
    ensures CountHigh(w, s, 0, Pow2(w)) == s + 1
  {
    WindowCount(w, 0, s, 0);
  }

  // ----- The output over time -----

  datatype State = State(counter: nat, sample: nat, out: bool)

  predicate Fits(w: nat, s: State) { s.counter < Pow2(w) && s.sample < Pow2(w) }

  /** A clock without reset and without a new sample: the output shows last clock's comparison. */
  function Quiet(w: nat, s: State): (r: State)
    requires Fits(w, s)
    ensures Fits(w, r)
  {
    State(if s.counter + 1 == Pow2(w) then 0 else s.counter + 1, s.sample, s.sample >= Rev(w, s.counter))
  }

  function After(w: nat, s: State, n: nat): (r: State)
    requires Fits(w, s)
    ensures Fits(w, r)
    decreases n
  {
    if n == 0 then s else After(w, Quiet(w, s), n - 1)
  }

  /** On how many of the next n quiet clocks the output is high. */
  function HighClocks(w: nat, s: State, n: nat): nat
    requires Fits(w, s)
    decreases n
  {
    if n == 0 then 0
    else (if Quiet(w, s).out then 1 else 0) + HighClocks(w, Quiet(w, s), n - 1)
  }

  lemma {:induction false} CountFromFront(w: nat, s: nat, c: nat, n: nat)
    requires n > 0
    ensures CountHigh(w, s, c, n) == (if s >= Rev(w, c) then 1 else 0) + CountHigh(w, s, c + 1, n - 1)
    decreases n
  {
    if n > 1 {
      CountFromFront(w, s, c, n - 1);
      assert c + n - 1 == (c + 1) + (n - 1) - 1;
    } else {
      assert CountHigh(w, s, c, 0) == 0;
    }
  }

  lemma {:induction false} CountConcat(w: nat, s: nat, c: nat, m: nat, n: nat)
    ensures CountHigh(w, s, c, m + n) == CountHigh(w, s, c, m) + CountHigh(w, s, c + m, n)
    decreases n
  {
    if n > 0 {
      CountConcat(w, s, c, m, n - 1);
      assert c + (m + n) - 1 == (c + m) + n - 1;
    }
  }

  /** Clocks up to the counter's wrap count counter values. */
  lemma {:induction false} ClocksCount(w: nat, s: State, n: nat)
    requires Fits(w, s) && s.counter + n <= Pow2(w)
    ensures HighClocks(w, s, n) == CountHigh(w, s.sample, s.counter, n)
    ensures n > 0 || s.counter > 0 ==>
      After(w, s, n).counter == (if s.counter + n == Pow2(w) then 0 else s.counter + n)
    ensures After(w, s, n).sample == s.sample
    decreases n
  {
    if n > 0 {
      CountFromFront(w, s.sample, s.counter, n);
      if n > 1 {
        ClocksCount(w, Quiet(w, s), n - 1);
      }
    }
  }

  lemma {:induction false} ClocksConcat(w: nat, s: State, m: nat, n: nat)
    requires Fits(w, s)
    ensures HighClocks(w, s, m + n) == HighClocks(w, s, m) + HighClocks(w, After(w, s, m), n)
    decreases m
  {
    if m > 0 { ClocksConcat(w, Quiet(w, s), m - 1, n); }
  }

  /** Up to the wrap and on to where it began, the counter passes every value once. */
  lemma PeriodFromAnyPhase(w: nat, s: State, n: nat)
    requires Fits(w, s) && n == Pow2(w)
    ensures HighClocks(w, s, n) == CountHigh(w, s.sample, 0, n)
  {
    var rest := n - s.counter;
    ClocksCount(w, s, rest);
    ClocksConcat(w, s, rest, s.counter);
    ClocksCount(w, After(w, s, rest), s.counter);
    CountConcat(w, s.sample, 0, s.counter, rest);
  }

  /** From any phase, 2^w quiet clocks have the output high on exactly sample + 1 of them. */
  lemma DutyIsExact(w: nat, s: State)
    requires Fits(w, s)
    ensures HighClocks(w, s, Pow2(w)) == s.sample + 1
  {
    PeriodFromAnyPhase(w, s, Pow2(w));
    PeriodCount(w, s.sample);
  }

  lemma WindowEnds(k: nat, j: nat, q: nat)
    requires q < Pow2(j)
    ensures q * Pow2(k) + Pow2(k) <= Pow2(k + j)
  {
    Pow2Add(k, j);
    Multiples(q, Pow2(j), Pow2(k));
  }

  /** The same in every aligned window of 2^k clocks, up to the last whole unit. */
  lemma WindowDuty(k: nat, j: nat, s: State, q: nat)
    requires Fits(k + j, s) && s.counter == q * Pow2(k) && q < Pow2(j)
    ensures HighClocks(k + j, s, Pow2(k)) == Share(s.sample, Pow2(j), Rev(j, q))
  {
    WindowEnds(k, j, q);
    ClocksCount(k + j, s, Pow2(k));
    WindowCount(k, j, s.sample, q);
  }

  // ----- Samples -----

  /** {~data[w - 1], data[w - 2:0]} */
  function FlipTop(d: Bits): (r: Bits)
    requires |d| > 0
    ensures |r| == |d|
  {
    d[|d| - 1 := !d[|d| - 1]]
  }

  /** Two's complement. */
  function SignedValue(d: Bits): int
    requires |d| > 0
  {
    ToNat(d[..|d| - 1]) - (if d[|d| - 1] then Pow2(|d| - 1) else 0)
  }

  /** The register holds the signed sample moved up by half the range. */
  lemma FlipTopIsOffset(d: Bits)
    requires |d| > 0
    ensures ToNat(FlipTop(d)) == SignedValue(d) + Pow2(|d| - 1)
  {
    var low, top := d[..|d| - 1], d[|d| - 1];
    assert FlipTop(d) == low + [!top];
    ToNatAppend(low, !top);
  }

  lemma {:induction false} ToNatIsSmall(b: Bits)
    ensures ToNat(b) < Pow2(|b|)
    decreases |b|
  {
    if |b| > 0 { ToNatIsSmall(b[1..]); }
  }

  /** A full period puts out the signed sample, counted from the most negative one. */
  lemma SignedDuty(d: Bits, s: State)
    requires |d| > 0 && s.counter < Pow2(|d|) && s.sample == ToNat(FlipTop(d))
    ensures Fits(|d|, s)
    ensures HighClocks(|d|, s, Pow2(|d|)) == SignedValue(d) + Pow2(|d| - 1) + 1
  {
    ToNatIsSmall(FlipTop(d));
    DutyIsExact(|d|, s);
    FlipTopIsOffset(d);
  }

  // ----- Words handed over -----

  datatype Option<T> = None | Some(value: T)

  datatype In = In(reset: bool, data: Option<Bits>)

  predicate InOk(w: nat, i: In) { i.data.Some? ==> |i.data.value| == w }

  lemma SignedRange(d: Bits)
    requires |d| > 0
    ensures 0 <= SignedValue(d) + Pow2(|d| - 1) < Pow2(|d|)
  {
    FlipTopIsOffset(d);
    ToNatIsSmall(FlipTop(d));
  }

  /** One clock: the comparison goes on, and a word handed over becomes the sample. */
  function Step(w: nat, s: State, i: In): (r: State)
    requires w > 0 && Fits(w, s) && InOk(w, i)
    ensures Fits(w, r)
  {
    if i.reset then State(0, 0, false)
    else if i.data.None? then Quiet(w, s)
    else
      SignedRange(i.data.value);
      Quiet(w, s).(sample := SignedValue(i.data.value) + Pow2(w - 1))
  }

  /** On how many clocks of a run the output goes high. */
  function Highs(w: nat, s: State, ins: seq<In>): nat
    requires w > 0 && Fits(w, s) && forall k :: 0 <= k < |ins| ==> InOk(w, ins[k])
    decreases |ins|
  {
    if |ins| == 0 then 0
    else (if Step(w, s, ins[0]).out then 1 else 0) + Highs(w, Step(w, s, ins[0]), ins[1..])
  }

  ghost predicate NothingNew(ins: seq<In>) {
    forall k :: 0 <= k < |ins| ==> !ins[k].reset && ins[k].data.None?
  }

  lemma {:induction false} HighsAreHighClocks(w: nat, s: State, ins: seq<In>)
    requires w > 0 && Fits(w, s) && NothingNew(ins)
    ensures Highs(w, s, ins) == HighClocks(w, s, |ins|)
    decreases |ins|
  {
    if |ins| > 0 { HighsAreHighClocks(w, Quiet(w, s), ins[1..]); }
  }

  lemma {:induction false} SampleStays(w: nat, s: State, n: nat)
    requires Fits(w, s)
    ensures After(w, s, n).sample == s.sample
    decreases n
  {
    if n > 0 { SampleStays(w, Quiet(w, s), n - 1); }
  }

  lemma OneLess(m: nat, x: nat) returns (rest: nat)
    requires m > 0
    ensures rest == (m - 1) * x && m * x == x + rest
  {
    rest := (m - 1) * x;
  }

  /** One more full period. */
  lemma PeriodAndRest(w: nat, s: State, n: nat)
    requires Fits(w, s)
    ensures HighClocks(w, s, Pow2(w) + n) == s.sample + 1 + HighClocks(w, After(w, s, Pow2(w)), n)
  {
    ClocksConcat(w, s, Pow2(w), n);
    DutyIsExact(w, s);
  }

  /** Any number of full periods, from any phase. */
  lemma {:induction false} PeriodsAreExact(w: nat, s: State, m: nat, n: nat)
    requires Fits(w, s) && n == m * Pow2(w)
    ensures HighClocks(w, s, n) == m * (s.sample + 1)
    decreases m
  {
    if m > 0 {
      var rest := OneLess(m, Pow2(w));
      var highs := OneLess(m, s.sample + 1);
      PeriodAndRest(w, s, rest);
      SampleStays(w, s, Pow2(w));
      PeriodsAreExact(w, After(w, s, Pow2(w)), m - 1, rest);
    }
  }

  /**
   A word handed over on whatever clock: for as many full periods as nothing new comes, the output is high on as many
   clocks of each as the signed word counts from the most negative one, and one more.
   */
  lemma WordDuty(w: nat, s: State, i: In, ins: seq<In>, m: nat)
    requires w > 0 && Fits(w, s) && InOk(w, i) && !i.reset && i.data.Some?
    requires NothingNew(ins) && |ins| == m * Pow2(w)
    ensures Highs(w, Step(w, s, i), ins) == m * (SignedValue(i.data.value) + Pow2(w - 1) + 1)
  {
    HighsAreHighClocks(w, Step(w, s, i), ins);
    PeriodsAreExact(w, Step(w, s, i), m, |ins|);
  }

  /** After a reset the sample is the most negative one: the output is low, then high on one clock of each period. */
  lemma ResetDuty(w: nat, s: State, i: In, ins: seq<In>, m: nat)
    requires w > 0 && Fits(w, s) && InOk(w, i) && i.reset && NothingNew(ins) && |ins| == m * Pow2(w)
    ensures !Step(w, s, i).out && Highs(w, Step(w, s, i), ins) == m
  {
    HighsAreHighClocks(w, Step(w, s, i), ins);
    PeriodsAreExact(w, Step(w, s, i), m, |ins|);
  }
}
