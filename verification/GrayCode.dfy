/** Bit vectors of any width, binary counters and their Gray code (ip/sd/generic_fifo_dc_gray.v). */
module GrayCode {
  import opened Powers

  // Least significant bit first: b[0] is bit 0 of the register.
  type Bits = seq<bool>

  /** The w-bit register value of n, that is n modulo 2^w. */
  function ToBits(w: nat, n: nat): (b: Bits)
    ensures |b| == w
  {
    if w == 0 then [] else [n % 2 == 1] + ToBits(w - 1, n / 2)
  }

  function ToNat(b: Bits): nat {
    if |b| == 0 then 0 else (if b[0] then 1 else 0) + 2 * ToNat(b[1..])
  }

  /** b + 1 with the carry out of the top bit dropped. */
  function Increment(b: Bits): (r: Bits)
    ensures |r| == |b|
  {
    if |b| == 0 then []
    else if b[0] then [false] + Increment(b[1..])
    else [true] + b[1..]
  }

  function Xor(a: Bits, b: Bits): (r: Bits)
    requires |a| == |b|
    ensures |r| == |a|
  {
    if |a| == 0 then [] else [a[0] != b[0]] + Xor(a[1..], b[1..])
  }

  /** {1'b0, b[w-1:1]} */
  function ShiftRight(b: Bits): (r: Bits)
    ensures |r| == |b|
  {
    if |b| == 0 then [] else b[1..] + [false]
  }

  /** Binary to Gray: every bit is combined with the one above it. */
  function Encode(b: Bits): (g: Bits)
    ensures |g| == |b|
  {
    if |b| == 0 then [] else [if |b| == 1 then b[0] else b[0] != b[1]] + Encode(b[1..])
  }

  /** Gray to binary, from the top bit down. */
  function Decode(g: Bits): (b: Bits)
    ensures |b| == |g|
  {
    if |g| == 0 then []
    else
      var rest := Decode(g[1..]);
      [if |rest| == 0 then g[0] else g[0] != rest[0]] + rest
  }

  // ----- Decoding -----

  /** The assign b ^ {0, b[w-1:1]}. */
  lemma {:induction false} EncodeIsWire(b: Bits)
    ensures Encode(b) == Xor(b, ShiftRight(b))
  {
    if |b| > 0 {
      EncodeIsWire(b[1..]);
      assert ShiftRight(b)[1..] == ShiftRight(b[1..]);
    }
  }

  /** Decoding inverts encoding at every width. */
  lemma {:induction false} DecodeEncode(b: Bits)
    ensures Decode(Encode(b)) == b
  {
    if |b| > 0 {
      DecodeEncode(b[1..]);
      assert Encode(b)[1..] == Encode(b[1..]);
    }
  }

  /** The wire equation x = g ^ {0, x[w-1:1]} has exactly one solution, and it is the decoded value. */
  lemma {:induction false} DecodeSolvesWire(g: Bits, x: Bits)
    requires |x| == |g|
    ensures x == Xor(g, ShiftRight(x)) <==> x == Decode(g)
  {
    if |g| > 0 {
      var t, s := x[1..], g[1..];
      DecodeSolvesWire(s, t);
      var y, z := Xor(g, ShiftRight(x)), Xor(s, ShiftRight(t));
      assert ShiftRight(x)[1..] == ShiftRight(t);
      assert y[1..] == z;
      assert y == [y[0]] + z;
      assert x == [x[0]] + t;
      assert Decode(g)[1..] == Decode(s);
    }
  }

  // ----- Adjacency -----

  /** The one Gray bit that changes on an increment: the lowest zero of b, or the top bit on a wrap. */
  function FlippedBit(b: Bits): (k: nat)
    requires |b| > 0
    ensures k < |b|
  {
    if |b| == 1 || !b[0] then 0 else 1 + FlippedBit(b[1..])
  }

  ghost predicate DifferOnlyAt(x: Bits, y: Bits, k: nat) {
    |x| == |y| && k < |x| && x[k] != y[k] && forall i :: 0 <= i < |x| && i != k ==> x[i] == y[i]
  }

  /** Successive Gray codes, the wrap included, differ in exactly one bit at every width. */
  lemma {:induction false} AdjacentCodes(b: Bits)
    requires |b| > 0
    ensures DifferOnlyAt(Encode(b), Encode(Increment(b)), FlippedBit(b))
  {
    var r := Increment(b);
    if |b| > 1 && b[0] {
      AdjacentCodes(b[1..]);
      assert r[1..] == Increment(b[1..]) && r[1] == !b[1];
      DifferBehindHead(b[0] != b[1], Encode(b[1..]), Encode(r[1..]), FlippedBit(b[1..]));
    } else {
      assert r[1..] == b[1..];
      DifferInHead(Encode(b)[0], Encode(b[1..]));
    }
  }

  lemma DifferBehindHead(h: bool, x: Bits, y: Bits, k: nat)
    requires DifferOnlyAt(x, y, k)
    ensures DifferOnlyAt([h] + x, [h] + y, k + 1)
  {}

  lemma DifferInHead(h: bool, x: Bits)
    ensures DifferOnlyAt([h] + x, [!h] + x, 0)
  {}

  /** Every bit of s was caught before or after the change from x to y. */
  ghost predicate MixedSample(s: Bits, x: Bits, y: Bits) {
    |s| == |x| == |y| && forall i :: 0 <= i < |s| ==> s[i] == x[i] || s[i] == y[i]
  }

  lemma OneBitApart(s: Bits, x: Bits, y: Bits, k: nat)
    requires DifferOnlyAt(x, y, k)
    requires MixedSample(s, x, y)
    ensures s == x || s == y
  {
    if s[k] == x[k] { assert s == x; } else { assert s == y; }
  }

  /**
   A sample of a Gray pointer taken while it may increment, x being its code before the edge and y after it,
   is the old or the new pointer, never a third value.
   */
  lemma SampleIsOldOrNew(s: Bits, b: Bits, moves: bool, x: Bits, y: Bits)
    requires |b| > 0
    requires x == Encode(b) && y == if moves then Encode(Increment(b)) else x
    requires MixedSample(s, x, y)
    ensures s == x || s == y
  {
    if moves {
      AdjacentCodes(b);
      OneBitApart(s, x, y, FlippedBit(b));
    } else {
      SampleAtRest(s, x);
    }
  }

  lemma SampleAtRest(s: Bits, x: Bits)
    requires MixedSample(s, x, x)
    ensures s == x
  {}

  // ----- Counters as registers -----

  lemma {:induction false} IncrementIsSuccessor(w: nat, n: nat)
    ensures Increment(ToBits(w, n)) == ToBits(w, n + 1)
  {
    if w > 0 && n % 2 == 1 {
      IncrementIsSuccessor(w - 1, n / 2);
      assert (n + 1) / 2 == n / 2 + 1;
    }
  }

  /** Two counters less than 2^w apart have equal registers only when they are equal. */
  lemma {:induction false} EqualRegisters(w: nat, a: nat, b: nat)
    requires a <= b < a + Pow2(w)
    ensures ToBits(w, a) == ToBits(w, b) <==> a == b
  {
    if w > 0 && ToBits(w, a) == ToBits(w, b) {
      assert ToBits(w, a)[0] == (a % 2 == 1) && ToBits(w, b)[0] == (b % 2 == 1);
      assert ToBits(w, a)[1..] == ToBits(w - 1, a / 2) && ToBits(w, b)[1..] == ToBits(w - 1, b / 2);
      EqualRegisters(w - 1, a / 2, b / 2);
    }
  }

  /** Equal low w bits with different top bits, the pointer comparison behind `full`. */
  predicate OppositeLaps(w: nat, x: Bits, y: Bits)
    requires |x| == |y| == w + 1
  {
    x[..w] == y[..w] && x[w] != y[w]
  }

  lemma {:induction false} OppositeLapsMeansFull(w: nat, a: nat, b: nat)
    requires a <= b <= a + Pow2(w)
    ensures OppositeLaps(w, ToBits(w + 1, b), ToBits(w + 1, a)) <==> b == a + Pow2(w)
  {
    var x, y := ToBits(w + 1, a), ToBits(w + 1, b);
    if w > 0 {
      var s, t := ToBits(w, a / 2), ToBits(w, b / 2);
      assert x[1..] == s && y[1..] == t;
      assert x[w] == s[w - 1] && y[w] == t[w - 1];
      assert x[..w] == [x[0]] + s[..w - 1] && y[..w] == [y[0]] + t[..w - 1];
      if a % 2 == b % 2 {
        OppositeLapsMeansFull(w - 1, a / 2, b / 2);
      } else {
        assert x[..w][0] != y[..w][0];
        assert Pow2(w) == 2 * Pow2(w - 1);
      }
    }
  }

  /** The low w bits of a register of w + 1 bits address slot n modulo 2^w. */
  lemma {:induction false} AddressBits(w: nat, n: nat)
    ensures ToBits(w + 1, n)[..w] == ToBits(w, n)
  {
    if w > 0 {
      AddressBits(w - 1, n / 2);
      assert ToBits(w + 1, n)[..w] == [n % 2 == 1] + ToBits(w, n / 2)[..w - 1];
    }
  }

  lemma {:induction false} RegisterValue(w: nat, n: nat)
    ensures ToNat(ToBits(w, n)) == n % Pow2(w)
  {
    if w > 0 {
      RegisterValue(w - 1, n / 2);
      var p := Pow2(w - 1);
      assert ToBits(w, n)[1..] == ToBits(w - 1, n / 2);
      HalveRemainder(n, p);
    }
  }

  lemma HalveRemainder(n: nat, p: nat)
    requires p > 0
    ensures n % (2 * p) == n % 2 + 2 * ((n / 2) % p)
  {
    var q, r := (n / 2) / p, (n / 2) % p;
    assert n == n % 2 + 2 * (q * p + r);
    assert n == q * (2 * p) + (n % 2 + 2 * r);
    RemainderUnique(n, 2 * p, q, n % 2 + 2 * r);
  }
}
