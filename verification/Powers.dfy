/** Powers of two and the arithmetic of wrap-around pointers. */
module Powers {

  function Pow2(n: nat): (p: nat)
    ensures 1 <= p
  {
    if n == 0 then 1 else 2 * Pow2(n - 1)
  }

  lemma {:induction false} Pow2Add(m: nat, n: nat)
    ensures Pow2(m + n) == Pow2(m) * Pow2(n)
  {
    if m > 0 {
      Pow2Add(m - 1, n);
      assert Pow2(m + n) == 2 * Pow2(m - 1 + n);
    }
  }

  lemma MultipleAtLeast(k: int, d: int)
    requires k >= 1 && d >= 0
    ensures k * d >= d
  {
    assert k * d == (k - 1) * d + d;
    assert (k - 1) * d >= 0;
  }

  lemma RemainderUnique(n: int, d: int, q: int, r: int)
    requires 0 <= r < d && n == q * d + r
    ensures n / d == q && n % d == r
  {
    var k := n / d - q;
    var e := r - n % d;
    assert k * d == e && (-k) * d == -e by {
      assert n == (n / d) * d + n % d;
      assert k * d == (n / d) * d - q * d;
    }
    if k >= 1 { MultipleAtLeast(k, d); }
    if k <= -1 { MultipleAtLeast(-k, d); }
  }

  /** Indices less than d apart never share a slot of a buffer of d slots. */
  lemma DistinctSlots(i: nat, j: nat, d: nat)
    requires i < j < i + d
    ensures i % d != j % d
  {
    if i % d == j % d {
      var k := j / d - i / d;
      assert k * d == j - i && (-k) * d == i - j by {
        assert i == (i / d) * d + i % d && j == (j / d) * d + j % d;
        assert k * d == (j / d) * d - (i / d) * d;
      }
      if k >= 1 { MultipleAtLeast(k, d); }
      if k <= -1 { MultipleAtLeast(-k, d); }
    }
  }

  lemma NextLap(i: nat, d: nat)
    requires d > 0
    ensures (i + d) % d == i % d
  {
    assert i == (i / d) * d + i % d;
    assert (i / d + 1) * d == (i / d) * d + d;
    RemainderUnique(i + d, d, i / d + 1, i % d);
  }
}
