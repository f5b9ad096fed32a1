/** Powers of two and `usize::next_power_of_two`, which sizes every buffer
    the table allocates. */
module PowerOfTwo {

  /** 2 to the power `k`. */
  function Pow2(k: nat): (p: nat)
    ensures p >= 1
  {
    if k == 0 then 1 else 2 * Pow2(k - 1)
  }

  /** 1, 2, 4, 8, ... */
  ghost predicate IsPow2(n: nat)
  {
    exists k: nat :: n == Pow2(k)
  }

  /** A larger exponent gives a power at least twice as large. */
  lemma {:induction false} Pow2Grows(i: nat, j: nat)
    requires i < j
    ensures 2 * Pow2(i) <= Pow2(j)
    decreases j
  {
    if i + 1 < j {
      Pow2Grows(i, j - 1);
    }
  }

  /** Doubles `2^k` until it reaches `n`; `2^k` stays the least power of two
      seen so far that may still be below `n`. */
  function NextPow2From(n: nat, k: nat): (r: nat)
    requires k == 0 || Pow2(k - 1) < n
    ensures IsPow2(r) && n <= r && (r == 1 || r < 2 * n)
    decreases n - Pow2(k)
  {
    if n <= Pow2(k) then Pow2(k) else NextPow2From(n, k + 1)
  }

  /** The smallest power of two that is at least `n`; 0 is mapped to 1. */
  function NextPow2(n: nat): (r: nat)
    ensures IsPow2(r) && n <= r
    ensures r == 1 || r < 2 * n
  {
    NextPow2From(n, 0)
  }

  /** No power of two at least `n` lies below `NextPow2(n)`. */
  lemma NextPow2IsLeast(n: nat, q: nat)
    requires IsPow2(q) && n <= q
    ensures NextPow2(n) <= q
  {
    var r := NextPow2(n);
    var e: nat :| r == Pow2(e);
    var f: nat :| q == Pow2(f);
    if f < e {
      Pow2Grows(f, e);
    } else if e < f {
      Pow2Grows(e, f);
    }
  }

  /** A power of two is its own next power of two. */
  lemma NextPow2OfPow2(n: nat)
    requires IsPow2(n)
    ensures NextPow2(n) == n
  {
    NextPow2IsLeast(n, n);
  }

  /** `with_capacity(12)` allocates 16 slots. */
  lemma NextPow2OfTwelve()
    ensures NextPow2(12) == 16
  {
    assert Pow2(4) == 16 by {
      assert Pow2(2) == 4;
    }
    NextPow2IsLeast(12, 16);
    var e: nat :| NextPow2(12) == Pow2(e);
    if e < 4 {
      Pow2Grows(e, 4);
    }
  }
}
