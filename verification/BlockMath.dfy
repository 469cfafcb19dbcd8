/** Powers of two, multiples and exclusive or, as the buddy allocator uses them. */
module BlockMath {
  function Pow2(k: nat): (r: nat)
    ensures r > 0
  {
    if k == 0 then 1 else 2 * Pow2(k - 1)
  }

  /** `x` is a whole number of `s`: what `x & (s - 1) == 0` tests for a power of two `s`. */
  predicate Multiple(x: nat, s: nat)
    requires s > 0
    decreases x
  {
    if x < s then x == 0 else Multiple(x - s, s)
  }

  lemma {:induction false} MultipleIsMod(x: nat, s: nat)
    requires s > 0
    ensures Multiple(x, s) <==> x % s == 0
    decreases x
  {
    if x >= s {
      MultipleIsMod(x - s, s);
      assert x % s == (x - s) % s by { ModShift(x - s, s); }
    }
  }

  lemma SmallMod(x: nat, s: nat)
    requires x < s
    ensures x % s == x && x / s == 0
  {
    var q := x / s;
    assert s * q + x % s == x;
    assert q >= 1 ==> s * q >= s;
  }

  lemma ModShift(x: nat, s: nat)
    requires s > 0
    ensures (x + s) % s == x % s && (x + s) / s == x / s + 1
  {
    var q := (x + s) / s - x / s;
    assert s * ((x + s) / s) + (x + s) % s == s * (x / s) + x % s + s;
    assert s * (q - 1) == x % s - (x + s) % s;
    assert q - 1 >= 1 ==> s * (q - 1) >= s;
    assert q - 1 <= -1 ==> s * (q - 1) <= s * -1;
  }

  /** A multiple of `2 * s` is a multiple of `s`, and so is the point half-way into it. */
  lemma {:induction false} HalvesAligned(x: nat, s: nat)
    requires s > 0 && Multiple(x, 2 * s)
    ensures Multiple(x, s) && Multiple(x + s, s) && !Multiple(x + s, 2 * s)
    decreases x
  {
    if x >= 2 * s {
      HalvesAligned(x - 2 * s, s);
      assert Multiple(x - s, s);
    }
    assert Multiple(x + s - s, s);
  }

  /** A multiple of `s` is either the lower or the upper half of a `2 * s` block. */
  lemma {:induction false} LowerOrUpper(x: nat, s: nat)
    requires s > 0 && Multiple(x, s)
    ensures Multiple(x, 2 * s) || (x >= s && Multiple(x - s, 2 * s))
    ensures !(Multiple(x, 2 * s) && x >= s && Multiple(x - s, 2 * s))
    decreases x
  {
    if x >= 2 * s {
      assert Multiple(x - s, s) && Multiple(x - s - s, s);
      LowerOrUpper(x - 2 * s, s);
    } else if x >= s {
      assert Multiple(x - s, s);
      assert x == s;
    }
  }

  /** Two multiples of `s` less than `s` apart are the same. */
  lemma {:induction false} MultiplesApart(x: nat, y: nat, s: nat)
    requires s > 0 && Multiple(x, s) && Multiple(y, s) && x <= y < x + s
    ensures x == y
    decreases x
  {
    if x >= s { MultiplesApart(x - s, y - s, s); }
  }

  lemma {:induction false} MultipleTwice(x: nat, s: nat)
    requires s > 0
    ensures Multiple(2 * x, 2 * s) == Multiple(x, s)
    decreases x
  {
    if x >= s {
      MultipleTwice(x - s, s);
      assert 2 * (x - s) == 2 * x - 2 * s;
    }
  }

  lemma {:induction false} Pow2Monotone(j: nat, k: nat)
    requires j <= k
    ensures Pow2(j) <= Pow2(k)
    ensures j < k ==> 2 * Pow2(j) <= Pow2(k)
    decreases k
  {
    if j < k { Pow2Monotone(j, k - 1); }
  }

  lemma {:induction false} Pow2Add(j: nat, k: nat)
    ensures Pow2(j + k) == Pow2(j) * Pow2(k)
  {
    if j > 0 {
      Pow2Add(j - 1, k);
      assert Pow2(j) * Pow2(k) == 2 * (Pow2(j - 1) * Pow2(k));
    }
  }

  /** A power of two above eight is sixteen, or at least twice that. */
  lemma Pow2AboveEight(k: nat)
    requires Pow2(k) > 8
    ensures Pow2(k) == 16 || Pow2(k) >= 32
  {
    assert Pow2(3) == 8 && Pow2(4) == 16 && Pow2(5) == 32;
    if k < 4 { Pow2Monotone(k, 3); } else if k > 4 { Pow2Monotone(5, k); }
  }

  /** Bitwise exclusive or on unbounded naturals. */
  function Xor(a: nat, b: nat): nat
    decreases a + b
  {
    if a == 0 && b == 0 then 0
    else 2 * Xor(a / 2, b / 2) + (if a % 2 == b % 2 then 0 else 1)
  }

  lemma {:induction false} XorZero(a: nat)
    ensures Xor(a, 0) == a
  {
    if a > 0 { XorZero(a / 2); }
  }

  /** Exclusive or with a block's size names its buddy: the other half of the block twice as big. */
  lemma {:induction false} XorIsBuddy(a: nat, k: nat)
    requires Multiple(a, Pow2(k))
    ensures Xor(a, Pow2(k)) == if Multiple(a, 2 * Pow2(k)) then a + Pow2(k) else a - Pow2(k)
    decreases k
  {
    LowerOrUpper(a, Pow2(k));
    if k == 0 {
      XorZero(a / 2);
      MultipleIsMod(a, 2);
    } else {
      var b := a / 2;
      assert Pow2(k) == 2 * Pow2(k - 1);
      assert a == 2 * b by { EvenMultiple(a, Pow2(k - 1)); }
      MultipleTwice(b, Pow2(k - 1));
      XorIsBuddy(b, k - 1);
      MultipleTwice(b, 2 * Pow2(k - 1));
      assert Xor(a, Pow2(k)) == 2 * Xor(b, Pow2(k - 1));
    }
  }

  lemma {:induction false} EvenMultiple(a: nat, s: nat)
    requires s > 0 && Multiple(a, 2 * s)
    ensures a % 2 == 0
    decreases a
  {
    if a >= 2 * s { EvenMultiple(a - 2 * s, s); }
  }

  /** Number of bits needed for `n`: `usize::BITS - n.leading_zeros()`. */
  function BitLen(n: nat): nat {
    if n == 0 then 0 else 1 + BitLen(n / 2)
  }

  lemma {:induction false} BitLenBounds(n: nat)
    ensures n < Pow2(BitLen(n))
    ensures n > 0 ==> BitLen(n) > 0 && Pow2(BitLen(n) - 1) <= n
  {
    if n > 0 { BitLenBounds(n / 2); }
  }

  lemma {:induction false} BitLenMonotone(n: nat, k: nat)
    requires n < Pow2(k)
    ensures BitLen(n) <= k
  {
    if n > 0 {
      BitLenBounds(n);
      if k < BitLen(n) { Pow2Monotone(k, BitLen(n) - 1); }
    }
  }
}
