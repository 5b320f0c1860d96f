/**
 The primality oracle shared by both search programs: trial division by 2, by 3
 and then by the pairs `i`, `i + 2` for `i = 5, 11, 17, ...` while `i * i <= n`.
 Both programs carry an identical copy of it; the model defines it once.

 Integers are unbounded here. The 64-bit overflow of `i * i` that `isPrime`
 guards against with `i * i > i` cannot happen, and the guard is kept in the
 loop condition exactly as written: the proof shows it is always true.
 */
module Primality {

  /** `d` divides `n` (with `d` positive). */
  predicate Divides(d: nat, n: nat) {
    d > 0 && n % d == 0
  }

  /** No `d` with `2 <= d < k` divides `n`. */
  predicate NoDivisorBelow(n: nat, k: nat) {
    forall d :: 2 <= d < k ==> !Divides(d, n)
  }

  /** The mathematical definition: at least 2, and no divisor strictly between 1 and itself. */
  predicate Prime(n: nat) {
    n >= 2 && NoDivisorBelow(n, n)
  }

  /** A divisor of a divisor of `n` divides `n`. */
  lemma DividesTransitive(k: nat, d: nat, n: nat)
    requires Divides(k, d)
    ensures Divides(d, n) ==> Divides(k, n)
  {
    if Divides(d, n) {
      var a := d / k;
      var b := n / d;
      assert d == k * a;
      assert n == d * b;
      assert n == k * (a * b) by {
        assert d * b == (k * a) * b;
      }
      MultipleMod(k, a * b);
    }
  }

  /** A multiple of `k` leaves no remainder modulo `k`. */
  lemma MultipleMod(k: nat, q: nat)
    requires k > 0
    ensures (k * q) % k == 0
  {
    var n := k * q;
    assert n == k * (n / k) + n % k;
    ProductGap(k, q, n / k);
    ProductGap(k, n / k, q);
  }

  /** Multiplying by `k` turns a strict gap between factors into a gap of at least `k`. */
  lemma ProductGap(k: nat, a: nat, b: nat)
    requires k > 0
    ensures a > b ==> k * a >= k * b + k
  {
    if a > b {
      var c := a - b;
      assert k * a == k * b + k * c by {
        assert k * (b + c) == k * b + k * c;
      }
      assert k * c >= k * 1;
    }
  }

  /** If `d` divides `n` and `2 <= d < n`, then so does the co-divisor `n / d`, which is at least 2. */
  lemma CoDivisor(d: nat, n: nat)
    requires 2 <= d < n
    ensures Divides(d, n) ==> Divides(n / d, n) && 2 <= n / d && (n / d) * d == n
  {
    if Divides(d, n) {
      var q := n / d;
      assert n == d * q;
      assert q != 0;
      assert q != 1;
      assert n == q * d;
      MultipleMod(q, d);
    }
  }

  /** Two factors both at least `i` give a product at least `i * i`. */
  lemma ProductAtLeastSquare(a: nat, b: nat, i: nat)
    ensures a >= i && b >= i ==> a * b >= i * i
  {
    if a >= i && b >= i {
      assert a * b >= i * b;
      assert i * b >= i * i;
    }
  }

  /**
   The early exits of the oracle are sound: nothing below 2 is prime, 2 and 3 are,
   and a number above 3 that 2 or 3 divides is not.
   */
  lemma {:induction false} EarlyExitsSound(n: nat)
    ensures n <= 1 ==> !Prime(n)
    ensures n == 2 || n == 3 ==> Prime(n)
    ensures n > 3 && (n % 2 == 0 || n % 3 == 0) ==> !Prime(n)
  {
    if n > 3 && n % 2 == 0 {
      assert Divides(2, n);
    }
    if n > 3 && n % 3 == 0 {
      assert Divides(3, n);
    }
  }

  /** For `i ≡ 5 (mod 6)`, `i + 1`, `i + 3`, `i + 5` are even and `i + 4` is a multiple of 3. */
  lemma WheelGaps(i: nat)
    requires i % 6 == 5
    ensures Divides(2, i + 1) && Divides(2, i + 3) && Divides(2, i + 5) && Divides(3, i + 4)
  {
    var q := i / 6;
    assert i == 6 * q + 5;
  }

  /**
   One round of the wheel: if nothing below `i` divides `n`, and neither `i`
   nor `i + 2` does, then nothing below `i + 6` does. The other candidates
   `i + 1`, `i + 3`, `i + 5` are even and `i + 4` is a multiple of 3.
   */
  lemma WheelStep(n: nat, i: nat)
    requires n % 2 != 0 && n % 3 != 0
    requires i >= 5 && i % 6 == 5
    requires NoDivisorBelow(n, i) && !Divides(i, n) && !Divides(i + 2, n)
    ensures NoDivisorBelow(n, i + 6)
  {
    WheelGaps(i);
    DividesTransitive(2, i + 1, n);
    DividesTransitive(2, i + 3, n);
    DividesTransitive(2, i + 5, n);
    DividesTransitive(3, i + 4, n);
    assert !Divides(2, n) && !Divides(3, n);
  }

  /** Once `i * i` exceeds `n`, having no divisor below `i` makes `n` prime. */
  lemma NoDivisorUpToRoot(n: nat, i: nat)
    requires n >= 2 && NoDivisorBelow(n, i) && i * i > n
    ensures Prime(n)
  {
    forall d | 2 <= d < n
      ensures !Divides(d, n)
    {
      if d >= i {
        CoDivisor(d, n);
        ProductAtLeastSquare(n / d, d, i);
      }
    }
  }

  /**
   The `for` loop of the oracle, from candidate `i` on. The guard is
   `isPrime`'s own `i * i <= n && i * i > i`; the second conjunct never fails for
   `i >= 5`, so it does not change the answer.
   */
  function WheelLoop(n: nat, i: nat): (b: bool)
    requires n > 3 && n % 2 != 0 && n % 3 != 0
    requires i >= 5 && i % 6 == 5 && NoDivisorBelow(n, i)
    ensures b <==> Prime(n)
    decreases n - i
  {
    if i * i <= n && i * i > i then
      if n % i == 0 || n % (i + 2) == 0 then
        assert i + 2 < i * i;
        assert Divides(i, n) || Divides(i + 2, n);
        false
      else
        WheelStep(n, i);
        WheelLoop(n, i + 6)
    else
      assert i * i > i by {
        ProductAtLeastSquare(i, i, 5);
      }
      NoDivisorUpToRoot(n, i);
      true
  }

  /** The oracle `isPrime`: decides primality by 6k±1 trial division. */
  function IsPrime(n: nat): (b: bool)
    ensures b <==> Prime(n)
  {
    EarlyExitsSound(n);
    if n <= 1 then false
    else if n <= 3 then true
    else if n % 2 == 0 || n % 3 == 0 then false
    else
      assert NoDivisorBelow(n, 5) by {
        assert Divides(2, 4);
        DividesTransitive(2, 4, n);
      }
      WheelLoop(n, 5)
  }
}
