/** Congruence modulo any number, by its witness. */
module Modular {
  function Times(k: int, n: int): int {
    k * n
  }

  ghost predicate Cong(a: int, b: int, n: int) {
    exists k :: a - b == Times(k, n)
  }

  lemma Because(a: int, b: int, n: int, k: int)
    requires a - b == k * n
    ensures Cong(a, b, n)
  {
    assert a - b == Times(k, n);
  }

  lemma Symmetric(a: int, b: int, n: int)
    requires Cong(a, b, n)
    ensures Cong(b, a, n)
  {
    var k :| a - b == Times(k, n);
    Because(b, a, n, -k);
  }

  lemma Transitive(a: int, b: int, c: int, n: int)
    requires Cong(a, b, n) && Cong(b, c, n)
    ensures Cong(a, c, n)
  {
    var k :| a - b == Times(k, n);
    var l :| b - c == Times(l, n);
    Because(a, c, n, k + l);
  }

  lemma Added(a: int, b: int, c: int, n: int)
    requires Cong(a, b, n)
    ensures Cong(a + c, b + c, n)
  {
    var k :| a - b == Times(k, n);
    Because(a + c, b + c, n, k);
  }

  lemma Scaled(a: int, b: int, c: int, n: int)
    requires Cong(a, b, n)
    ensures Cong(c * a, c * b, n)
  {
    var k :| a - b == Times(k, n);
    assert c * a - c * b == c * (a - b) == (c * k) * n;
    Because(c * a, c * b, n, c * k);
  }

  /** What has an inverse can be cancelled. */
  lemma Cancelled(c: int, i: int, a: int, b: int, n: int)
    requires Cong(i * c, 1, n) && Cong(c * a, c * b, n)
    ensures Cong(a, b, n)
  {
    Scaled(c * a, c * b, i, n);
    Undone(c, i, a, n);
    Undone(c, i, b, n);
    Symmetric(i * (c * a), a, n);
    Transitive(a, i * (c * a), i * (c * b), n);
    Transitive(a, i * (c * b), b, n);
  }

  lemma Undone(c: int, i: int, a: int, n: int)
    requires Cong(i * c, 1, n)
    ensures Cong(i * (c * a), a, n)
  {
    Scaled(i * c, 1, a, n);
    assert a * (i * c) == i * (c * a);
  }

  lemma Remainder(a: int, n: int)
    requires n > 0
    ensures Cong(a % n, a, n)
  {
    Because(a % n, a, n, -(a / n));
  }

  lemma Small(a: int, b: int, n: int)
    requires 0 <= a < n && 0 <= b < n && Cong(a, b, n)
    ensures a == b
  {
    var k :| a - b == Times(k, n);
    assert k >= 1 ==> k * n >= n;
    assert k <= -1 ==> k * n <= -n;
  }

  /** A common divisor above one rules out an inverse. */
  lemma NoInverse(g: int, n: int, a: int, i: int)
    requires a > 1 && Cong(g, 0, a) && Cong(n, 0, a)
    ensures !Cong(g * i, 1, n)
  {
    if Cong(g * i, 1, n) {
      var k :| g * i - 1 == Times(k, n);
      Scaled(g, 0, i, a);
      Scaled(n, 0, k, a);
      assert i * g == g * i;
      Symmetric(g * i - 1, 0, a);
      Added(0, g * i - 1, 1, a);
      Transitive(1, g * i, 0, a);
      Small(1, 0, a);
      assert false;
    }
  }

  lemma EuclidStep(a: int, b: int, s: int, t: int, g: int, n: int)
    requires b > 0 && Cong(a, g * s, n) && Cong(b, g * t, n)
    ensures Cong(a % b, g * (s - a / b * t), n)
  {
    var q := a / b;
    var k :| a - g * s == Times(k, n);
    var l :| b - g * t == Times(l, n);
    assert a % b == a - q * b;
    assert g * (s - q * t) == g * s - q * (g * t);
    assert q * b - q * (g * t) == q * (l * n) == (q * l) * n;
    assert a % b - g * (s - q * t) == k * n - (q * l) * n == (k - q * l) * n;
    Because(a % b, g * (s - q * t), n, k - q * l);
  }

  lemma CombinationStep(m: int, a: int, b: int, c: int, d: int)
    requires b > 0 && m == c * a + d * b
    ensures m == (c * (a / b) + d) * b + c * (a % b)
  {
    var q := a / b;
    assert a == q * b + a % b;
    assert c * a == c * (q * b) + c * (a % b) == (c * q) * b + c * (a % b);
  }

  /** The library's ModInverse, by the extended Euclidean algorithm: an inverse if there is one. */
  method ModInverse(g: nat, n: nat) returns (found: bool, x: nat)
    requires 0 <= g < n
    ensures found ==> x < n && Cong(g * x, 1, n)
    ensures !found ==> forall i :: !Cong(g * i, 1, n)
  {
    var a, s := n, 0;
    var b, t := g, 1;
    // n and g stay combinations of a and b
    ghost var na, nb, ga, gb := 1, 0, 0, 1;
    Because(n, g * 0, n, 1);
    Because(g, g * 1, n, 0);
    while b != 0
      invariant a > 0 && b >= 0
      invariant Cong(a, g * s, n) && Cong(b, g * t, n)
      invariant n == na * a + nb * b && g == ga * a + gb * b
      decreases b
    {
      EuclidStep(a, b, s, t, g, n);
      CombinationStep(n, a, b, na, nb);
      CombinationStep(g, a, b, ga, gb);
      var q := a / b;
      na, nb := na * q + nb, na;
      ga, gb := ga * q + gb, ga;
      a, s, b, t := b, t, a % b, s - q * t;
    }
    found, x := a == 1, s % n;
    if found {
      Remainder(s, n);
      Scaled(x, s, g, n);
      Symmetric(a, g * s, n);
      Transitive(g * x, g * s, 1, n);
    } else {
      Because(n, 0, a, na);
      Because(g, 0, a, ga);
      forall i: int
        ensures !Cong(g * i, 1, n)
      {
        NoInverse(g, n, a, i);
      }
    }
  }
}
