/**
  Bytes and 32-bit words, and facts that the solver does not find by itself: quotient and
  remainder are unique, how they change when the dividend grows by one, that dividing by a
  product is dividing by its factors in turn, and the pigeonhole principle.
 */
module Numbers {

  type Byte = x: int | 0 <= x < 256

  /** 32-bit arithmetic is arithmetic modulo this. */
  const WORD: nat := 0x1_0000_0000

  /** Four bytes, least significant first. */
  function FourBytes(a: nat, b: nat, c: nat, d: nat): nat {
    a + 0x100 * b + 0x1_0000 * c + 0x100_0000 * d
  }

  lemma WrapNext(x: nat)
    ensures (x + 1) % WORD == (x % WORD + 1) % WORD
  {
  }

  lemma DivModUnique(x: nat, n: nat, q: nat, r: nat)
    requires n > 0 && x == n * q + r && r < n
    ensures x / n == q && x % n == r
  {
    var k := q - x / n;
    assert n * k == x % n - r;
    assert k >= 1 ==> n * k >= n;
    assert k <= -1 ==> n * k <= -(n as int);
  }

  lemma DigitsUnique(n: nat, q: nat, r: nat, q': nat, r': nat)
    requires r < n && r' < n && q * n + r == q' * n + r'
    ensures q == q' && r == r'
  {
    var x := n * q + r;
    DivModUnique(x, n, q, r);
    DivModUnique(x, n, q', r');
  }

  /** Counting on by one. */
  lemma DivModNext(t: nat, n: nat)
    requires n > 0
    ensures if t % n + 1 == n then (t + 1) / n == t / n + 1 && (t + 1) % n == 0
            else (t + 1) / n == t / n && (t + 1) % n == t % n + 1
  {
    var q, r := t / n, t % n;
    assert t == n * q + r;
    if r + 1 == n {
      assert t + 1 == n * (q + 1) + 0;
      DivModUnique(t + 1, n, q + 1, 0);
    } else {
      DivModUnique(t + 1, n, q, r + 1);
    }
  }

  lemma TwoDigits(a: nat, b: nat, q: nat, s: nat, r: nat)
    requires s < a && r < b
    ensures b * (a * q + s) + r == (a * b) * q + (b * s + r)
    ensures b * s + r < a * b
  {
    assert b * (a * q) == (a * b) * q;
    assert b * s + b <= a * b by {
      assert b * (s + 1) <= b * a;
    }
  }

  lemma DivTwiceFrom(x: nat, a: nat, b: nat, q: nat, s: nat, r: nat)
    requires a * b > 0 && x == b * (a * q + s) + r && s < a && r < b
    ensures x / (a * b) == q
  {
    TwoDigits(a, b, q, s, r);
    DivModUnique(x, a * b, q, b * s + r);
  }

  lemma Decompose(x: nat, n: nat)
    requires n > 0
    ensures x == n * (x / n) + x % n && x % n < n
  {
  }

  /** Dividing by a product in two stages. */
  lemma DivTwice(x: nat, a: nat, b: nat)
    requires a > 0 && b > 0
    ensures a * b > 0 && x / (a * b) == x / b / a
  {
    Decompose(x, b);
    var t := x / b;
    Decompose(t, a);
    assert b * t == b * (a * (t / a) + t % a);
    DivTwiceFrom(x, a, b, t / a, t % a, x % b);
  }

  // ---------------------------------------------------------------- counting

  lemma SubsetCard(a: set<nat>, b: set<nat>)
    requires a <= b
    ensures |a| <= |b|
  {
    assert b == a + (b - a);
  }

  ghost function Upto(n: nat): (r: set<nat>)
    ensures forall i: nat :: i in r <==> i < n
  {
    if n == 0 then {} else Upto(n - 1) + {n - 1}
  }

  lemma {:induction false} UptoCard(n: nat)
    ensures |Upto(n)| == n
  {
    if n == 0 {
    } else {
      UptoCard(n - 1);
    }
  }

  ghost function Values(f: nat -> nat, n: nat): set<nat> {
    set i: nat | i < n :: f(i)
  }

  lemma {:induction false} ValuesCard(f: nat -> nat, n: nat)
    requires forall i: nat, j: nat | i < j < n :: f(i) != f(j)
    ensures |Values(f, n)| == n
  {
    if n == 0 {
      assert Values(f, 0) == {};
    } else {
      ValuesCard(f, n - 1);
      assert Values(f, n) == Values(f, n - 1) + {f(n - 1)};
      assert f(n - 1) !in Values(f, n - 1);
    }
  }

  /** `n + 1` values below `n` cannot all be different. */
  lemma Pigeonhole(f: nat -> nat, n: nat) returns (i: nat, j: nat)
    requires forall k: nat | k <= n :: f(k) < n
    ensures i < j <= n && f(i) == f(j)
  {
    if forall a: nat, b: nat | a < b < n + 1 :: f(a) != f(b) {
      ValuesCard(f, n + 1);
      UptoCard(n);
      assert Values(f, n + 1) <= Upto(n);
      SubsetCard(Values(f, n + 1), Upto(n));
    }
    i, j :| i < j < n + 1 && f(i) == f(j);
  }
}
