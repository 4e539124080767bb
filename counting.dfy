/** How many strings `generate` emits: one per multiset of `n` digits drawn
    from the digits at or above the minimum, that is, "k multichoose n",
    which equals (n + k - 1)! / (n! (k - 1)!). */
module Counting {
  import opened Generator

  function Fact(n: nat): (r: nat)
    ensures r >= 1
  {
    if n == 0 then 1 else n * Fact(n - 1)
  }

  /** The number of multisets of size `n` over `k` kinds, by Pascal's rule:
      either the smallest kind occurs (and one fewer element remains to
      choose) or it does not (and one fewer kind remains). */
  function Multichoose(k: nat, n: nat): nat
    decreases k + n
  {
    if n == 0 then 1
    else if k == 0 then 0
    else Multichoose(k, n - 1) + Multichoose(k - 1, n)
  }

  /** How many digits a position may take when `m` is the minimum. */
  function Kinds(m: char): (k: nat)
    ensures '0' <= m ==> k <= 10
  {
    if m <= '9' then '9' as int - m as int + 1 else 0
  }

  /** The enumeration lists one string per multiset of `n` digits at or
      above `m`. */
  lemma {:induction false} EmittedCount(p: seq<char>, n: nat, m: char)
    ensures |Emitted(p, n, m)| == Multichoose(Kinds(m), n)
    decreases n, Kinds(m)
  {
    if n > 0 && m <= '9' {
      EmittedCount(p + [m], n - 1, m);
      EmittedCount(p, n, Next(m));
      assert Kinds(Next(m)) == Kinds(m) - 1;
    }
  }

  lemma {:induction false} MultichooseOne(n: nat)
    ensures Multichoose(1, n) == 1
  {
    if n > 0 {
      MultichooseOne(n - 1);
      assert Multichoose(0, n) == 0;
    }
  }

  /** The closed form: multichoose(k, n) * n! * (k - 1)! == (n + k - 1)!. */
  lemma {:induction false} MultichooseFactorial(k: nat, n: nat)
    requires k >= 1
    ensures Multichoose(k, n) * Fact(n) * Fact(k - 1) == Fact(n + k - 1)
    decreases k + n
  {
    if n == 0 {
    } else if k == 1 {
      MultichooseOne(n);
    } else {
      MultichooseFactorial(k, n - 1);
      MultichooseFactorial(k - 1, n);
      PascalStep(Multichoose(k, n - 1), Multichoose(k - 1, n), n, k, Fact(n - 1), Fact(k - 2), Fact(n + k - 2));
    }
  }

  /** The arithmetic step of the closed form, with the factorials named. */
  lemma PascalStep(a: nat, b: nat, n: nat, k: nat, fn1: nat, fk2: nat, f: nat)
    requires a * fn1 * ((k - 1) * fk2) == f && b * (n * fn1) * fk2 == f
    requires n >= 1 && k >= 2
    ensures (a + b) * (n * fn1) * ((k - 1) * fk2) == (n + k - 1) * f
  {
    var fn, fk1 := n * fn1, (k - 1) * fk2;
    assert (a + b) * fn * fk1 == a * fn * fk1 + b * fn * fk1;
    assert a * fn * fk1 == n * (a * fn1 * fk1);
    assert b * fn * fk1 == (k - 1) * (b * fn * fk2);
    assert n * f + (k - 1) * f == (n + k - 1) * f;
  }

  lemma CancelFactor(a: nat, b: nat, x: nat, y: nat)
    requires x > 0 && y > 0 && a * x * y == b * (x * y)
    ensures a == b
  {
    assert a * x * y == a * (x * y);
  }

  /** With `n` digits to place and every digit allowed, the enumeration has
      (n + 9)! / (n! 9!) strings; `count` is that number. */
  lemma FullCount(n: nat, count: nat)
    requires count * (Fact(n) * Fact(9)) == Fact(n + 9)
    ensures |Emitted([], n, '0')| == count
  {
    EmittedCount([], n, '0');
    MultichooseFactorial(10, n);
    CancelFactor(Multichoose(10, n), count, Fact(n), Fact(9));
  }
}
