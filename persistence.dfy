/** Multiplicative persistence of a decimal digit string, and the `check`
    routine that computes it over a fixed-size character buffer with an
    arbitrary-precision accumulator. The accumulator is modelled as a `nat`:
    setting it, multiplying it by a small integer and rendering it in base 10
    have their plain integer meaning. */
module PersistenceCheck {
  import opened Decimal

  /** Capacity of the character buffer of `check`. */
  const BUFFER_SZ: nat := 1024

  /** The product of the digits of `s` (1 for the empty string). */
  function DigitProduct(s: seq<char>): nat
    requires AllDigits(s)
  {
    if s == [] then 1 else DigitValue(s[0]) * DigitProduct(s[1..])
  }

  /** One pass of `check`: the decimal rendering of the product of the digits. */
  function Step(s: seq<char>): (r: seq<char>)
    requires AllDigits(s)
    ensures Canonical(r) && Value(r) == DigitProduct(s)
  {
    ToDecimal(DigitProduct(s))
  }

  /** The number of passes until at most one digit remains. */
  function Persistence(s: seq<char>): nat
    requires AllDigits(s)
    decreases Value(s) + |s|
  {
    if |s| <= 1 then 0
    else
      StepShrinks(s);
      1 + Persistence(Step(s))
  }

  /** `Step` applied `k` times. */
  function Iterate(s: seq<char>, k: nat): (r: seq<char>)
    requires AllDigits(s)
    ensures AllDigits(r)
    decreases k
  {
    if k == 0 then s else Iterate(Step(s), k - 1)
  }

  // ---------------------------------------------------------------------
  // Bounds: the product never needs more digits than the string it came
  // from, and is below the value of any string denoting ten or more.
  // ---------------------------------------------------------------------

  lemma MulAtMost(a: nat, b: nat, c: nat)
    requires b <= c
    ensures a * b <= a * c && b * a <= c * a
  {
  }

  /** A chain of passes that ends in a string of at most one digit has as
      many links as the persistence of its first string. */
  lemma {:induction false} PersistenceOfChain(c: seq<seq<char>>)
    requires |c| >= 1 && |c[|c| - 1]| <= 1
    requires forall i :: 0 <= i < |c| ==> AllDigits(c[i])
    requires forall i :: 0 <= i < |c| - 1 ==> |c[i]| > 1 && Step(c[i]) == c[i + 1]
    ensures Persistence(c[0]) == |c| - 1
  {
    if |c| > 1 {
      PersistenceOfChain(c[1..]);
      assert c[1..][0] == c[1];
    }
  }

  lemma MulAssoc(a: nat, b: nat, c: nat)
    ensures a * (b * c) == (a * b) * c
  {
  }

  lemma DigitsOfConcat(a: seq<char>, b: seq<char>)
    requires AllDigits(a) && AllDigits(b)
    ensures AllDigits(a + b)
  {
    forall i | 0 <= i < |a + b| ensures IsDigit((a + b)[i]) {
      if i < |a| { assert (a + b)[i] == a[i]; } else { assert (a + b)[i] == b[i - |a|]; }
    }
  }

  lemma {:induction false} ProductOfConcat(a: seq<char>, b: seq<char>)
    requires AllDigits(a) && AllDigits(b)
    ensures AllDigits(a + b) && DigitProduct(a + b) == DigitProduct(a) * DigitProduct(b)
  {
    DigitsOfConcat(a, b);
    if a == [] {
      assert a + b == b;
    } else {
      var r := a[1..];
      DigitsOfConcat(r, b);
      ProductOfConcat(r, b);
      var d, x, y := DigitValue(a[0]), DigitProduct(r), DigitProduct(b);
      assert DigitProduct(a + b) == d * DigitProduct(r + b) by {
        assert (a + b)[0] == a[0] && (a + b)[1..] == r + b;
      }
      MulAssoc(d, x, y);
    }
  }

  /** Multiplying in one more digit, as each step of the inner loop of
      `check` does. */
  lemma ProductAppend(s: seq<char>, c: char)
    requires AllDigits(s) && IsDigit(c)
    ensures AllDigits(s + [c]) && DigitProduct(s + [c]) == DigitProduct(s) * DigitValue(c)
  {
    ProductOfConcat(s, [c]);
    assert [c][1..] == [];
  }

  lemma {:induction false} ProductBelowPow10(s: seq<char>)
    requires AllDigits(s) && |s| >= 1
    ensures DigitProduct(s) < Pow10(|s|)
  {
    if |s| == 1 {
      assert s[1..] == [];
      assert Pow10(1) == 10;
    } else {
      var r := s[1..];
      ProductBelowPow10(r);
      var a, d := DigitProduct(r), DigitValue(s[0]);
      assert DigitProduct(s) == d * a;
      MulAtMost(a, d, 9);
      assert a * 9 < 10 * Pow10(|r|);
      assert Pow10(|s|) == 10 * Pow10(|r|);
    }
  }

  /** A pass never lengthens a non-empty string, so the rendering of the
      product always fits where the string was. */
  lemma StepLength(s: seq<char>)
    requires AllDigits(s) && |s| >= 1
    ensures |Step(s)| <= |s|
  {
    ProductBelowPow10(s);
    DecimalLength(DigitProduct(s), |s|);
  }

  lemma {:induction false} ProductAtMostValue(s: seq<char>)
    requires AllDigits(s) && |s| >= 1
    ensures DigitProduct(s) <= Value(s)
  {
    var p, c := s[..|s| - 1], s[|s| - 1];
    assert s == p + [c];
    ProductAppend(p, c);
    if |s| == 1 {
      assert p == [];
    } else {
      ProductAtMostValue(p);
      var a, v, d := DigitProduct(p), Value(p), DigitValue(c);
      assert DigitProduct(s) == a * d && Value(s) == 10 * v + d;
      MulAtMost(d, a, v);
      MulAtMost(v, d, 9);
    }
  }

  /** Once the string denotes ten or more, the product of its digits is
      strictly smaller than the number it denotes. */
  lemma ProductBelowValue(s: seq<char>)
    requires AllDigits(s) && Value(s) >= 10
    ensures DigitProduct(s) < Value(s)
  {
    var p, c := s[..|s| - 1], s[|s| - 1];
    var d := DigitValue(c);
    assert s == p + [c];
    ProductAppend(p, c);
    assert Value(p) >= 1;
    if |p| >= 1 {
      ProductAtMostValue(p);
    }
    var a, v := DigitProduct(p), Value(p);
    assert DigitProduct(s) == a * d && Value(s) == 10 * v + d;
    MulAtMost(d, a, v);
    MulAtMost(v, d, 9);
  }

  /** The termination measure of the persistence loop: value plus length
      strictly decreases on every pass taken. */
  lemma StepShrinks(s: seq<char>)
    requires AllDigits(s) && |s| > 1
    ensures Value(Step(s)) + |Step(s)| < Value(s) + |s|
  {
    StepLength(s);
    if Value(s) >= 10 {
      ProductBelowValue(s);
    } else {
      var p, c := s[..|s| - 1], s[|s| - 1];
      assert s == p + [c];
      ProductAppend(p, c);
      assert Value(p) == 0;
      ProductAtMostValue(p);
      assert DigitProduct(s) == 0;
      assert Step(s) == ToDecimal(0);
    }
  }

  // ---------------------------------------------------------------------
  // What the persistence count means.
  // ---------------------------------------------------------------------

  /** Strings of at most one digit take no pass, and every longer one takes
      at least one. */
  lemma PersistenceZeroIffShort(s: seq<char>)
    requires AllDigits(s)
    ensures Persistence(s) == 0 <==> |s| <= 1
  {
  }

  /** `Persistence(s)` is the least `k` such that `k` passes reach a string of
      at most one digit. */
  lemma {:induction false} PersistenceIsLeast(s: seq<char>)
    requires AllDigits(s)
    ensures |Iterate(s, Persistence(s))| <= 1
    ensures forall j :: 0 <= j < Persistence(s) ==> |Iterate(s, j)| > 1
    decreases Value(s) + |s|
  {
    if |s| > 1 {
      StepShrinks(s);
      PersistenceIsLeast(Step(s));
      forall j | 0 <= j < Persistence(s) ensures |Iterate(s, j)| > 1 {
        if j > 0 {
          assert Iterate(s, j) == Iterate(Step(s), j - 1);
        }
      }
    }
  }

  /** Taking the digit at `j` out of `t` divides the product by that digit. */
  lemma ProductWithout(t: seq<char>, j: nat)
    requires AllDigits(t) && j < |t|
    ensures AllDigits(t[..j] + t[j + 1..])
    ensures DigitProduct(t) == DigitValue(t[j]) * DigitProduct(t[..j] + t[j + 1..])
  {
    var t1, c, t2 := t[..j], t[j], t[j + 1..];
    assert t == (t1 + [c]) + t2;
    assert AllDigits(t1) && AllDigits(t2);
    ProductOfConcat(t1 + [c], t2);
    ProductAppend(t1, c);
    ProductOfConcat(t1, t2);
    var a, b, d := DigitProduct(t1), DigitProduct(t2), DigitValue(c);
    assert DigitProduct(t) == DigitProduct(t1 + [c]) * b;
    assert DigitProduct(t1 + [c]) == a * d;
    assert DigitProduct(t1 + t2) == a * b;
    Rearrange(a, b, d);
  }

  lemma Rearrange(a: nat, b: nat, d: nat)
    ensures (a * d) * b == d * (a * b)
  {
  }

  lemma MultisetWithout(s: seq<char>, t: seq<char>, j: nat)
    requires multiset(s) == multiset(t) && s != [] && j < |t| && t[j] == s[0]
    ensures multiset(s[1..]) == multiset(t[..j] + t[j + 1..])
  {
    var c := s[0];
    assert s == [c] + s[1..];
    assert t == t[..j] + [c] + t[j + 1..];
    calc {
      multiset(t[..j] + t[j + 1..]) + multiset{c};
      multiset(t[..j]) + multiset(t[j + 1..]) + multiset([c]);
      multiset(t[..j] + [c] + t[j + 1..]);
      multiset(s);
      multiset([c] + s[1..]);
      multiset(s[1..]) + multiset{c};
    }
    assert multiset(t[..j] + t[j + 1..]) == multiset(t[..j] + t[j + 1..]) + multiset{c} - multiset{c};
    assert multiset(s[1..]) == multiset(s[1..]) + multiset{c} - multiset{c};
  }

  /** The product of the digits does not depend on their order. */
  lemma {:induction false} ProductOfPermutation(s: seq<char>, t: seq<char>)
    requires AllDigits(s) && AllDigits(t) && multiset(s) == multiset(t)
    ensures DigitProduct(s) == DigitProduct(t)
  {
    if s != [] {
      assert s[0] in multiset(t);
      var j :| 0 <= j < |t| && t[j] == s[0];
      MultisetWithout(s, t, j);
      ProductWithout(t, j);
      ProductOfPermutation(s[1..], t[..j] + t[j + 1..]);
    } else {
      assert |t| == |multiset(t)| == 0;
    }
  }

  lemma DigitsOfPermutation(s: seq<char>, t: seq<char>)
    requires AllDigits(s) && multiset(s) == multiset(t)
    ensures AllDigits(t)
  {
    forall i | 0 <= i < |t| ensures IsDigit(t[i]) {
      assert t[i] in multiset(s);
    }
  }

  /** Persistence depends only on the multiset of digits: reordering the
      input does not change the result. */
  lemma PersistenceOfPermutation(s: seq<char>, t: seq<char>)
    requires AllDigits(s) && multiset(s) == multiset(t)
    ensures AllDigits(t) && Persistence(s) == Persistence(t)
  {
    DigitsOfPermutation(s, t);
    assert |s| == |multiset(s)| == |t|;
    if |s| > 1 {
      ProductOfPermutation(s, t);
    }
  }

  /** The product of the digits is zero exactly when some digit is '0'. */
  lemma {:induction false} ProductZeroIffZeroDigit(s: seq<char>)
    requires AllDigits(s)
    ensures DigitProduct(s) == 0 <==> '0' in s
  {
    if s != [] {
      ProductZeroIffZeroDigit(s[1..]);
      assert s == [s[0]] + s[1..];
      assert '0' in s <==> s[0] == '0' || '0' in s[1..];
    }
  }

  /** A string of two or more digits that contains a zero takes exactly one
      pass: its product is 0, rendered "0". */
  lemma PersistenceWithZero(s: seq<char>)
    requires AllDigits(s) && |s| > 1 && '0' in s
    ensures Persistence(s) == 1
  {
    ProductZeroIffZeroDigit(s);
    assert Step(s) == ToDecimal(0);
  }

  // ---------------------------------------------------------------------
  // The routine itself.
  // ---------------------------------------------------------------------

  /** `mpz_get_str(buffer, 10, n)`: writes the canonical rendering of `n`
      followed by a NUL terminator at the start of `buffer`. */
  method StoreDecimal(buffer: array<char>, n: nat)
    requires |ToDecimal(n)| < buffer.Length
    modifies buffer
    ensures buffer[..|ToDecimal(n)|] == ToDecimal(n)
    ensures buffer[|ToDecimal(n)|] == '\0'
    ensures forall i :: |ToDecimal(n)| < i < buffer.Length ==> buffer[i] == old(buffer[i])
  {
    var s := ToDecimal(n);
    var i := 0;
    while i < |s|
      invariant 0 <= i <= |s|
      invariant buffer[..i] == s[..i]
      invariant forall k :: |s| <= k < buffer.Length ==> buffer[k] == old(buffer[k])
    {
      buffer[i] := s[i];
      i := i + 1;
    }
    buffer[|s|] := '\0';
  }

  /** `strlen`: the index of the first NUL character. */
  method Strlen(s: array<char>) returns (n: nat)
    requires exists i :: 0 <= i < s.Length && s[i] == '\0'
    ensures n < s.Length && s[n] == '\0'
    ensures forall i :: 0 <= i < n ==> s[i] != '\0'
  {
    n := 0;
    while s[n] != '\0'
      invariant n < s.Length
      invariant forall i :: 0 <= i < n ==> s[i] != '\0'
      invariant exists i :: n <= i < s.Length && s[i] == '\0'
      decreases s.Length - n
    {
      n := n + 1;
    }
  }

  /** After the rendering `t` is stored with its terminator, the first NUL of
      the buffer is right after it. */
  lemma FirstNul(a: seq<char>, t: seq<char>, len: nat)
    requires |t| < |a| && a[..|t|] == t && AllDigits(t) && a[|t|] == '\0'
    requires len < |a| && a[len] == '\0' && forall i :: 0 <= i < len ==> a[i] != '\0'
    ensures len == |t|
  {
    assert forall i :: 0 <= i < |t| ==> a[i] == t[i];
  }

  /** The inner loop of `check`: the accumulator is set to 1 and multiplied
      by each of the first `len` digits of the buffer in turn. */
  method MultiplyDigits(buffer: array<char>, len: nat) returns (acc: nat)
    requires len <= buffer.Length && AllDigits(buffer[..len])
    ensures acc == DigitProduct(buffer[..len])
  {
    acc := 1;
    var i := 0;
    while i < len
      invariant 0 <= i <= len
      invariant acc == DigitProduct(buffer[..i])
    {
      assert buffer[..i + 1] == buffer[..i] + [buffer[i]];
      assert buffer[..len][i] == buffer[i];
      ProductAppend(buffer[..i], buffer[i]);
      acc := acc * DigitValue(buffer[i]);
      i := i + 1;
    }
  }

  /** `check`: copies `x` into a private buffer of BUFFER_SZ characters, then
      while the current string has more than one digit replaces it by the
      rendering of the product of its digits, counting the passes. */
  method Check(x: seq<char>) returns (iteration: nat)
    requires AllDigits(x) && |x| < BUFFER_SZ
    ensures iteration == Persistence(x)
  {
    // strncpy(buffer, x, BUFFER_SZ): the copy, padded with NUL characters
    var buffer := new char[BUFFER_SZ](i requires 0 <= i < BUFFER_SZ => if i < |x| then x[i] else '\0');
    assert buffer[..|x|] == x;
    var len := |x|;
    iteration := 0;
    while len > 1
      invariant buffer.Length == BUFFER_SZ
      invariant 0 <= len < BUFFER_SZ
      invariant AllDigits(buffer[..len])
      invariant iteration + Persistence(buffer[..len]) == Persistence(x)
      decreases Value(buffer[..len]) + len
    {
      ghost var s := buffer[..len];
      var acc := MultiplyDigits(buffer, len);
      ghost var t := ToDecimal(acc);
      assert t == Step(s);
      StepLength(s);
      StepShrinks(s);
      StoreDecimal(buffer, acc);
      len := Strlen(buffer);
      FirstNul(buffer[..], t, len);
      assert buffer[..len] == t;
      iteration := iteration + 1;
    }
  }
}
