/** What `generate` enumerates: exactly the non-decreasing digit strings of
    the requested length that extend the prefix, each once, in strictly
    ascending lexicographic order, from the prefix padded with the minimum
    digit to the prefix padded with '9'; and what resuming the iterative
    version from a saved state emits. */
module Enumeration {
  import opened Decimal
  import opened Generator

  /** A non-decreasing string of digits none of which is below `m`. */
  predicate Run(t: seq<char>, m: char) {
    NonDecreasing(t) && forall i :: 0 <= i < |t| ==> m <= t[i] <= '9'
  }

  /** The length of the longest common prefix of `a` and `b`. */
  function CommonPrefix(a: seq<char>, b: seq<char>): (r: nat)
    ensures r <= |a| && r <= |b| && a[..r] == b[..r]
    ensures r < |a| && r < |b| ==> a[r] != b[r]
  {
    if a == [] || b == [] || a[0] != b[0] then 0
    else
      var r := 1 + CommonPrefix(a[1..], b[1..]);
      assert a[..r] == [a[0]] + a[1..][..r - 1] && b[..r] == [b[0]] + b[1..][..r - 1];
      r
  }

  /** `a` comes strictly before `b` in lexicographic (that is, `strcmp`)
      order, for strings of the same length: at the first position where
      they differ, `a` has the smaller character. */
  predicate LexLess(a: seq<char>, b: seq<char>) {
    var k := CommonPrefix(a, b);
    k < |a| && k < |b| && a[k] < b[k]
  }

  lemma {:induction false} CommonPrefixAt(a: seq<char>, b: seq<char>, k: nat)
    requires k < |a| && k < |b| && a[..k] == b[..k] && a[k] != b[k]
    ensures CommonPrefix(a, b) == k
  {
    if k > 0 {
      assert a[0] == a[..k][0] && b[0] == b[..k][0];
      assert a[1..][..k - 1] == a[..k][1..] && b[1..][..k - 1] == b[..k][1..];
      CommonPrefixAt(a[1..], b[1..], k - 1);
    }
  }

  /** Two strings that agree up to position `k` and differ there are ordered
      by their characters at `k`. */
  lemma LexLessAt(a: seq<char>, b: seq<char>, k: nat)
    requires k < |a| && k < |b| && a[..k] == b[..k] && a[k] < b[k]
    ensures LexLess(a, b)
  {
    CommonPrefixAt(a, b, k);
  }

  lemma {:induction false} CommonPrefixSymmetric(a: seq<char>, b: seq<char>)
    ensures CommonPrefix(a, b) == CommonPrefix(b, a)
  {
    if a != [] && b != [] && a[0] == b[0] {
      CommonPrefixSymmetric(a[1..], b[1..]);
    }
  }

  predicate Ascending(xs: seq<seq<char>>) {
    forall i, j :: 0 <= i < j < |xs| ==> LexLess(xs[i], xs[j])
  }

  /** `n` copies of `c`. */
  function Rep(c: char, n: nat): (r: seq<char>)
    ensures |r| == n && forall i :: 0 <= i < n ==> r[i] == c
  {
    if n == 0 then [] else [c] + Rep(c, n - 1)
  }

  lemma RunCons(t: seq<char>, m: char)
    requires Run(t, m) && m <= '9'
    ensures Run([m] + t, m)
  {
    var s := [m] + t;
    forall i, j | 0 <= i <= j < |s| ensures s[i] <= s[j] {
      if i > 0 { assert s[i] == t[i - 1] && s[j] == t[j - 1]; }
      else if j > 0 { assert s[j] == t[j - 1]; }
    }
  }

  lemma RunTail(t: seq<char>, m: char)
    requires Run(t, m) && |t| >= 1
    ensures Run(t[1..], t[0])
  {
  }

  /** Every string `Emitted` lists has the prefix, the length and the shape
      the enumeration promises. */
  lemma {:induction false} EmittedSound(p: seq<char>, n: nat, m: char, s: seq<char>)
    requires s in Emitted(p, n, m)
    ensures |s| == |p| + n && s[..|p|] == p && Run(s[|p|..], m)
    decreases n, if m <= '9' then '9' as int - m as int + 1 else 0
  {
    if n == 0 {
      assert s == p;
    } else if s in Emitted(p + [m], n - 1, m) {
      EmittedSound(p + [m], n - 1, m, s);
      assert s[..|p|] == s[..|p| + 1][..|p|];
      assert s[|p|..] == [m] + s[|p| + 1..];
      RunCons(s[|p| + 1..], m);
    } else {
      EmittedSound(p, n, Next(m), s);
    }
  }

  /** Every string of that shape is listed. */
  lemma {:induction false} EmittedComplete(p: seq<char>, n: nat, m: char, s: seq<char>)
    requires |s| == |p| + n && s[..|p|] == p && Run(s[|p|..], m)
    ensures s in Emitted(p, n, m)
    decreases n, if m <= '9' then '9' as int - m as int + 1 else 0
  {
    if n == 0 {
      assert s == p;
    } else {
      var t := s[|p|..];
      assert t[0] == s[|p|];
      if s[|p|] == m {
        assert s[..|p| + 1] == p + [m];
        assert s[|p| + 1..] == t[1..];
        RunTail(t, m);
        EmittedComplete(p + [m], n - 1, m, s);
      } else {
        assert forall i :: 0 <= i < |t| ==> t[0] <= t[i];
        assert Run(t, Next(m));
        EmittedComplete(p, n, Next(m), s);
      }
    }
  }

  /** Membership in the enumeration, both directions. */
  lemma EmittedMembers(p: seq<char>, n: nat, m: char, s: seq<char>)
    ensures s in Emitted(p, n, m) <==> |s| == |p| + n && s[..|p|] == p && Run(s[|p|..], m)
  {
    if s in Emitted(p, n, m) {
      EmittedSound(p, n, m, s);
    }
    if |s| == |p| + n && s[..|p|] == p && Run(s[|p|..], m) {
      EmittedComplete(p, n, m, s);
    }
  }

  lemma AscendingConcat(xs: seq<seq<char>>, ys: seq<seq<char>>)
    requires Ascending(xs) && Ascending(ys)
    requires forall x, y :: x in xs && y in ys ==> LexLess(x, y)
    ensures Ascending(xs + ys)
  {
    var zs := xs + ys;
    forall i, j | 0 <= i < j < |zs| ensures LexLess(zs[i], zs[j]) {
      if j < |xs| {
        assert zs[i] == xs[i] && zs[j] == xs[j];
      } else if i >= |xs| {
        assert zs[i] == ys[i - |xs|] && zs[j] == ys[j - |xs|];
      } else {
        assert zs[i] in xs && zs[j] in ys;
      }
    }
  }

  /** The enumeration is in strictly ascending lexicographic order. */
  lemma {:induction false} EmittedAscending(p: seq<char>, n: nat, m: char)
    ensures Ascending(Emitted(p, n, m))
    decreases n, if m <= '9' then '9' as int - m as int + 1 else 0
  {
    if n > 0 && m <= '9' {
      var xs, ys := Emitted(p + [m], n - 1, m), Emitted(p, n, Next(m));
      EmittedAscending(p + [m], n - 1, m);
      EmittedAscending(p, n, Next(m));
      forall x, y | x in xs && y in ys ensures LexLess(x, y) {
        EmittedSound(p + [m], n - 1, m, x);
        EmittedSound(p, n, Next(m), y);
        assert x[..|p|] == x[..|p| + 1][..|p|];
        assert x[|p|] == (p + [m])[|p|];
        assert y[|p|] == y[|p|..][0];
        LexLessAt(x, y, |p|);
      }
      AscendingConcat(xs, ys);
    }
  }

  lemma LexIrreflexive(a: seq<char>)
    ensures !LexLess(a, a)
  {
  }

  /** In particular no string is emitted twice. */
  lemma AscendingDistinct(xs: seq<seq<char>>, i: nat, j: nat)
    requires Ascending(xs) && i < |xs| && j < |xs| && i != j
    ensures xs[i] != xs[j]
  {
    LexIrreflexive(xs[i]);
    if i < j {
      assert LexLess(xs[i], xs[j]);
    } else {
      assert LexLess(xs[j], xs[i]);
    }
  }

  /** The first string emitted pads the prefix with the minimum digit. */
  lemma {:induction false} EmittedFirst(p: seq<char>, n: nat, m: char)
    requires m <= '9'
    ensures |Emitted(p, n, m)| >= 1 && Emitted(p, n, m)[0] == p + Rep(m, n)
    decreases n
  {
    if n > 0 {
      EmittedFirst(p + [m], n - 1, m);
      assert (p + [m]) + Rep(m, n - 1) == p + Rep(m, n);
    }
  }

  /** The last string emitted pads the prefix with '9'. */
  lemma {:induction false} EmittedLast(p: seq<char>, n: nat, m: char)
    requires m <= '9'
    ensures |Emitted(p, n, m)| >= 1
    ensures Emitted(p, n, m)[|Emitted(p, n, m)| - 1] == p + Rep('9', n)
    decreases n, '9' as int - m as int
  {
    if n > 0 {
      EmittedNonEmpty(p + [m], n - 1, m);
      if m == '9' {
        EmittedLast(p + [m], n - 1, m);
        assert Emitted(p, n, Next(m)) == [];
        assert Emitted(p, n, m) == Emitted(p + [m], n - 1, m);
        assert (p + ['9']) + Rep('9', n - 1) == p + Rep('9', n);
      } else {
        EmittedLast(p, n, Next(m));
      }
    }
  }

  /** `r` is a tail of `e`: what remains of `e` after dropping some strings
      in front. */
  predicate IsSuffix(r: seq<seq<char>>, e: seq<seq<char>>) {
    |r| <= |e| && e[|e| - |r|..] == r
  }

  lemma SuffixOfConcat(x: seq<seq<char>>, r: seq<seq<char>>)
    ensures IsSuffix(r, x + r)
  {
    assert (x + r)[|x|..] == r;
  }

  lemma SuffixTrans(a: seq<seq<char>>, b: seq<seq<char>>, c: seq<seq<char>>)
    requires IsSuffix(a, b) && IsSuffix(b, c)
    ensures IsSuffix(a, c)
  {
    assert c[|c| - |a|..] == c[|c| - |b|..][|b| - |a|..];
  }

  lemma SuffixAppend(a: seq<seq<char>>, b: seq<seq<char>>, t: seq<seq<char>>)
    requires IsSuffix(a, b)
    ensures IsSuffix(a + t, b + t)
  {
    var x := b[..|b| - |a|];
    assert b == x + a;
    assert b + t == x + (a + t);
    SuffixOfConcat(x, a + t);
  }

  /** Starting the enumeration from a higher minimum digit drops the strings
      in front and keeps the rest as they are. */
  lemma {:induction false} EmittedSuffix(p: seq<char>, n: nat, c: char, m: char)
    requires c <= m && m as int <= '9' as int + 1
    ensures IsSuffix(Emitted(p, n, m), Emitted(p, n, c))
    decreases m as int - c as int
  {
    if c == m || n == 0 {
      SuffixOfConcat([], Emitted(p, n, m));
    } else {
      EmittedSuffix(p, n, Next(c), m);
      SuffixOfConcat(Emitted(p + [c], n - 1, c), Emitted(p, n, Next(c)));
      SuffixTrans(Emitted(p, n, m), Emitted(p, n, Next(c)), Emitted(p, n, c));
    }
  }

  /** Dropping the last digit of a saved state leaves a saved state whose
      minimum is that digit. */
  lemma ResumeStateUp(p: seq<char>, m: char)
    requires ResumeState(p, m) && p != []
    ensures ResumeState(p[..|p| - 1], p[|p| - 1])
  {
    var q := p[..|p| - 1];
    if q != [] {
      assert q[|q| - 1] == p[|p| - 2];
    }
  }

  /** Resuming below prefix `p` at a minimum `m` not below its last digit `c`
      emits a tail of what resuming one position higher at `c` emits. */
  lemma ResumedTail(p: seq<char>, n: nat, m: char)
    requires ResumeState(p, m) && p != []
    ensures IsSuffix(Resumed(p, n, m), Resumed(p[..|p| - 1], n + 1, p[|p| - 1]))
  {
    var q, c := p[..|p| - 1], p[|p| - 1];
    var up := Resumed(q, n + 1, Next(c));
    assert Resumed(p, n, m) == Emitted(p, n, m) + up by {
      AfterBackUp(p, n);
    }
    assert Resumed(q, n + 1, c) == Emitted(p, n, c) + up by {
      assert q + [c] == p;
      assert Resumed(q, n + 1, c) == (Emitted(p, n, c) + Emitted(q, n + 1, Next(c))) + After(q, n + 1);
    }
    assert IsSuffix(Emitted(p, n, m) + up, Emitted(p, n, c) + up) by {
      EmittedSuffix(p, n, c, m);
      SuffixAppend(Emitted(p, n, m), Emitted(p, n, c), up);
    }
  }

  /** Resuming the iterative generator from a saved state emits exactly the
      tail of the full enumeration of strings of that length. */
  lemma {:induction false} ResumedIsSuffix(p: seq<char>, n: nat, m: char)
    requires ResumeState(p, m)
    ensures IsSuffix(Resumed(p, n, m), Emitted([], |p| + n, '0'))
    decreases |p|
  {
    if p == [] {
      EmittedSuffix([], n, '0', m);
      assert Resumed(p, n, m) == Emitted([], n, m) + [];
    } else {
      var q, c := p[..|p| - 1], p[|p| - 1];
      ResumeStateUp(p, m);
      ResumedIsSuffix(q, n + 1, c);
      ResumedTail(p, n, m);
      assert |q| + (n + 1) == |p| + n;
      SuffixTrans(Resumed(p, n, m), Resumed(q, n + 1, c), Emitted([], |p| + n, '0'));
    }
  }

  /** ... and that tail starts at the string the saved state denotes. */
  lemma ResumedFirst(p: seq<char>, n: nat, m: char)
    requires AllDigits(p) && m <= '9'
    ensures |Resumed(p, n, m)| >= 1 && Resumed(p, n, m)[0] == p + Rep(m, n)
  {
    EmittedFirst(p, n, m);
  }

  /** `a` is `b` or comes before it. */
  predicate LexLessEq(a: seq<char>, b: seq<char>) {
    a == b || LexLess(a, b)
  }

  lemma LexAsymmetric(a: seq<char>, b: seq<char>)
    ensures LexLess(a, b) ==> !LexLess(b, a) && a != b
  {
    CommonPrefixSymmetric(a, b);
  }

  /** In an ascending sequence, a tail holds exactly the elements that are
      not below its first one. */
  lemma TailMembers(e: seq<seq<char>>, r: seq<seq<char>>, s: seq<char>)
    requires Ascending(e) && IsSuffix(r, e) && |r| >= 1
    ensures s in r <==> s in e && LexLessEq(r[0], s)
  {
    var x := e[..|e| - |r|];
    assert e == x + r;
    assert e[|x|] == r[0];
    if s in r {
      var j :| 0 <= j < |r| && r[j] == s;
      assert e[|x| + j] == s;
      if j > 0 {
        assert LexLess(e[|x|], e[|x| + j]);
      }
    }
    if s in e && LexLessEq(r[0], s) {
      var i :| 0 <= i < |e| && e[i] == s;
      LexAsymmetric(s, r[0]);
      assert i >= |x|;
      assert r[i - |x|] == s;
    }
  }

  /** Resumed from a saved state, the iterative generator emits exactly the
      strings of the full enumeration that are not below the string the state
      denotes (its prefix padded with its minimum digit). */
  lemma ResumedMembers(p: seq<char>, n: nat, m: char, s: seq<char>)
    requires ResumeState(p, m) && m <= '9'
    ensures s in Resumed(p, n, m) <==> s in Emitted([], |p| + n, '0') && LexLessEq(p + Rep(m, n), s)
  {
    var e, r := Emitted([], |p| + n, '0'), Resumed(p, n, m);
    assert |r| >= 1 && r[0] == p + Rep(m, n) by {
      ResumedFirst(p, n, m);
    }
    assert s in r <==> s in e && LexLessEq(r[0], s) by {
      ResumedIsSuffix(p, n, m);
      EmittedAscending([], |p| + n, '0');
      TailMembers(e, r, s);
    }
  }

  /** Started at position 0, the iterative generator emits exactly what the
      recursive one does. */
  lemma ResumedFromStart(n: nat, m: char)
    ensures Resumed([], n, m) == Emitted([], n, m)
  {
  }

  /** Inserting a digit into a sorted string (one step of sorting). */
  function Insert(c: char, s: seq<char>): (r: seq<char>)
    ensures multiset(r) == multiset(s) + multiset{c}
  {
    if s == [] || c <= s[0] then [c] + s
    else
      assert s == [s[0]] + s[1..];
      [s[0]] + Insert(c, s[1..])
  }

  /** The digits of `t` in ascending order. */
  function Sort(t: seq<char>): (r: seq<char>)
    ensures multiset(r) == multiset(t)
  {
    if t == [] then [] else
      assert t == [t[0]] + t[1..];
      Insert(t[0], Sort(t[1..]))
  }

  lemma {:induction false} InsertSorted(c: char, s: seq<char>)
    requires NonDecreasing(s)
    ensures NonDecreasing(Insert(c, s))
  {
    if s == [] || c <= s[0] {
      assert forall k | 0 <= k < |s| :: c <= s[k];
      ConsSorted(c, s);
    } else {
      var u := Insert(c, s[1..]);
      assert NonDecreasing(u) by {
        SortedTail(s);
        InsertSorted(c, s[1..]);
      }
      forall k | 0 <= k < |u| ensures s[0] <= u[k] {
        assert u[k] in multiset(s[1..]) + multiset{c} by {
          assert u[k] in multiset(u);
        }
        if u[k] in multiset(s[1..]) {
          var h :| 0 <= h < |s[1..]| && s[1..][h] == u[k];
          assert s[0] <= s[h + 1];
        }
      }
      ConsSorted(s[0], u);
    }
  }

  /** A character at most every character of a sorted string may be put in
      front of it. */
  lemma ConsSorted(x: char, u: seq<char>)
    requires NonDecreasing(u) && forall k | 0 <= k < |u| :: x <= u[k]
    ensures NonDecreasing([x] + u)
  {
    var r := [x] + u;
    forall i, j | 0 <= i <= j < |r| ensures r[i] <= r[j] {
      if i > 0 { assert r[i] == u[i - 1] && r[j] == u[j - 1]; }
      else if j > 0 { assert r[j] == u[j - 1]; }
    }
  }

  lemma {:induction false} SortSorted(t: seq<char>)
    ensures NonDecreasing(Sort(t))
  {
    if t != [] {
      SortSorted(t[1..]);
      InsertSorted(t[0], Sort(t[1..]));
    }
  }

  /** The smallest character of a non-empty sorted string is its first. */
  lemma SortedHead(s: seq<char>, c: char)
    requires NonDecreasing(s) && c in multiset(s)
    ensures s[0] <= c
  {
    var k :| 0 <= k < |s| && s[k] == c;
  }

  lemma SortedTail(s: seq<char>)
    requires NonDecreasing(s) && s != []
    ensures NonDecreasing(s[1..])
  {
    var t := s[1..];
    forall i, j | 0 <= i <= j < |t| ensures t[i] <= t[j] {
      assert t[i] == s[i + 1] && t[j] == s[j + 1];
    }
  }

  lemma MultisetTail(s: seq<char>)
    requires s != []
    ensures multiset(s[1..]) == multiset(s) - multiset{s[0]}
  {
    assert s == [s[0]] + s[1..];
  }

  /** A sorted string is determined by its multiset of characters. */
  lemma {:induction false} SortedUnique(a: seq<char>, b: seq<char>)
    requires NonDecreasing(a) && NonDecreasing(b) && multiset(a) == multiset(b)
    ensures a == b
  {
    assert |a| == |b| by {
      assert |a| == |multiset(a)| && |b| == |multiset(b)|;
    }
    if a != [] {
      assert a[0] == b[0] by {
        assert a[0] in multiset(a) && b[0] in multiset(b);
        SortedHead(b, a[0]);
        SortedHead(a, b[0]);
      }
      assert a[1..] == b[1..] by {
        MultisetTail(a);
        MultisetTail(b);
        SortedTail(a);
        SortedTail(b);
        SortedUnique(a[1..], b[1..]);
      }
      HeadTail(a, b);
    }
  }

  lemma HeadTail(a: seq<char>, b: seq<char>)
    requires a != [] && b != [] && a[0] == b[0] && a[1..] == b[1..]
    ensures a == b
  {
    assert a == [a[0]] + a[1..] && b == [b[0]] + b[1..];
  }

  lemma DigitsRun(t: seq<char>)
    requires AllDigits(t) && NonDecreasing(t)
    ensures Run(t, '0')
  {
  }

  lemma RunDigits(t: seq<char>)
    requires Run(t, '0')
    ensures AllDigits(t)
  {
  }

  /** Every multiset of `n` digits is emitted, as its sorted string, by the
      enumeration of all strings of length `n` ... */
  lemma Covers(t: seq<char>)
    requires AllDigits(t)
    ensures exists i :: 0 <= i < |Emitted([], |t|, '0')| && multiset(Emitted([], |t|, '0')[i]) == multiset(t)
  {
    var s := Sort(t);
    SortSorted(t);
    assert |s| == |multiset(s)| == |multiset(t)| == |t|;
    forall k | 0 <= k < |s| ensures IsDigit(s[k]) {
      assert s[k] in multiset(t);
    }
    DigitsRun(s);
    assert s[..0] == [] && s[0..] == s;
    EmittedComplete([], |t|, '0', s);
    var i :| 0 <= i < |Emitted([], |t|, '0')| && Emitted([], |t|, '0')[i] == s;
  }

  /** ... and only once. */
  lemma CoversOnce(n: nat, i: nat, j: nat)
    requires i < |Emitted([], n, '0')| && j < |Emitted([], n, '0')|
    requires multiset(Emitted([], n, '0')[i]) == multiset(Emitted([], n, '0')[j])
    ensures i == j
  {
    var xs := Emitted([], n, '0');
    assert xs[i] in xs && xs[j] in xs;
    EmittedSound([], n, '0', xs[i]);
    EmittedSound([], n, '0', xs[j]);
    assert xs[i][0..] == xs[i] && xs[j][0..] == xs[j];
    SortedUnique(xs[i], xs[j]);
    EmittedAscending([], n, '0');
    if i != j {
      AscendingDistinct(xs, i, j);
    }
  }
}
