/** The two versions of `generate`: both fill one character buffer in place
    and emit, one string at a time, every non-decreasing digit string of
    length `digits` whose first `d` characters are the ones already in the
    buffer. Each emission (a `printf` of the buffer in the source) is
    modelled as appending `buffer[..digits]` to a ghost output sequence. */
module Generator {
  import opened Decimal

  /** The character after `c`: `i++` and `buffer[d] + 1` on a C `char`, for
      the values that arise here (at most ':'). */
  function Next(c: char): (r: char)
    requires c <= '9'
    ensures r as int == c as int + 1
  {
    (c as int + 1) as char
  }

  /** What the recursive `generate` emits when called with `buffer[..d] == p`,
      `n == digits - d` positions left to fill and minimum digit `m`: with no
      position left, the prefix itself; otherwise, for each digit `i` from `m`
      to '9', what the call for `p + [i]` with minimum `i` emits. */
  function Emitted(p: seq<char>, n: nat, m: char): seq<seq<char>>
    decreases n, if m <= '9' then '9' as int - m as int + 1 else 0
  {
    if n == 0 then [p]
    else if m > '9' then []
    else Emitted(p + [m], n - 1, m) + Emitted(p, n, Next(m))
  }

  /** What the iterative `generate` emits when started with `buffer[..d] == p`,
      `n == digits - d` and minimum `m`: the rest of the current subtree, and
      then what it emits after backing up out of that subtree. */
  function Resumed(p: seq<char>, n: nat, m: char): seq<seq<char>>
    requires AllDigits(p)
    decreases |p|, 1
  {
    Emitted(p, n, m) + After(p, n)
  }

  /** What the iterative `generate` emits after finishing the subtree below
      prefix `p`: it backs up one position and resumes with the digit after
      the last one of `p`; with no position left to back up to, it returns. */
  function After(p: seq<char>, n: nat): seq<seq<char>>
    requires AllDigits(p)
    decreases |p|, 0
  {
    if p == [] then [] else Resumed(p[..|p| - 1], n + 1, Next(p[|p| - 1]))
  }

  predicate NonDecreasing(s: seq<char>) {
    forall i, j :: 0 <= i <= j < |s| ==> s[i] <= s[j]
  }

  /** A saved state of the iterative generator: a non-decreasing prefix of
      digits, and a minimum digit for the next position that is not below
      the prefix's last digit. */
  predicate ResumeState(p: seq<char>, m: char) {
    AllDigits(p) && NonDecreasing(p) && '0' <= m <= ':' && (p != [] ==> p[|p| - 1] <= m)
  }

  /** Placing the minimum at the next position keeps the state a saved
      state. */
  lemma ResumeStatePush(p: seq<char>, m: char)
    requires IsDigit(m)
    ensures ResumeState(p, m) ==> ResumeState(p + [m], m)
  {
    if ResumeState(p, m) {
      var q := p + [m];
      forall i, j | 0 <= i <= j < |q| ensures q[i] <= q[j] {
        if j < |p| {
          assert q[i] == p[i] && q[j] == p[j];
        } else if i < |p| {
          assert q[i] == p[i] <= p[|p| - 1];
        }
      }
    }
  }

  /** Backing up to position `e` of a non-decreasing string of digits and
      taking the digit after the one there as minimum gives a saved state. */
  lemma ResumeStateBackUp(s: seq<char>, e: nat)
    requires AllDigits(s) && NonDecreasing(s) && e < |s| && s[e] < '9'
    ensures ResumeState(s[..e], Next(s[e]))
  {
    var q := s[..e];
    if q != [] {
      assert q[|q| - 1] == s[e - 1];
    }
  }

  lemma {:induction false} EmittedNonEmpty(p: seq<char>, n: nat, m: char)
    requires m <= '9'
    ensures |Emitted(p, n, m)| >= 1
    decreases n
  {
    if n > 0 {
      EmittedNonEmpty(p + [m], n - 1, m);
    }
  }

  /** Placing the minimum digit at the current position does not change what
      remains to be emitted. */
  lemma ResumedPush(p: seq<char>, n: nat, m: char)
    requires AllDigits(p) && IsDigit(m) && n > 0
    ensures AllDigits(p + [m]) && Resumed(p, n, m) == Resumed(p + [m], n - 1, m)
  {
    var q := p + [m];
    assert q[..|q| - 1] == p && q[|q| - 1] == m;
    var up := After(p, n);
    calc {
      Resumed(q, n - 1, m);
      Emitted(q, n - 1, m) + Resumed(p, n, Next(m));
      Emitted(q, n - 1, m) + (Emitted(p, n, Next(m)) + up);
      (Emitted(q, n - 1, m) + Emitted(p, n, Next(m))) + up;
      Emitted(p, n, m) + up;
      Resumed(p, n, m);
    }
  }

  lemma ConcatAssoc<T>(a: seq<T>, b: seq<T>, c: seq<T>)
    ensures (a + b) + c == a + (b + c)
  {
  }

  /** Reaching the last position emits the prefix and then backs up. */
  lemma ResumedEmit(p: seq<char>, m: char)
    requires AllDigits(p)
    ensures Resumed(p, 0, m) == [p] + After(p, 0)
  {
  }

  /** Backing up out of a subtree resumes one position higher with the next
      digit. */
  lemma AfterBackUp(p: seq<char>, n: nat)
    requires AllDigits(p) && |p| >= 1
    ensures AllDigits(p[..|p| - 1])
    ensures After(p, n) == Resumed(p[..|p| - 1], n + 1, Next(p[|p| - 1]))
  {
  }

  /** Resuming past '9' with positions left to fill emits nothing more at
      this position and backs up at once. */
  lemma ResumedExhausted(p: seq<char>, n: nat)
    requires AllDigits(p) && n > 0
    ensures Resumed(p, n, ':') == After(p, n)
  {
  }

  /** The recursive `generate` (the variant compiled with GEN_RECURSIVE). */
  method GenerateRecursive(buffer: array<char>, digits: nat, d: nat, min: char)
    returns (ghost out: seq<seq<char>>)
    requires d <= digits < buffer.Length
    requires AllDigits(buffer[..d]) && '0' <= min
    modifies buffer
    ensures out == Emitted(old(buffer[..d]), digits - d, min)
    ensures buffer[..d] == old(buffer[..d])
    ensures buffer[digits + 1..] == old(buffer[digits + 1..])
    ensures out != [] ==> buffer[..digits] == out[|out| - 1] && buffer[digits] == '\0'
    decreases digits - d
  {
    if d >= digits {
      buffer[d] := '\0';
      out := [buffer[..digits]];
      return;
    }
    ghost var prefix := buffer[..d];
    out := [];
    var i := min;
    while i <= '9'
      invariant '0' <= i
      invariant buffer[..d] == prefix
      invariant buffer[digits + 1..] == old(buffer[digits + 1..])
      invariant out + Emitted(prefix, digits - d, i) == Emitted(prefix, digits - d, min)
      invariant out != [] ==> buffer[..digits] == out[|out| - 1] && buffer[digits] == '\0'
      decreases if i <= '9' then '9' as int - i as int + 1 else 0
    {
      buffer[d] := i;
      assert buffer[..d + 1] == prefix + [i];
      var sub := GenerateRecursive(buffer, digits, d + 1, i);
      assert buffer[..d] == prefix by {
        assert buffer[..d] == buffer[..d + 1][..d];
      }
      ghost var rest := Emitted(prefix, digits - d, Next(i));
      assert (out + sub) + rest == Emitted(prefix, digits - d, min) by {
        assert Emitted(prefix, digits - d, i) == sub + rest;
        ConcatAssoc(out, sub, rest);
      }
      assert sub != [] && (out + sub)[|out + sub| - 1] == sub[|sub| - 1] by {
        EmittedNonEmpty(prefix + [i], digits - d - 1, i);
      }
      out := out + sub;
      i := Next(i);
    }
  }

  /** The `do`-`while` of the iterative `generate`: from the end `d` of a
      completed prefix, back up past every position holding '9' to the
      deepest position whose digit can still be increased, and return it with
      the digit after the one stored there. Resuming there emits what remains
      after the completed subtree; `e < 0` when nothing remains. */
  method BackUp(buffer: array<char>, digits: nat, d: nat) returns (e: int, min: char)
    requires d <= digits < buffer.Length && AllDigits(buffer[..d])
    ensures -1 <= e < d
    ensures e < 0 ==> After(buffer[..d], digits - d) == []
    ensures e >= 0 ==> IsDigit(min) && AllDigits(buffer[..e])
    ensures e >= 0 ==> After(buffer[..d], digits - d) == Resumed(buffer[..e], digits - e, min)
    ensures e >= 0 && NonDecreasing(buffer[..d]) ==> ResumeState(buffer[..e], min)
    ensures e >= 0 ==> buffer[e] < '9' && min == Next(buffer[e])
    ensures forall k :: e < k < d ==> buffer[k] == '9'
  {
    e, min := d, '0';
    while true
      invariant 0 <= e <= d
      invariant AllDigits(buffer[..e])
      invariant forall k :: e <= k < d ==> buffer[k] == '9'
      invariant After(buffer[..d], digits - d) == After(buffer[..e], digits - e)
      decreases e
    {
      ghost var q := buffer[..e];
      e := e - 1;
      if e < 0 {
        return;
      }
      assert q[..|q| - 1] == buffer[..e];
      AfterBackUp(q, digits - e - 1);
      min := Next(buffer[e]);
      if min <= '9' {
        assert NonDecreasing(buffer[..d]) ==> ResumeState(buffer[..e], min) by {
          if NonDecreasing(buffer[..d]) {
            assert buffer[..d][..e] == buffer[..e] && buffer[..d][e] == buffer[e];
            ResumeStateBackUp(buffer[..d], e);
          }
        }
        return;
      }
      ResumedExhausted(buffer[..e], digits - e);
    }
  }

  /** The `if (d >= digits)` block of the iterative `generate`, entered with
      `d == digits`: it terminates the completed string, emits it as `line`,
      and backs up to where the enumeration resumes. */
  method Terminate(buffer: array<char>, digits: nat) returns (e: int, min: char, ghost line: seq<char>)
    requires digits < buffer.Length && AllDigits(buffer[..digits])
    modifies buffer
    ensures line == old(buffer[..digits]) && buffer[..digits] == line && buffer[digits] == '\0'
    ensures buffer[digits + 1..] == old(buffer[digits + 1..])
    ensures -1 <= e < digits
    ensures e < 0 ==> After(line, 0) == []
    ensures e >= 0 ==> IsDigit(min) && AllDigits(buffer[..e])
    ensures e >= 0 ==> After(line, 0) == Resumed(buffer[..e], digits - e, min)
    ensures e >= 0 && NonDecreasing(line) ==> ResumeState(buffer[..e], min)
  {
    buffer[digits] := '\0';
    line := buffer[..digits];
    e, min := BackUp(buffer, digits, digits);
  }

  /** One pass of the `while (1)` loop of the iterative `generate`: when the
      string is complete, terminate, emit and back up (returning with `done`
      when nothing is left); then place `min` at the current position, which
      is what the `for` loop does before it breaks in its first iteration.
      What the generator emits from the old state is what this pass emits
      followed by what it emits from the new state, and a saved state stays
      a saved state. */
  method Pass(buffer: array<char>, digits: nat, d: nat, min: char)
    returns (done: bool, next: nat, nextMin: char, ghost emitted: seq<seq<char>>)
    requires d <= digits < buffer.Length
    requires AllDigits(buffer[..d]) && IsDigit(min)
    modifies buffer
    ensures buffer[digits + 1..] == old(buffer[digits + 1..])
    ensures done ==> emitted == Resumed(old(buffer[..d]), digits - d, min)
    ensures done ==> emitted == [buffer[..digits]] && buffer[digits] == '\0'
    ensures !done ==> next <= digits && AllDigits(buffer[..next]) && IsDigit(nextMin)
    ensures !done ==> Resumed(old(buffer[..d]), digits - d, min) == emitted + Resumed(buffer[..next], digits - next, nextMin)
    ensures !done ==> emitted != [] || next > d
    ensures !done && ResumeState(old(buffer[..d]), min) ==> ResumeState(buffer[..next], nextMin)
  {
    done, next, nextMin, emitted := false, d, min, [];
    if next >= digits {
      ResumedEmit(buffer[..next], nextMin);
      var e;
      ghost var line;
      e, nextMin, line := Terminate(buffer, digits);
      emitted := [line];
      if e < 0 {
        done := true;
        return;
      }
      assert ResumeState(old(buffer[..d]), min) ==> ResumeState(buffer[..e], nextMin) by {
        assert line == old(buffer[..d]);
      }
      next := e;
    }
    var i := nextMin;
    if i <= '9' {
      ghost var prefix := buffer[..next];
      ResumedPush(prefix, digits - next, i);
      buffer[next] := i;
      assert buffer[..next + 1] == prefix + [i];
      ResumeStatePush(prefix, i);
      next := next + 1;
      nextMin := i;
    }
  }

  /** The iterative, resumable `generate`: it emits what `Resumed` describes
      for the prefix and minimum it starts from, and leaves the last string
      emitted, terminated, in the buffer. Started from a saved state, every
      pass of its loop reaches a saved state again. */
  method Generate(buffer: array<char>, digits: nat, d0: nat, min0: char)
    returns (ghost out: seq<seq<char>>)
    requires d0 <= digits < buffer.Length
    requires AllDigits(buffer[..d0]) && IsDigit(min0)
    modifies buffer
    ensures out == Resumed(old(buffer[..d0]), digits - d0, min0)
    ensures out != [] && buffer[..digits] == out[|out| - 1] && buffer[digits] == '\0'
    ensures buffer[digits + 1..] == old(buffer[digits + 1..])
  {
    var d, min := d0, min0;
    ghost var total := Resumed(buffer[..d], digits - d, min);
    ghost var rest := total;
    ghost var saved := ResumeState(buffer[..d], min);
    out := [];
    while true
      invariant d <= digits
      invariant AllDigits(buffer[..d]) && IsDigit(min)
      invariant saved ==> ResumeState(buffer[..d], min)
      invariant rest == Resumed(buffer[..d], digits - d, min)
      invariant out + rest == total
      invariant buffer[digits + 1..] == old(buffer[digits + 1..])
      decreases |rest|, digits - d
    {
      var done;
      ghost var emitted;
      done, d, min, emitted := Pass(buffer, digits, d, min);
      if done {
        out := out + emitted;
        return;
      }
      ghost var rest' := Resumed(buffer[..d], digits - d, min);
      assert (out + emitted) + rest' == total by {
        ConcatAssoc(out, emitted, rest');
      }
      out, rest := out + emitted, rest';
    }
  }
}
