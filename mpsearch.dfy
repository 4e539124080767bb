/** The program's entry point: it enumerates the six-digit candidates with
    the iterative generator and computes the persistence of the sample
    "277777788888899". */
module MpSearch {
  import opened Decimal
  import opened PersistenceCheck
  import opened Generator
  import opened Enumeration
  import opened Counting
  import opened Sample

  /** The length of the strings the program enumerates. */
  const SEARCH_DIGITS: nat := 6

  /** Every string of `n` digits has the persistence of some string the
      enumeration of length `n` lists, which is why enumerating only
      non-decreasing strings suffices for the search. */
  lemma CoversPersistence(n: nat, t: seq<char>)
    requires AllDigits(t) && |t| == n
    ensures exists s :: s in Emitted([], n, '0') && AllDigits(s) && Persistence(s) == Persistence(t)
  {
    Covers(t);
    var e := Emitted([], n, '0');
    var i :| 0 <= i < |e| && multiset(e[i]) == multiset(t);
    assert e[i] in e;
    EmittedSound([], n, '0', e[i]);
    assert e[i][0..] == e[i];
    RunDigits(e[i]);
    PersistenceOfPermutation(e[i], t);
  }

  /** C(15, 9) = 5005, in the form the count of `EnumerateAll` takes. */
  lemma SixDigitBinomial(n: nat)
    requires n == SEARCH_DIGITS
    ensures 5005 * (Fact(n) * Fact(9)) == Fact(n + 9)
  {
    assert Fact(6) == 720 && Fact(9) == 362880 && Fact(15) == 1307674368000;
  }

  /** The iterative generator started at position 0 with minimum '0' on a
      fresh buffer, as `main` calls it: it emits every non-decreasing digit
      string of length `digits`, each once, in ascending order, from all '0's
      to all '9's, `count` of them when `count` is C(digits + 9, 9). */
  method EnumerateAll(digits: nat, count: nat) returns (ghost emitted: seq<seq<char>>)
    requires digits < BUFFER_SZ
    requires count * (Fact(digits) * Fact(9)) == Fact(digits + 9)
    ensures |emitted| == count && Ascending(emitted)
    ensures forall s :: s in emitted <==> |s| == digits && Run(s, '0')
    ensures |emitted| >= 1 && emitted[0] == Rep('0', digits) && emitted[|emitted| - 1] == Rep('9', digits)
  {
    var buffer := new char[BUFFER_SZ];
    label start:
    emitted := Generate(buffer, digits, 0, '0');
    ghost var p := old@start(buffer[..0]);
    FromStart(p, digits, count, emitted);
  }

  /** What the iterative generator emits when started with an empty prefix
      and minimum '0'. */
  lemma FromStart(p: seq<char>, n: nat, count: nat, e: seq<seq<char>>)
    requires |p| == 0 && e == Resumed(p, n, '0')
    requires count * (Fact(n) * Fact(9)) == Fact(n + 9)
    ensures |e| == count && Ascending(e)
    ensures forall s :: s in e <==> |s| == n && Run(s, '0')
    ensures |e| >= 1 && e[0] == Rep('0', n) && e[|e| - 1] == Rep('9', n)
  {
    assert p == [];
    ResumedFromStart(n, '0');
    FullCount(n, count);
    EmittedAscending([], n, '0');
    forall s ensures s in e <==> |s| == n && Run(s, '0') {
      EmittedMembers([], n, '0', s);
      assert s[..0] == [] && s[0..] == s;
    }
    EmittedFirst([], n, '0');
    EmittedLast([], n, '0');
    assert [] + Rep('0', n) == Rep('0', n) && [] + Rep('9', n) == Rep('9', n);
  }

  /** `main` once its argument count is accepted: `generate(buffer, 6, 0,
      '0')`, which emits the non-decreasing six-digit strings, each once, in
      ascending order, from "000000" to "999999"; then `check` of the sample,
      whose persistence is 11. */
  method Search() returns (p: int, ghost emitted: seq<seq<char>>)
    ensures |emitted| == 5005 && Ascending(emitted)
    ensures forall s :: s in emitted <==> |s| == SEARCH_DIGITS && Run(s, '0')
    ensures emitted[0] == "000000" && emitted[|emitted| - 1] == "999999"
    ensures p == 11
  {
    SixDigitBinomial(SEARCH_DIGITS);
    emitted := EnumerateAll(SEARCH_DIGITS, 5005);
    assert emitted[0] == "000000" && emitted[|emitted| - 1] == "999999" by {
      assert Rep('0', 6) == "000000" && Rep('9', 6) == "999999";
    }
    assert AllDigits(SAMPLE) && |SAMPLE| < BUFFER_SZ && Persistence(SAMPLE) == 11 by {
      SamplePersistence();
    }
    p := Check(SAMPLE);
  }
}
