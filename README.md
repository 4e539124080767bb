# mp-search: multiplicative persistence search, modelled in Dafny

`mp-search.c` has two small algorithms.

- `check` computes the *multiplicative persistence* of a decimal digit string. That is the number of passes that replace the string with the decimal rendering of the product of its digits, until at most one digit remains.
- `generate` enumerates every non-decreasing digit string of a given length, in place in one character buffer. There are two versions:
  - the recursive one, compiled with `GEN_RECURSIVE`;
  - the iterative, resumable one, which is the default.

`main` runs the iterative generator for six digits and then checks the sample `"277777788888899"`.

The model has these modules.

- **Decimal** (`decimal.dfy`) covers digit characters, the number a digit string denotes, and `ToDecimal`. `ToDecimal` is the canonical base-10 rendering that `mpz_get_str(buffer, 10, acc)` produces: no leading zeros, and `"0"` for zero.
- **PersistenceCheck** (`persistence.dfy`) holds the specification functions `DigitProduct`, `Step`, `Persistence` and `Iterate`, and their properties:
  - bounds, termination and least-ness;
  - independence of digit order;
  - the zero-digit case.

  It also holds `Check`, the imperative `check` over a `BUFFER_SZ` character array. Its helper methods are the digit-product loop, the `mpz_get_str` store and `strlen`. The GMP accumulator is a `nat`.
- **Sample** (`sample.dfy`) proves that the sample string has persistence 11, one pass at a time.
- **Generator** (`generate.dfy`) holds both versions of `generate` as methods over an `array<char>`. Each emission (the `printf` of the buffer) appends `buffer[..digits]` to a ghost output sequence.
  - `Emitted` is the emission sequence of the recursive version. It is the reference specification.
  - `Resumed`/`After` give the emission sequence of the iterative version from any resume state `(buffer[..d], min)`.
- **Enumeration** (`enumeration.dfy`) describes what is enumerated:
  - exactly the non-decreasing digit strings with the given prefix;
  - in strictly ascending lexicographic order, so each appears once;
  - from the prefix padded with the minimum digit to the prefix padded with '9'.

  Resumed from a saved state, the iterative version emits exactly the tail of the full enumeration that starts at the saved string. Every multiset of digits appears as exactly one emitted string.
- **Counting** (`counting.dfy`) proves that the enumeration has "k multichoose n" strings, and gives the factorial closed form.
- **MpSearch** (`mpsearch.dfy`) holds `main`'s calls and constants: 5005 six-digit strings from "000000" to "999999", and persistence 11 for the sample.

After backing up (mp-search.c:53), `min` is one more than the digit that was at that position, so the saved-state predicate `ResumeState` only requires `min` to be at least the prefix's last digit.

## Model

| member | source | states |
|---|---|---|
| Decimal.ToDecimal | mp-search.c:20 | The rendering is canonical (no leading zero, at least one digit), it denotes `n`, and it has one digit exactly when `n < 10` |
| Decimal.ToDecimalOfValue | mp-search.c:20 | Rendering inverts reading: every canonical digit string is the rendering of the number it denotes |
| Decimal.DecimalLength | mp-search.c:20-21 | The rendering of `n` has at most `k` digits exactly when `n < 10^k`, in both directions |
| PersistenceCheck.Step | mp-search.c:16-20 | One pass leaves a canonical string that denotes the product of the digits of the old one |
| PersistenceCheck.ProductOfConcat | mp-search.c:17-19 | The digit product of a concatenation is the product of the two digit products |
| PersistenceCheck.ProductAppend | mp-search.c:18 | Multiplying in one more digit, as one step of the inner loop does, multiplies the product by that digit's value |
| PersistenceCheck.ProductBelowPow10 | mp-search.c:16-19 | The product of `L >= 1` digits is below `10^L` |
| PersistenceCheck.StepLength | mp-search.c:13-21 | A pass never lengthens a non-empty string, so the rendering always fits in the buffer the string came from |
| PersistenceCheck.ProductAtMostValue | mp-search.c:16-19 | The product of the digits of a non-empty string is at most the number it denotes |
| PersistenceCheck.ProductBelowValue | mp-search.c:16-19 | Once a string denotes 10 or more, the product of its digits is strictly smaller than its value |
| PersistenceCheck.StepShrinks | mp-search.c:14-21 | Every pass the loop takes strictly decreases value plus length, so `check` terminates |
| PersistenceCheck.PersistenceZeroIffShort | mp-search.c:14-23 | The count is 0 exactly for strings of at most one digit (the guard `len > 1`), and at least 1 otherwise |
| PersistenceCheck.PersistenceIsLeast | mp-search.c:14-22 | The count `k` is the least number of passes after which at most one digit remains: `k` passes reach such a string and no fewer do |
| PersistenceCheck.PersistenceOfChain | mp-search.c:14-22 | A chain of passes that ends at a string of at most one digit, with every earlier string longer, has as many links as the persistence of its first string |
| PersistenceCheck.ProductOfPermutation | mp-search.c:16-19 | The digit product depends only on the multiset of digits |
| PersistenceCheck.PersistenceOfPermutation | mp-search.c:14-22 | Reordering the digits of the input does not change the count |
| PersistenceCheck.ProductZeroIffZeroDigit | mp-search.c:16-19 | The digit product is zero exactly when some digit is '0' |
| PersistenceCheck.PersistenceWithZero | mp-search.c:14-22 | A string of two or more digits that contains '0' has count exactly 1 |
| PersistenceCheck.StoreDecimal | mp-search.c:20 | `mpz_get_str` writes the canonical rendering of the accumulator and a NUL terminator at the start of the buffer, and leaves the cells after them alone |
| PersistenceCheck.Strlen | mp-search.c:21 | `strlen` returns the index of the first NUL: the cell there is NUL and none before it is |
| PersistenceCheck.FirstNul | mp-search.c:20-21 | After the rendering is stored with its terminator, `strlen` of the buffer is the rendering's length |
| PersistenceCheck.MultiplyDigits | mp-search.c:16-19 | The accumulator ends as the product of the first `len` digits of the buffer |
| PersistenceCheck.Check | mp-search.c:8-24 | For a digit string shorter than the buffer, `check` returns its multiplicative persistence. The loop invariant is that the remaining persistence of the buffer's string plus the passes counted so far equals the input's persistence |
| Sample.SamplePersistence | mp-search.c:80 | The sample `"277777788888899"` is a digit string of persistence 11 |
| Generator.EmittedNonEmpty | mp-search.c:35-38 | With a digit as minimum, the recursive generator emits at least one string |
| Generator.ResumedPush | mp-search.c:56-61 | Placing the minimum digit at the current position and moving on, which is what the `for` loop does before its `break`, does not change what remains to be emitted |
| Generator.ResumeStatePush | mp-search.c:56-60 | Placing the minimum digit keeps a saved state (a non-decreasing prefix, and a minimum not below its last digit) a saved state |
| Generator.ResumeStateBackUp | mp-search.c:48-54 | Backing up in a non-decreasing string to a digit below '9', with the next digit as minimum, gives a saved state |
| Generator.GenerateRecursive | mp-search.c:27-39 | The recursive `generate` emits exactly `Emitted(prefix, digits - d, min)`. It leaves the prefix and every cell after `buffer[digits]` unchanged, and after the last emission the buffer holds that string followed by NUL |
| Generator.BackUp | mp-search.c:48-54 | The `do`-`while` either runs off the front (`e < 0`), when nothing remains after the completed subtree, or stops at the deepest position `e` below `d` whose digit is below '9', with `min` the digit after it; every cell strictly between `e` and `d` holds '9'. Resuming at `(e, min)` emits exactly what remains, and a non-decreasing buffer gives a saved state |
| Generator.Terminate | mp-search.c:45-55 | The `if (d >= digits)` block writes NUL at `buffer[digits]` and emits the completed string. It changes no other cell, and then backs up as `BackUp` states |
| Generator.Pass | mp-search.c:44-62 | One pass of `while (1)`: what is emitted from the old state is what this pass emits followed by what is emitted from the new state. The pass makes progress: it either emits or moves one position right. A saved state stays a saved state, and when it returns (`done`) it has emitted everything that remained |
| Generator.Generate | mp-search.c:41-63 | The iterative `generate` started at `(buffer[..d], min)` emits exactly `Resumed(buffer[..d], digits - d, min)` and returns. The last string emitted stays in the buffer, terminated, and cells after `buffer[digits]` are unchanged |
| Enumeration.EmittedSound | mp-search.c:27-39 | Every emitted string has the prefix, the requested length, and a non-decreasing digit tail not below the minimum |
| Enumeration.EmittedComplete | mp-search.c:27-39 | Every string of that shape is emitted |
| Enumeration.EmittedMembers | mp-search.c:27-39 | Membership in the emission sequence, both directions |
| Enumeration.EmittedAscending | mp-search.c:35-38 | The emissions are in strictly ascending lexicographic order |
| Enumeration.AscendingDistinct | mp-search.c:35-38 | In a strictly ascending sequence no string appears twice |
| Enumeration.EmittedFirst | mp-search.c:35-38 | The first emission is the prefix padded with the minimum digit |
| Enumeration.EmittedLast | mp-search.c:35-38 | The last emission is the prefix padded with '9' |
| Enumeration.EmittedSuffix | mp-search.c:35 | Starting from a higher minimum drops strings from the front and keeps the rest |
| Enumeration.ResumedTail | mp-search.c:48-53 | Resuming below a saved prefix emits a tail of what resuming one position higher emits |
| Enumeration.ResumedIsSuffix | mp-search.c:44-61 | Resumed from a saved state, the iterative generator emits a tail of the full enumeration of strings of that length |
| Enumeration.ResumedFirst | mp-search.c:56-61 | That tail starts at the saved prefix padded with the minimum |
| Enumeration.ResumedMembers | mp-search.c:44-61 | Resumed from a saved state `(p, m)`, the generator emits exactly the non-decreasing strings of that length that are lexicographically at least `p` padded with `m`, in both directions |
| Enumeration.ResumedFromStart | mp-search.c:41-63 | Started at position 0, the iterative generator emits the same sequence as the recursive one |
| Enumeration.Covers | mp-search.c:27-39 | Every multiset of `n` digits is the multiset of some emitted string of length `n` |
| Enumeration.CoversOnce | mp-search.c:27-39 | Two emitted strings with the same multiset of digits are the same emission |
| Counting.EmittedCount | mp-search.c:35-38 | There are exactly "k multichoose n" emissions, where `k` is the number of digits from the minimum to '9' |
| Counting.MultichooseFactorial | mp-search.c:35-38 | Closed form: multichoose(k, n) * n! * (k-1)! = (n+k-1)! |
| Counting.FullCount | mp-search.c:35-38 | With every digit allowed, the number of emissions is C(n+9, 9) |
| MpSearch.CoversPersistence | mp-search.c:86 | Every `n`-digit string has the persistence of some string the enumeration lists, so a search over the enumeration misses no persistence value |
| MpSearch.SixDigitBinomial | mp-search.c:86 | C(15, 9) = 5005 |
| MpSearch.FromStart | mp-search.c:86 | What the iterative generator emits from position 0 with minimum '0': C(n+9, 9) strings, ascending, exactly the non-decreasing digit strings of length `n`, from all '0's to all '9's |
| MpSearch.EnumerateAll | mp-search.c:86 | `generate(buffer, digits, 0, '0')` on a fresh buffer emits each non-decreasing digit string of that length exactly once, in ascending order, from all '0's to all '9's, C(digits+9, 9) of them |
| MpSearch.Search | mp-search.c:86-87 | `main`'s two calls: 5005 ascending emissions, exactly the non-decreasing six-digit strings, from "000000" to "999999"; then `check` of the sample returns 11 |

## Left out

- The argument-count check and usage message of `main` (mp-search.c:81-84) and its `printf` of the result (mp-search.c:88) are not modelled. They are command-line glue; `Search` models `main` from line 86 on.
- The text of each emission `printf` (mp-search.c:32, mp-search.c:47) is not modelled. Each emission is the ghost list entry `buffer[..digits]`.
- `mpz_init`/`mpz_clear` (mp-search.c:85, mp-search.c:89) and GMP's internals are not modelled. The accumulator is a `nat` with plain integer meaning.
- The "pairs not to include" comment (mp-search.c:66-74) is not implemented in the code, so there is no behaviour to model.
- The `static` buffer of `check` (mp-search.c:10) is a fresh local array. `strncpy` pads the whole buffer with NUL on every call, so nothing from an earlier call is observable.
- Check: the final value of the caller's accumulator `acc` is not returned. `main` never reads it.
- Check: requires every character to be a digit, which the subtraction at line 18 assumes, and the input to be shorter than `BUFFER_SZ`. The C is undefined only above `BUFFER_SZ`: at exactly `BUFFER_SZ` digits `len` comes from `strlen(x)` (line 14), line 18 reads only `buffer[0..1023]`, and the product (at most 9^1024, 978 digits) still fits. The model leaves out that one defined length: the bound it proves (a pass leaves at most as many digits as it started with) would let the first rendering of a 1024-digit input take all 1024 cells with no room for its NUL, and the tighter bound of 978 digits is not proved.
- Generate and GenerateRecursive: require the prefix `buffer[..d]` to be digits. The C accepts any prefix, and from a prefix with non-digit characters it emits strings that are not digit strings. Every call in mp-search.c passes `d = 0` (mp-search.c:86) or, in the recursion, a prefix of digits it wrote itself (mp-search.c:36-37).
- Generate: requires `min` to be a digit. With `min` above '9' and positions left, the `for` loop at mp-search.c:56 never runs and the C `while (1)` spins forever.
- GenerateRecursive: requires `min >= '0'`, because characters below '0' would not be digits. When `min` is above '9' nothing is emitted; the contract then states only that the prefix and the cells after `buffer[digits]` are unchanged, not that `buffer[d..digits]` is untouched.
- C `char` arithmetic is modelled on Dafny `char`. Only values up to ':' (one past '9') ever arise, so signedness and width do not matter.
