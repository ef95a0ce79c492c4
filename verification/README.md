# mtfind matching core in Dafny

mtfind searches a text file, line by line, for a pattern in which `?`
matches any single character. This project models its matching core:

- `bruteforcematch`, the brute-force matcher in `src/search_algorithms.h`,
  and its copy `bruteForceFind` in `src/main.cpp`;
- the Boyer-Moore bad-character matcher: the `badCharHeuristic` table
  builder, the `Moore` constructor and `Moore::operator()`;
- `find` in `src/main.cpp`, which runs the brute-force matcher on every line
  and records at most one `(lineNumber, pos, text)` triple per line.

Layout:

- `wildcard_match.dfy` (module `WildcardMatch`): what a match is
  (`MatchesAt`), the reference answer (`FirstMatch`, the leftmost match
  offset) and the `Option` result type that stands in for a returned
  pointer or `nullptr`.
- `brute_force.dfy` (module `BruteForce`): `bruteforcematch` as a method with
  the two nested loops of the C++ code.
- `moore.dfy` (module `BoyerMoore`): the table, as a method with the two
  loops of `badCharHeuristic`, and the search as recursive functions. The
  inner `while` is `ScanBack`, the shift on line 115 is `Shift`, and the
  outer `while` is `MooreFrom`.
- `mtfind.dfy` (module `MtFind`): `strlen` on the pattern, `bruteForceFind`
  and `find`.

Texts and patterns are `string` (`seq<char>`), and each model `char` stands
for one C++ `char`, that is, one byte (a value in 0..255). A line or pattern
is modelled as its bytes, so a multi-byte UTF-8 character is several model
characters: `?` matches exactly one byte and `pos` counts bytes. Offsets,
line numbers and columns are unbounded naturals. The 127-entry table is a
`seq<int>`, indexed by the character's code.

## Model

| member | source | states |
|---|---|---|
| `WildcardMatch.FirstMatch` | src/search_algorithms.h:25-31 | The reference result is the leftmost offset where every pattern character is `?` or equals the text character under it. It is `None` exactly when no offset matches. |
| `BruteForce.BruteForceMatch` | src/search_algorithms.h:18-34 | A pattern longer than the text gives not-found. A returned offset j satisfies j <= n-m and matches in full. No smaller offset matches. Not-found means no offset in [0, n-m] matches. So the result is the leftmost match. |
| `BoyerMoore.LastIndexOf` | src/search_algorithms.h:55-58 | The last-occurrence index of a character is in [-1, m-1]. It is -1 exactly when the character is absent. Otherwise the pattern holds that character there and nowhere to the right. |
| `BoyerMoore.BadCharHeuristic` | src/search_algorithms.h:46-59 | The table has 127 entries, each in [-1, m-1]. An entry is -1 iff its character is absent from the pattern. Otherwise it is the index of the character's last occurrence, with `?` counted like any other character. |
| `BoyerMoore.NewMoore` | src/search_algorithms.h:65-71 | The constructed matcher holds the bad-character table of its pattern. |
| `BoyerMoore.ScanBack` | src/search_algorithms.h:82-88 | The right-to-left compare returns a mismatching pattern index, and every position to its right matches. It returns -1 when the whole pattern matches at the alignment. |
| `BoyerMoore.Shift` | src/search_algorithms.h:115 | Requires only the mismatching text character to index the table. Every shift is at least 1. When the mirrored pattern position is not `?`, the shift is at least j - badchar[text char]. |
| `BoyerMoore.MooreFrom` | src/search_algorithms.h:78-117 | The outer loop terminates, since each step advances by at least 1. Any offset it returns is at or after the start and is a full wildcard match. |
| `BoyerMoore.Search` | src/search_algorithms.h:73-118 | Returns not-found when m > n. Any returned offset s satisfies s <= n-m and is a full wildcard match, so the matcher is sound for any table. |
| `BoyerMoore.ShiftSkipsNoMatch` | src/search_algorithms.h:107-115 | With a safe table, no alignment skipped by a shift can match. A table is safe when no pattern position right of an entry can match that entry's character. |
| `BoyerMoore.MooreFromComplete` | src/search_algorithms.h:80-116 | With a safe table, the scan from any alignment returns exactly the first match at or after that alignment. |
| `BoyerMoore.BadCharTableSafeWithoutWildcards` | src/search_algorithms.h:52-58 | For a pattern without `?`, the plain bad-character table is safe. |
| `BoyerMoore.MooreAgreesWithBruteForce` | src/search_algorithms.h:73-118 | For a pattern without `?`, Moore with its own table returns exactly the brute-force result. That is the leftmost match, or not-found. |
| `BoyerMoore.MooreMissesWildcardMatch` | src/search_algorithms.h:115 | For pattern `b?a` in text `cbxa`, Moore returns not-found, yet the leftmost match is offset 1. |
| `BoyerMoore.WildcardAwareBadCharHeuristic` | src/search_algorithms.h:46-59 | Corrected table: each entry is the last index holding that character or `?`. The table is safe for every pattern. |
| `BoyerMoore.WildcardAwareTableIsSafe` | src/search_algorithms.h:52-58 | A wildcard-aware table is safe whatever the pattern holds. |
| `BoyerMoore.MooreWithWildcardAwareTable` | src/search_algorithms.h:73-118 | With the corrected table, Moore returns the leftmost match for every pattern, wildcards included. |
| `MtFind.StrLen` | src/main.cpp:62 | The pattern's length is the number of characters before its first NUL. |
| `MtFind.BruteForceFind` | src/main.cpp:42-58 | Returns the same leftmost-match result as `BruteForce.BruteForceMatch`, so the two copies agree on every input. |
| `MtFind.Find` | src/main.cpp:60-77 | Empty input gives empty output. There is at most one entry per line, in strictly increasing line order. A line has an entry iff the matcher finds a match in it. Lines shorter than the pattern get none. Each entry's line number is its index in `lines`. Its `pos` is the leftmost match, with pos + m <= line length. Its text is the m characters at `pos`. |
| `MtFind.ReportLine` | src/main.cpp:65-74 | Visiting one line extends the results by that line's leftmost match, if it has one, and by nothing otherwise. The line counter advances either way. |

## Findings

| source | as written | input that shows it | evidently intended | confidence | as-written member | corrected member |
|---|---|---|---|---|---|---|
| src/search_algorithms.h:115 | The bad-character table (lines 52-58) records only literal occurrences and ignores that a `?` in the pattern matches every character. The shift on line 115 trusts that table, so a mismatch can shift past a match that relies on a `?`. (Its wildcard test reads the mirrored position `pat[m - j - 1]`.) | pattern `b?a`, text `cbxa`: at alignment 0 the mismatch on `x` shifts by 2 - (-1) = 3, so the result is not-found. Brute force returns 1. | Moore returns the same offsets as the brute-force matcher, wildcards included. | high (proved on the model; not executed) | `BoyerMoore.MooreMissesWildcardMatch` | `BoyerMoore.MooreWithWildcardAwareTable` (table from `BoyerMoore.WildcardAwareBadCharHeuristic`) |

The corrected table raises each entry to the last index of a `?`. The shift
rule on line 115 stays unchanged. At a mismatch, `pat[j]` is never `?`, so
testing `pat[j]` instead of `pat[m - j - 1]` would not fix the scan. The two
matchers were meant to be interchangeable, wildcards included: both have
the `SerchAlgorithm` signature (src/search_algorithms.h:7-9), and line 115
carries its own `?` test. The model follows the code as written and records
the gap here. `find` itself uses the brute-force matcher, so its results
are unaffected.

## Left out

- `readFile`, `usage`, `main` (src/main.cpp:12-40, 79-116): file I/O, argument checks, printing, the 1-based presentation `line+1`/`pos+1`, and exit codes. `find` takes the file's lines as a `seq<string>`.
- The `SerchAlgorithm` `std::function` typedef: each matcher is a separate member, and `find` calls `BruteForceFind` directly, as the C++ code does.
- The commented-out post-match shift (src/search_algorithms.h:103). It is dead code.
- Line-aligned partitioning, concurrent scanning, merging of per-partition line counts, and enumerating several non-overlapping matches per line. None of these exists in the modelled source. It records only the leftmost match of each line.
- Fixed-width integers: `int` sizes, offsets and line numbers are unbounded naturals. Overflow for inputs of 2^31 or more characters or lines is not modelled.
- Signed `char`: the table is indexed by the raw character. The model requires every character used as an index to be in 0..126. Other values, including negative `char`s, would read or write outside the table, which is undefined behaviour in C++.
- BoyerMoore.MooreFrom: requires every text character to be below 127. The C++ outer loop reads the table only at the mismatching character of each alignment (line 115), so some texts with other characters would still be scanned without an out-of-range read. `BoyerMoore.Shift` requires only the character it reads to be in range.
- BoyerMoore.Search: requires every text character to be below 127. The C++ code only reads the table at mismatching positions, so some texts with other characters would still be searched without an out-of-range read.
- An empty pattern is accepted: both matchers return offset 0, so `find` reports `(k, 0, "")` for every line k.
