# surveyr string primitives in Dafny

A model of the two native string routines of the surveyr R package:

- `check_patterns(mainstrs, patterns)` answers, for every pattern, whether at
  least one of the reference strings (typically a data frame's column names)
  starts with it. It runs two nested loops: the inner one fills a scratch
  boolean vector with one `starts_with` test per reference string, and
  `std::any_of` reduces that vector into the answer for the current pattern.
  Module `PatternCheck` (`check_patterns.dfy`) models it as the method
  `CheckPatterns` over two local arrays (`logicalInner`, `logicalOuter`). The
  method is proved against the reference function `Matched`, and the
  properties of the check are lemmas about `Matched`.
- `trim_str` / `trimcpp` remove leading and trailing C-locale whitespace
  (space, form feed, line feed, carriage return, horizontal and vertical tab).
  `trim_str` moves a start pointer forward and an end pointer backward, then
  copies the surviving slice into a scratch `std::string` that is reused
  across elements. `trimcpp` applies it to every element of a character
  vector and copies missing values (NA) through untouched. Module `Trimming`
  (`trim.dfy`) models the buffer as the class `ScratchBuffer`, `trim_str` as
  the method `TrimStr` (index arithmetic in place of pointer arithmetic) and
  `trimcpp` as the method `TrimCpp`. Both are proved against the reference
  function `Trim` (drop leading whitespace, then trailing whitespace), which
  is characterised exactly by `TrimSlice` and `TrimUnique`.

Strings are `seq<char>`. R character vectors are `seq<Elem>` with
`datatype Elem = NA | Present(s: string)`. The `const char*` argument of
`trim_str` is `datatype CStr = NullPtr | Chars(s: string)`. The source works on
byte strings (`const char*`, `std::string`, `LENGTH` counts bytes): one model
character stands for one byte of the C string.

## Model

| member | source | states |
|---|---|---|
| `PatternCheck.StartsWithIffConcat` | src/check_patterns.cpp:53 | `StartsWith`, the model of boost `starts_with` with its default comparison, holds exactly when the string is the pattern followed by some suffix, so the test is exact and case-sensitive |
| `PatternCheck.AnyOf` | src/check_patterns.cpp:58 | the `any_of` reduction is true iff some entry of the scratch vector is true; it is false on an empty vector |
| `PatternCheck.MatchedAt` | src/check_patterns.cpp:24-25 | the result has one entry per pattern, and entry k is true iff some reference string starts with `patterns[k]`; it depends on nothing else |
| `PatternCheck.CheckPatterns` | src/check_patterns.cpp:42-64 | the nested loops return exactly `|patterns|` booleans, entry k true iff some `mainstrs[j]` starts with `patterns[k]`; the result equals `Matched` |
| `PatternCheck.EmptyMainstrsAllFalse` | src/check_patterns.cpp:44-58 | with no reference strings every entry is false |
| `PatternCheck.EmptyPatternsEmpty` | src/check_patterns.cpp:45-49 | with no patterns the result is empty |
| `PatternCheck.EmptyPatternMatches` | src/check_patterns.cpp:53-58 | an empty pattern is matched iff there is at least one reference string |
| `PatternCheck.LongPatternFails` | src/check_patterns.cpp:53 | a pattern longer than every reference string is not matched |
| `PatternCheck.SelfMatch` | src/check_patterns.cpp:53 | a reference string matches a pattern equal to itself |
| `PatternCheck.MainstrsOrderIrrelevant` | src/check_patterns.cpp:49-60 | two reference vectors with the same elements give the same result, whatever their order or repetitions |
| `PatternCheck.MainstrsPermutationIrrelevant` | src/check_patterns.cpp:49-60 | permuting the reference strings never changes the result |
| `PatternCheck.PatternsReindexed` | src/check_patterns.cpp:49-60 | permuting, selecting or repeating patterns moves their answers the same way |
| `PatternCheck.CaseAndLengthExamples` | src/check_patterns.cpp:53 | "ABC" does not match pattern "abc", and "abc" does not match pattern "abcd" |
| `PatternCheck.ColumnPrefixExample` | src/check_patterns.cpp:15-17 | column names revenue_q1, revenue_q2, cost_total validate the patterns revenue and cost but not profit |
| `Trimming.IsSpace` | src/trim.cpp:19-21 | C-locale `isspace`: holds for exactly the six characters space, \t, \n, \v, \f, \r (codes 9 to 13 and 32) |
| `Trimming.TrimLeftShape` | src/trim.cpp:21-23 | dropping leading whitespace leaves a suffix of the input whose removed part is all whitespace and which does not start with whitespace |
| `Trimming.TrimRightShape` | src/trim.cpp:26-28 | dropping trailing whitespace leaves a prefix of the input whose removed part is all whitespace and which does not end with whitespace |
| `Trimming.Trim` | src/trim.cpp:21-30 | the trim (leading whitespace dropped, then trailing) is no longer than the input and neither starts nor ends with whitespace; `TrimSlice` and `TrimUnique` characterise it exactly |
| `Trimming.TrimLeftSkip` | src/trim.cpp:21-23 | advancing past a run of whitespace that ends at a non-space or at the end of the string is exactly dropping the leading whitespace |
| `Trimming.TrimRightSkip` | src/trim.cpp:26-28 | retracting over a run of trailing whitespace that ends at a non-space or at the start is exactly dropping the trailing whitespace |
| `Trimming.TrimAllSpace` | src/trim.cpp:21-28 | an empty or all-whitespace string trims to "" |
| `Trimming.TrimSlice` | src/trim.cpp:21-30 | the input is leading whitespace, then the output, then trailing whitespace, and the output neither starts nor ends with whitespace |
| `Trimming.TrimUnique` | src/trim.cpp:21-30 | conversely, any split of the input into whitespace, a string without whitespace at its ends, and whitespace has that middle string as its trim |
| `Trimming.TrimIdempotent` | src/trim.cpp:21-30 | trimming an already trimmed string returns it unchanged |
| `Trimming.TrimEmptyIff` | src/trim.cpp:21-28 | the output is "" exactly when the input is all whitespace |
| `Trimming.TrimExamples` | src/trim.cpp:47-51 | the documented " leading", "trailing ", " both " trim to "leading", "trailing", "both"; an added all-whitespace case (spaces, tab, newline) trims to "" |
| `Trimming.ScratchBuffer.constructor` | src/trim.cpp:59 | the scratch `std::string` of `trimcpp` starts empty |
| `Trimming.ScratchBuffer.Clear` | src/trim.cpp:17 | `clear` leaves the buffer empty |
| `Trimming.ScratchBuffer.Append` | src/trim.cpp:30 | `append(str, len)` adds exactly the `len` characters starting at `str` to the end of the buffer |
| `Trimming.TrimStr` | src/trim.cpp:10-32 | a null pointer yields "" and leaves the buffer as it was; otherwise the buffer is cleared and then holds exactly the trimmed text, which is also returned; the loop invariants establish that `len` never goes negative, and the loop guard stops the backward scan at the forward-adjusted start |
| `Trimming.TrimCpp` | src/trim.cpp:53-75 | the output has the input's length, NA stays NA at the same index, every present element becomes the trim of that same element, and exactly the present elements are passed to `TrimStr` |

## Left out

- The R test block at the end of src/check_patterns.cpp reads an `.rds` file; it is file I/O.
- R/Rcpp marshalling (`Vector<STRSXP>`, `no_init`, `LENGTH`, `traits::is_na`, copying a C string into a new CHARSXP on assignment) is replaced by sequences of `Elem`. The output of `TrimCpp` is a fresh sequence, so no element can alias the scratch buffer. `no_init` leaves slots uninitialised; the model pre-fills them with `NA`, and every slot is overwritten.
- `trim_str` finds the end of leading whitespace by running into the `'\0'` terminator. The model bounds the index by the string length instead and does not model the terminator or the lifetime of the `c_str()` pointer.
- `std::isspace` depends on the locale and is undefined for negative `char` values. The model uses the fixed six-character C-locale class.
- `TrimStr` takes the length argument with the precondition that it equals the string's length, which is what `trimcpp` passes (`LENGTH(s[i])`). A mismatched length is not modelled.
- `CheckPatterns`: the loop bounds are stored in C++ `int`, and sizes above 2^31 - 1 are not modelled; Dafny integers are unbounded.
- src/print.cpp and src/sumcpp.cpp are not part of this model. They forward to the `flextable` R package and to Armadillo's floating-point `accu`, and hold no logic of their own.
