# LoadUtils in Dafny

A model of `LoadUtils.py`, a small helper library for reading very large
JSON-lines files (one JSON object per line). It covers two parts:

- `load_matches`, the streaming loader. It walks the lines in order and stops
  when the line index reaches `n_lines` (`-1` means no limit). It decodes and
  parses each line; a line that fails to parse aborts the whole call. It calls
  the matching function on each record. A record is kept when the function
  returns true; a raise only increments `n_unprocessable`. In verbose mode it
  prints a progress mark on selected lines and a closing summary that reports
  the loop variable `i`.
- The matching functions: `fn_eq`, `fn_lt`, `fn_gt`, `fn_substring`, `fn_in`
  and `fn_none`, the default match-all lambda, and the short-circuiting
  combinators `fn_any` and `fn_all`.

The project has three modules:

- `Values` (`values.dfy`) models the JSON values a record holds and Python's
  `==`, `<`, `str.lower()` and `in` on them.
- `Predicates` (`predicates.dfy`) models each matching function with its
  arguments as one constructor of a closed datatype `Pred`. `Eval` returns an
  `Outcome`: `Match`, `NoMatch`, or `Fault(kind)` for a call that raises.
- `Loader` (`loader.dfy`) holds the loop as the method `LoadMatches` and the
  function `LoadSpec` that specifies it. The lemmas state what the result
  means in terms of the examined records.

The input file is a sequence of `Line`s: `Parsed(record)` or `Bad`.
`LoadMatches` returns either a `Failure` or `Success(Loaded(...))`. A
`Failure` is a malformed line before the cutoff, or the verbose summary
reading an unbound `i`. `Loaded` holds:

- the kept records;
- the raise count;
- the final value of `i`, which is `Unbound` when the loop never ran;
- the indices at which progress marks were printed.

The verbose summary at LoadUtils.py:45, `Loaded {len(data)}/{i} entries`,
presents `i` as the number of entries read. At the end of the file, though,
`i` is the last index, one less than the number of lines read. The model keeps
the value as written; see "Findings".

## Model

| member | source | states |
|---|---|---|
| `Values.Lower` | LoadUtils.py:84 | lower-casing keeps the length, leaves no upper-case letter, maps each upper-case letter to its lower-case letter and keeps every other character |
| `Values.LowerIdempotent` | LoadUtils.py:84 | lower-casing an already lower-cased string changes nothing |
| `Values.LowerIgnoresCase` | LoadUtils.py:84 | two strings that differ only in the case of letters lower-case to the same string |
| `Values.Contains` | LoadUtils.py:84 | Python's `needle in haystack` on strings: an empty needle is always found, and a needle longer than the haystack never is; see `Values.ContainsIff` for the full characterisation |
| `Values.ContainsSound` | LoadUtils.py:84 | when the left-to-right substring scan succeeds, the needle occurs at some position of the haystack |
| `Values.ContainsComplete` | LoadUtils.py:84 | every occurrence of the needle at any position is found by the scan |
| `Values.ContainsIff` | LoadUtils.py:84 | `needle in haystack` is true exactly when the needle occurs at some position |
| `Values.StrLessIrreflexive` | LoadUtils.py:74-80 | no string is less than itself in Python's string order |
| `Values.StrLessTrichotomy` | LoadUtils.py:74-80 | for two strings exactly one of less, equal, greater holds |
| `Values.StrLessTransitive` | LoadUtils.py:74-80 | Python's string order is transitive |
| `Values.StrLessPrefix` | LoadUtils.py:76 | a string is less than every longer string that starts with it |
| `Values.StrLessFirstDifference` | LoadUtils.py:76 | when two strings share a prefix and then differ, the first differing character decides the order |
| `Values.StrLess` | LoadUtils.py:76 | Python's `<` on two strings, by code point with a proper prefix smaller; no contract of its own, its order properties are the `StrLess*` rows |
| `Values.Less` | LoadUtils.py:76-80 | Python's `<` on two numbers, two strings or two booleans; no contract of its own, see `Values.LessIsStrictTotalOrder` |
| `Values.LessIsStrictTotalOrder` | LoadUtils.py:74-80 | on two numbers, two strings or two booleans, `<` is total and asymmetric (two nulls have no order) |
| `Values.LessTransitive` | LoadUtils.py:74-80 | `<` is transitive across comparable values, so with `Values.LessIsStrictTotalOrder` it is a strict total order on each kind |
| `Predicates.Eval` | LoadUtils.py:70-115 | calls one matching function on one record (fn_eq, fn_lt, fn_gt, fn_substring, fn_in, fn_none, fn_any, fn_all, and the default lambda of LoadUtils.py:4); no contract of its own, its behaviour is stated by the `*MatchesIff`, `*FaultIff`, `OrderTrichotomy` and `InIsAnyEq` rows |
| `Predicates.EvalAny` | LoadUtils.py:105-109 | fn_any's loop with early return; no contract of its own, see `Predicates.AnyMatchIff`, `Predicates.AnyNoMatchIff`, `Predicates.AnyFaultIff` |
| `Predicates.EvalAll` | LoadUtils.py:111-115 | fn_all's loop with early return; no contract of its own, see `Predicates.AllMatchIff`, `Predicates.AllNoMatchIff`, `Predicates.AllFaultIff` |
| `Predicates.EqMatchesIff` | LoadUtils.py:70-72 | fn_eq matches iff the field is present and holds exactly the target; it raises iff the field is missing |
| `Predicates.OrderMatchesIff` | LoadUtils.py:74-80 | fn_lt matches iff the field is present, comparable with the target and below it; fn_gt iff the target is below it |
| `Predicates.OrderFaultIff` | LoadUtils.py:74-80 | fn_lt and fn_gt raise iff the field is missing, or its value and the target are not both numbers, both strings or both booleans (so null against null raises too) |
| `Predicates.OrderTrichotomy` | LoadUtils.py:70-80 | on a present field comparable with the target, exactly one of fn_lt, fn_eq, fn_gt matches |
| `Predicates.SubstringMatchesIff` | LoadUtils.py:82-84 | fn_substring matches iff the lower-cased needle occurs in the lower-cased field value; it raises iff the field is missing or not a string |
| `Predicates.SubstringIgnoresCase` | LoadUtils.py:82-84 | two needles that lower-case alike give the same outcome on every record |
| `Predicates.SubstringFishFound` | LoadUtils.py:82-84 | the needle "Fish" matches a record whose name is "Blue Fish Grill" |
| `Predicates.SubstringFishNotFound` | LoadUtils.py:82-84 | the needle "Fish" does not match a record whose name is "Aquarium Supplies" |
| `Predicates.InMatchesIff` | LoadUtils.py:86-88 | fn_in matches iff the field's value equals an element of the collection; it raises iff the field is missing |
| `Predicates.InIsAnyEq` | LoadUtils.py:86-88 | fn_in over a collection gives the same outcome as fn_any over one fn_eq per element, whenever the field is present or the collection is non-empty |
| `Predicates.AnyMatchIff` | LoadUtils.py:105-109 | fn_any returns true iff some sub-predicate returns true and every one before it returned false |
| `Predicates.AnyNoMatchIff` | LoadUtils.py:105-109 | fn_any returns false iff every sub-predicate returns false, so it returns false on an empty list |
| `Predicates.AnyFaultIff` | LoadUtils.py:105-109 | fn_any raises a given fault iff some sub-predicate raises it and every one before it returned false |
| `Predicates.AllMatchIff` | LoadUtils.py:111-115 | fn_all returns true iff every sub-predicate returns true, so it returns true on an empty list |
| `Predicates.AllNoMatchIff` | LoadUtils.py:111-115 | fn_all returns false iff some sub-predicate returns false and every one before it returned true |
| `Predicates.AllFaultIff` | LoadUtils.py:111-115 | fn_all raises a given fault iff some sub-predicate raises it and every one before it returned true |
| `Predicates.AllIsNotAnyOfNegations` | LoadUtils.py:105-115 | fn_all over some conditions is the negation of fn_any over their negations; a raise propagates unchanged |
| `Predicates.AllOfTwo` | LoadUtils.py:111-115 | fn_all over two conditions matches iff both match |
| `Loader.Examined` | LoadUtils.py:25-27 | the loop examines `n_lines` lines when `0 <= n_lines` is below the line count, otherwise every line |
| `Loader.LastIndex` | LoadUtils.py:25-27 | the value of `i` after the loop: unbound exactly when the file is empty, and otherwise an index of a line of the file |
| `Loader.Stride` | LoadUtils.py:41 | the progress stride is `max(n_lines // 20, 1)`: `n_lines // 20` from 20 lines upward and 1 below that, so never 0 |
| `Loader.Tick` | LoadUtils.py:37-43 | whether line `i` gets a progress mark: `i % 100000 == 0` when unbounded, else `i % Stride(n_lines) == 0`; see `Loader.TickFirstLine` and `Loader.TicksBelowIff` |
| `Loader.TickFirstLine` | LoadUtils.py:37-43 | the first line always gets a progress mark, whatever the cadence |
| `Loader.TicksBelow` | LoadUtils.py:36-43 | the indices of the progress marks printed while examining the first `k` lines; no contract of its own, see `Loader.TicksBelowIff` |
| `Loader.Filter` | LoadUtils.py:31-32 | the records on which the predicate returns true, in order; no contract of its own, see `Loader.FilterMembership`, `Loader.FilterConcat`, `Loader.OutcomesPartition` |
| `Loader.Unprocessable` | LoadUtils.py:33-34 | the number of records on which the predicate raises; no contract of its own, see `Loader.UnprocessableConcat`, `Loader.OutcomesPartition` |
| `Loader.LoadSpec` | LoadUtils.py:4-46 | what `load_matches` returns; no contract of its own, `Loader.LoadMatches` is proved equal to it and the `Load*` lemmas state what it means |
| `Loader.LoadMatches` | LoadUtils.py:4-46 | the loop returns exactly `LoadSpec`: the malformed-line abort, the unbound-`i` failure, or the kept records, raise count, final `i` and progress marks |
| `Loader.LoadSpecOfRecords` | LoadUtils.py:25-45 | when the examined lines all parsed, the result is built from their records, the final `i` and the progress marks |
| `Loader.FilterConcat` | LoadUtils.py:25-32 | the kept records of a concatenation are the kept records of each part, in source order |
| `Loader.UnprocessableConcat` | LoadUtils.py:30-34 | the raise count of a concatenation is the sum of the parts' counts |
| `Loader.FilterSnoc` | LoadUtils.py:31-32 | one more record is appended to the kept records exactly when the predicate returns true on it |
| `Loader.UnprocessableSnoc` | LoadUtils.py:33-34 | one more record adds exactly one to the raise count when the predicate raises on it, and nothing otherwise |
| `Loader.MalformedAborts` | LoadUtils.py:28-29 | a line that fails to parse anywhere before the cutoff makes the whole call fail |
| `Loader.FilterMembership` | LoadUtils.py:31-32 | a record is kept iff it is among the examined records and the predicate returns true on it |
| `Loader.OutcomesPartition` | LoadUtils.py:30-34 | the kept, raised and rejected counts add up to the number of examined records |
| `Loader.FilterMatchAll` | LoadUtils.py:4 | the default predicate keeps every record and never raises |
| `Loader.FilterNone` | LoadUtils.py:90-91 | fn_none keeps no record and never raises |
| `Loader.FilterAllOfTwo` | LoadUtils.py:111-115 | filtering with fn_all over two conditions is filtering by the first, then by the second |
| `Loader.TicksBelowIff` | LoadUtils.py:36-43 | a progress mark is printed at exactly the examined indices the cadence selects, in increasing order |
| `Loader.LoadKeepsExactlyTheMatches` | LoadUtils.py:25-34 | on success every examined line parsed; a record is returned iff it is on an examined line and the predicate returns true on it; kept plus raised never exceeds the number examined |
| `Loader.LoadZeroLines` | LoadUtils.py:25-27 | `n_lines == 0` returns nothing and counts no raise, and `i` is 0 unless the file is empty; this excludes a verbose call on an empty file, which raises (see `Loader.LoadEmptyFile`) |
| `Loader.LoadCutoff` | LoadUtils.py:25-27 | on success, with a cutoff below the line count, exactly the first `n_lines` lines are examined and `i` ends equal to `n_lines` |
| `Loader.LoadToEnd` | LoadUtils.py:25 | without a cutoff every line is examined and `i` ends at the last index, count - 1 |
| `Loader.LoadEmptyFile` | LoadUtils.py:44-46 | an empty file returns nothing when quiet, and fails on the unbound `i` when verbose |
| `Loader.LoadMatchAllReturnsAll` | LoadUtils.py:4 | the default predicate returns every examined record, in order, and counts no raise |
| `Loader.LoadNoneReturnsNothing` | LoadUtils.py:90-91 | fn_none returns nothing and counts no raise |
| `Loader.LoadIgnoresLinesAfterCutoff` | LoadUtils.py:25-27 | two files longer than `n_lines` that agree on their first `n_lines` lines give the same result |
| `Loader.SummaryIndexAsWritten` | LoadUtils.py:45 | the summary's `i` equals the number examined after a cutoff, is one less at the end of the file, and is unbound for an empty file |
| `Loader.SummaryIndexUndercounts` | LoadUtils.py:45 | on a three-line file without a cutoff, the summary reports 2 where 3 lines were examined |
| `Loader.SummaryCountCorrected` | LoadUtils.py:30-34 | on success, the kept, raised and rejected records add up to `Examined`, the number of lines examined |

## Left out

- `fn_distance` and `coord_distance`: floating-point trigonometry through numpy.
- Opening the file, iterating its bytes and UTF-8 decoding are I/O. The lines are given as a sequence, and a line that fails to decode is `Bad`, like one that fails to parse.
- `json.loads` is a library parser. Each line is given already parsed, as a record or as `Bad`.
- Lines that parse to a JSON value other than an object are not modelled. On such a line the field-indexing predicates (`fn_eq`, `fn_lt`, `fn_gt`, `fn_substring`, `fn_in`) raise a TypeError; only an integer field, which `Pred` cannot express, would index a string or array line instead. The default lambda still keeps the line, `fn_none` rejects it, and `fn_any([])` and `fn_all([])` return false and true.
- Field values that are nested objects or arrays are not modelled. A `Value` is a number, a string, a boolean or null.
- The `print` output is not modelled, except the indices at which a progress mark is printed and the `i` the summary reads. Left out are the "Now loading" line, the brackets, the choice between `*` and `=`, and the summary's text.
- Python integers and floats are one kind, `Num(real)`, because Python compares them by exact value. Float rounding of very large integers is not modelled.
- `json.loads` also accepts `NaN`, `Infinity` and `-Infinity`, and turns an out-of-range literal such as `1e400` into `inf`. `Num(real)` cannot hold these, so the model does not capture that `nan == nan` and `nan < x` are false in Python.
- A boolean is not treated as an integer. In Python `True == 1` holds, `True < 2` is defined and `True in [1]` is true. Here, across the two kinds, `Eq` returns false, `Lt`/`Gt` raise, and `In` finds no element, so fn_eq, fn_lt, fn_gt and fn_in all differ from Python on such pairs.
- `str.lower()` lower-cases ASCII letters only; Unicode case mapping is not modelled.
- `fn_in` takes a sequence of values. A string collection, which Python tests as a substring, and a dictionary collection are not modelled.
- Malformed argument tuples, such as a wrong arity or a non-callable in an `fn_any` list, cannot be written. `Pred` fixes each function's arguments.
- The bare `except:` also catches interrupts such as `KeyboardInterrupt`. The model treats every `Fault` outcome as caught, and has no other kind of exception.

## Findings

| source | as written | input that shows it | evidently intended | confidence | as-written member | corrected member |
|---|---|---|---|---|---|---|
| LoadUtils.py:45 | the summary prints the loop variable `i` as the number of entries read; after reaching the end of the file `i` is the last index, one less than the lines read (after a cutoff it equals `n_lines`) | a three-line file, `n_lines=-1`, `verbose=True`: `i` is 2 although 3 lines were read | report the number of lines examined, `Examined`, which every kept, raised or rejected record accounts for | not executed | `Loader.SummaryIndexUndercounts` | `Loader.SummaryCountCorrected` |
