# Episode selection and exit codes of the anime muxing script

The script `mux-system.py` muxes anime episodes with an external muxing library.
The logic it owns sits around that library:

- **`parse_episode_list`** turns an episode selector into the sorted list of episode
  numbers to mux. Examples are `"1"`, `"1,3,5"`, `"1-5"`, `"1-3,5,7-9"` and `"all"`.
  A bad selector fails with one of three errors: invalid range, start after end, or
  invalid episode number.
- **Discovery for `"all"`** reads an episode number off each subtitle file stem with the
  pattern `.*?(\d+).*`. It drops repeated numbers and sorts the rest.
- **`verstr`** is the version suffix of the output names.
- **`main`** decides the exit code: 2 for a bad selector; 1 when the output directory
  cannot be created, a mux call raises, there is nothing to mux, or nothing succeeded;
  0 otherwise.

Files:

- `wrappers.dfy` (`Option`, `Result`)
- `text.dfy`: the Python string operations the parser uses. These are `split`, `strip`,
  `isdigit`, `int` and `str`.
- `sorting.dfy`: `sorted` on a list and on a set.
- `selector.dfy`: the parser.
  - `Parse` is the specification.
  - `ParseEpisodeList` is the script's loop. It is proved to compute `Parse`.
  - The lemmas state what a selector means.
- `selector_examples.dfy`: the selectors of the usage text, worked through.
- `discovery.dfy`: the `"all"` mode.
- `driver.dfy`: `verstr` and `main`. The per-episode mux call is an oracle.

The functions that define the model, and the lines each one follows:

- `EpisodeSelector.Interval`: `range(start, end + 1)`, mux-system.py:232.
- `EpisodeSelector.ExpandItem`: one stripped item, mux-system.py:216-238.
- `EpisodeSelector.Items`: the stripped comma-separated items, mux-system.py:215-216.
- `EpisodeSelector.ExpandAll`: the items left to right, stopping at the first error, mux-system.py:213-238.
- `EpisodeSelector.Parse`: all of `parse_episode_list`, mux-system.py:197-240.
- `EpisodeDiscovery.EpisodeNumber`: the pattern match on one stem, mux-system.py:297 and 309.
- `EpisodeDiscovery.Discover`: the sorted set of numbers for `"all"`, mux-system.py:305-311.
- `MuxDriver.VersionSuffix`: `verstr`, mux-system.py:95.
- `MuxDriver.Selected`: the episodes `main` hands on, mux-system.py:290-311.
- `MuxDriver.SuccessCount`: `successful_muxes`, mux-system.py:328-334.

The rows below name the lemmas and methods whose contracts state what these
definitions mean.

A selector other than `"all"` that parses always names at least one episode
(`ParseEmptyIffAll`). So the "No valid episodes specified" exit at
mux-system.py:323-325 can be reached only through `"all"`, and there the earlier
check at lines 314-316 already returns 1.

The parser keeps duplicates (`"1-3,2"` gives `[1, 2, 2, 3]`); only discovery for
`"all"` drops repeated numbers.

## Model

| member | source | states |
|---|---|---|
| `Text.SplitJoin` | mux-system.py:215 | `split(",")`: joining the pieces gives back the input, no piece holds the separator, and there is one piece more than there are separators |
| `Text.SplitTwo` | mux-system.py:220 | an item with exactly one `-` splits into the text before it and the text after it |
| `Text.StripSlice` | mux-system.py:216 | `strip()` keeps a contiguous slice and cuts only whitespace (Python's `isspace` set) from either end; the kept text neither starts nor ends with whitespace |
| `Text.StripIdempotent` | mux-system.py:216-222 | stripping a stripped item again changes nothing |
| `Text.LeadingZeroIgnored` | mux-system.py:226-236 | `int()` of a digit string ignores leading zeros |
| `Text.NatToStringRoundTrip` | mux-system.py:95 | reading back the decimal text that `str(n)` writes gives `n` |
| `Text.IntToStringRoundTrip` | mux-system.py:95 | the same for negative integers, written with a minus sign |
| `Sorting.SortAsc` | mux-system.py:240 | `sorted(episodes)` is ascending and a permutation of its input (same multiset) |
| `Sorting.AscendingUnique` | mux-system.py:240 | there is only one ascending list with a given multiset, so the sorted result does not depend on input order |
| `Sorting.SortSet` | mux-system.py:305-311 | `sorted` of a set is strictly ascending, has the set's size, and holds exactly its elements |
| `EpisodeSelector.IntervalExact` | mux-system.py:232 | `range(start, end + 1)` is exactly start, start+1, …, end (end − start + 1 values) |
| `EpisodeSelector.RangeExpands` | mux-system.py:219-232 | `"A-B"` with both bounds digits after `strip()` and A ≤ B expands to exactly A..B; whitespace around either bound is allowed |
| `EpisodeSelector.RangeReversed` | mux-system.py:229-230 | `"A-B"` with numeric bounds and A > B is the start-after-end error, naming the item |
| `EpisodeSelector.MalformedRange` | mux-system.py:219-224 | an item with `-` that is not exactly one `-` between two numeric bounds (`"1-2-3"`, `"-5"`, `"1-"`, `"1-x"`) is the invalid-range error |
| `EpisodeSelector.WellFormedRange` | mux-system.py:219-232 | a well-formed `"A-B"` either expands to A..B or is the start-after-end error, never the invalid-range error |
| `EpisodeSelector.SingleNumber` | mux-system.py:235-236 | an item without `-` made of digits is exactly its value; a leading zero changes nothing |
| `EpisodeSelector.NotANumber` | mux-system.py:237-238 | any other item without `-`, the empty item included, is the invalid-number error |
| `EpisodeSelector.EmptyItemNotANumber` | mux-system.py:215-238 | the empty item (between two commas, or after a trailing comma) is the invalid-number error naming `""` |
| `EpisodeSelector.ErrorNamesItem` | mux-system.py:224-238 | every error carries the stripped item that caused it |
| `EpisodeSelector.ExpandedNonEmpty` | mux-system.py:219-236 | an item that parses contributes at least one episode |
| `EpisodeSelector.ParseEpisodeList` | mux-system.py:197-240 | the script's loop returns `Parse(arg)`: `"all"` gives `[]`; otherwise each item is expanded left to right, the first bad item raises, and the result is sorted |
| `EpisodeSelector.ExpandAllKeepsError` | mux-system.py:215-238 | once an item has failed, later items change nothing: the loop stops at the first bad item |
| `EpisodeSelector.ExpandAllOk` | mux-system.py:213-236 | the items succeed together exactly when each item succeeds, and then they give the sum (not the union) of the items' multisets |
| `EpisodeSelector.ExpandAllFirstError` | mux-system.py:215-238 | when some item fails, the error is the error of the first failing item |
| `EpisodeSelector.ParseOk` | mux-system.py:213-240 | a selector other than `"all"` parses exactly when every stripped comma-separated item does; then the result is ascending and has the items' numbers with duplicates kept |
| `EpisodeSelector.ParseFirstError` | mux-system.py:215-238 | a selector with a bad item fails with the first bad item's error, naming that item |
| `EpisodeSelector.ParseOrderIndependent` | mux-system.py:240 | when a selector parses, any rearrangement of its items parses to the same list (on a bad selector the error names the first bad item, which depends on the order) |
| `EpisodeSelector.BagPermutation` | mux-system.py:213-236 | the multiset of numbers does not depend on the order of the items |
| `EpisodeSelector.ParseEmptyIffAll` | mux-system.py:210-211 | the result is the empty list if and only if the selector is exactly `"all"` |
| `SelectorExamples.ParseDescending` | mux-system.py:240 | `"2,1"` gives `[1, 2]` |
| `SelectorExamples.ParseDuplicatesKept` | mux-system.py:232-240 | `"1-3,2"` gives `[1, 2, 2, 3]` |
| `SelectorExamples.ParseMixed` | mux-system.py:12-16 | `"1-3,5,7-9"` gives `[1, 2, 3, 5, 7, 8, 9]` |
| `SelectorExamples.ParseTwoDashes` | mux-system.py:220-224 | `"1-2-3"` is the invalid-range error |
| `SelectorExamples.ParseBadBound` | mux-system.py:221-224 | `"1-x"` is the invalid-range error |
| `SelectorExamples.ParseNegative` | mux-system.py:221-224 | `"-5"` is the invalid-range error, so no negative number comes out |
| `SelectorExamples.ParseBackwards` | mux-system.py:229-230 | `"3-1"` is the start-after-end error |
| `SelectorExamples.ParseFirstBadItemReported` | mux-system.py:215-238 | `"1,x,3-1"` reports `"x"`, the first of its two bad items |
| `SelectorExamples.ParseEmptyItem` | mux-system.py:215-238 | `"1,,2"` is the invalid-number error for the empty item |
| `EpisodeDiscovery.LeadingDigits` | mux-system.py:297 | `\d+` at a digit takes the whole run of digits: a digits-only prefix that the next character (if any) ends |
| `EpisodeDiscovery.LeadingDigitsOfRun` | mux-system.py:297 | any maximal run of digits at the start is the one `\d+` takes |
| `EpisodeDiscovery.EpisodeNumberOfMatch` | mux-system.py:297-309 | where the pattern matches with group 1 at `stem[i..j]`, the episode number is `int(stem[i..j])` |
| `EpisodeDiscovery.EpisodeNumberMatches` | mux-system.py:297-309 | a stem yields a number exactly when the pattern matches: a digit with no digit and no newline before it |
| `EpisodeDiscovery.MatchStart` | mux-system.py:297 | the lazy `.*?` stops at the first digit, and no newline comes before it |
| `EpisodeDiscovery.NoDigitNoEpisode` | mux-system.py:309 | a stem with no digit is skipped |
| `EpisodeDiscovery.DiscoverSpec` | mux-system.py:305-311 | discovery lists each captured number once, strictly ascending, and nothing else |
| `MuxDriver.VersionSuffixRoundTrip` | mux-system.py:95 | `verstr` is empty exactly for version 1; otherwise it is `"v"` and the version, and the version can be read back |
| `MuxDriver.SuccessCountPositive` | mux-system.py:328-339 | `successful_muxes > 0` exactly when some listed episode returned a path, or the run is a dry run and the list is non-empty |
| `MuxDriver.DryRunCountsAll` | mux-system.py:333 | in a dry run every episode counts as a success |
| `MuxDriver.CallsUnique` | mux-system.py:328-334 | `CallsUpToFirstRaise` (every episode up to and including the first one whose call raises, or all of them) fixes the sequence of calls: two sequences that meet it are equal |
| `MuxDriver.MuxEpisodes` | mux-system.py:328-334 | the loop calls the episodes in order and counts the successes; the calls made are a prefix of the episode list; when a call raises, it is the last call made and no earlier call raised, so the loop stops at the first exception; otherwise every episode was called and the count is `SuccessCount` |
| `MuxDriver.Run` | mux-system.py:284-339 | exit code is 1 if the output directory cannot be created; 2 for a bad selector, before any mux call; otherwise 0 exactly when the episode list is non-empty, no call raised and at least one call succeeded, and 1 in every other case; the calls made are a prefix of the selected episodes: all of them when no call raises, and otherwise every episode up to and including the first one that raises |

## Left out

- `mux_episode` (mux-system.py:67-194) is not modelled. Every step of it calls the external muxing library. `Run` takes it as an oracle from episode number to outcome: a path, `None`, or an exception that reaches `main`.
- Run: the oracle gives the same outcome every time the same episode number appears. The real call reads the file system, so two calls for a duplicated episode could differ.
- Run: an exception from the `"all"` directory scan (`GlobSearch`) is not modelled. The stems it returns are a parameter, and `Path(f).stem` is not modelled.
- Run: `Path.mkdir` is a boolean parameter, `outDirCreated`. An exception there gives exit code 1.
- Argument parsing with `argparse`, all `log.*` and `print` output, the import guard, and the configuration constants are not modelled. They are I/O or have no logic.
- `RunMode` is the boolean `dryRun`.
- Digits are ASCII `'0'..'9'`. Python's `str.isdigit`, the regex `\d` and `int()` also accept other Unicode digits. Some of those (superscripts) pass `isdigit` and then fail in `int()`. The model treats every non-ASCII character as a non-digit.
- `strip()` uses Python's whitespace set (`str.isspace`), written out character by character.
- `SortAsc` is an insertion sort, not Python's Timsort. For integers the two give the same list.
- Memory for very long ranges (`"1-1000000000"`) is not modelled.
- DigitsValue: reads a digit string of any length. Python's `int()` raises `ValueError` for a decimal string of more than 4300 digits (the default `sys.int_max_str_digits` since Python 3.11 and the 3.8.14, 3.9.14 and 3.10.7 releases; the limit can be changed by configuration, so the model does not fix one).
- Parse: an item with more than 4300 digits raises at mux-system.py:236 (or in a range bound at lines 226-227), and `main` exits 2 (lines 291-293). `Parse` returns its value instead.
- Discover: a stem whose first digit run has more than 4300 digits raises at mux-system.py:307, and `main` exits 1 (lines 345-347). `Discover` lists the number instead, and `Run` goes on to the mux calls.
- test_mux_system.py is not part of this model. It runs the script as a subprocess against the real library.
