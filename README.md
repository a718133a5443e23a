# Error reporting of the pyre client, modelled in Dafny

This project models the error post-processing of pyre's `Reporting` command
(`client/commands/reporting.py`). It has two stages:

- **Extraction** (`extraction.dfy`, module `Extraction`) models `_get_errors`.
  The analysis server's JSON output is decoded into a list of entries by a
  given function standing for `json.loads`. For each entry the model rewrites `path` relative to the caller's
  working directory. It computes the `external` flag with a raw string-prefix
  test against the current directory. It computes the `ignored` flag by
  searching the `ignore_all_errors` paths, each with `*` appended, and stops
  at the first match. The records go into a set, so equal records collapse.
  A payload that fails to decode gives the `ClientException`, which carries
  the raw output. The code is imperative, so `GetErrors` is a method with a
  loop over the entries. The inner loop over the ignore paths, with its early
  `break`, is the method `MatchesIgnorePath`. `GetErrors` is proved
  equal to the specification functions `Normalize` and `Collect`.
- **Rendering** (`rendering.dfy`, module `Rendering`) models `_print` as pure
  functions. `Filter` drops ignored errors, and drops external errors unless
  verbose. `Sort` orders by the tuple `(path, line, column)` with Python's
  string order. `Summarize` builds the count line with its plural. `Render`
  picks the text or the JSON body. The summary and the body are returned as
  values instead of being logged or written to stdout.

`records.dfy` (module `Records`) holds the shared values: the `Error` record
(both flags, path, line, column and an opaque payload), the decoded
`RawEntry`, and the command's `Settings`.

Filesystem functions are inputs. `Filesystem.realPath` stands for
`os.path.realpath(os.path.join(root, p))`, and `Filesystem.relativePath`
stands for `Command._relative_path`. `Command` is not part of this model.
JSON decoding is a given function too, applied to the raw output: it returns `Some(entries)`, or `None` for a decode error.

Behaviour of the code that a reader may not expect:

- The output `"{}"` decodes to an empty JSON object. The code iterates it as
  zero entries and returns an empty set. Such an output is modelled as
  `Some([])`. The decode step raises `ClientException` only on a decode
  error. Other decoded shapes raise `TypeError` or `KeyError` and are outside
  the model (see "## Left out").
- The printed order is not fully determined by the set of errors. `sorted`
  is stable and compares only `(path, line, column)`. So two errors with the
  same key but different payloads or flags keep the set's iteration order.
  `Rendering.DisplayedStable` proves this for every key, and
  `Rendering.TiedKeysFollowInputOrder` exhibits it. When no two errors
  share a key, the order of arrival makes no difference
  (`Rendering.DisplayedDeterministic`).
- The current-directory test does not respect directory boundaries:
  `/proj2/x.py` counts as inside `/proj` (`Extraction.SiblingDirectoryCountsAsInside`).
- Any `output` value other than `"text"` selects the JSON body.

## Model

| member | source | states |
|---|---|---|
| `Extraction.GetErrors` | client/commands/reporting.py:74-102 | The output is decoded by the given `decode` function. A decode failure yields the `ClientException` built from the raw output. Otherwise the result is the set of `Normalize`d entries. That is exactly the records whose path is the relativized full path, whose line, column and payload pass through, and whose flags follow the prefix and ignore-path rules. Its size never exceeds the number of entries. |
| `Extraction.InvalidOutput` | client/commands/reporting.py:80-83 | The exception message embeds the raw output verbatim, and the output can be read back from it. |
| `Extraction.WildcardMatch` | client/commands/reporting.py:97 | `fnmatch` for patterns whose only metacharacter is `*`. It has no contract of its own; `StarMatchesAnything` and `LiteralStarIsPrefix` prove what it promises. |
| `Extraction.IgnoredPath` | client/commands/reporting.py:92-99 | The ignore flag: some configured path with `*` appended matches the full path. It has no contract of its own; `IgnoredIffUnderSomeIgnorePath` and `IgnoreOrderIrrelevant` prove what it promises, and `MatchesIgnorePath` proves the loop with `break` computes it. |
| `Extraction.MatchesIgnorePath` | client/commands/reporting.py:92-99 | Scanning the ignore paths in order, stopping at the first one that matches with `*` appended, yields exactly the ignore flag: true when some configured path matches, false when none does. |
| `Extraction.ExternalToGlobalRoot` | client/commands/reporting.py:93-95 | The external flag: the full path does not start with the current directory. It has no contract of its own; `SiblingDirectoryCountsAsInside` shows that the test ignores directory boundaries, and `GetErrors` proves the assignments compute it. |
| `Extraction.Normalize` | client/commands/reporting.py:86-100 | The record built for one entry. It has no contract of its own; `GetErrors`, `CollectMembers` and `SameFileEntriesCollapse` prove what it promises. |
| `Extraction.Collect` | client/commands/reporting.py:77-100 | The set accumulated over the entries never has more elements than there are entries. |
| `Extraction.StarMatchesAnything` | client/commands/reporting.py:97 | The pattern `*` matches every path. |
| `Extraction.LiteralStarIsPrefix` | client/commands/reporting.py:97 | For an ignore path with no glob metacharacters, `fnmatch(full_path, P + "*")` holds exactly when P is a prefix of the full path. |
| `Extraction.IgnoredIffUnderSomeIgnorePath` | client/commands/reporting.py:92-99 | With literal ignore paths, the ignore flag is true exactly when some ignore path is a prefix of the full path. |
| `Extraction.IgnoreOrderIrrelevant` | client/commands/reporting.py:96-99 | The ignore flag depends only on which ignore paths are configured, not on their order or repetition. |
| `Extraction.SiblingDirectoryCountsAsInside` | client/commands/reporting.py:93-95 | The external flag is a raw string-prefix test. `/proj2/x.py` is not external for current directory `/proj`; `/lib/x.py` is. |
| `Extraction.CollectMembers` | client/commands/reporting.py:77-100 | The accumulated set holds exactly the records built from the entries, and nothing else. |
| `Extraction.RepeatedEntryCollapses` | client/commands/reporting.py:100 | Appending an entry that is already present leaves the set unchanged. |
| `Extraction.SameFileEntriesCollapse` | client/commands/reporting.py:86-100 | Two entries whose paths resolve to the same file, with equal line, column and payload, yield one error. |
| `Rendering.Shown` | client/commands/reporting.py:46-48 | The comprehension's condition: not ignored, and either verbose or not external. It has no contract of its own; `IgnoredNeverDisplayed`, `ExternalDisplayedIffVerbose` and `LocalAlwaysDisplayed` prove what it promises. |
| `Rendering.Filter` | client/commands/reporting.py:43-50 | The filtered list keeps every shown error with its multiplicity and drops every other one. An error is shown when it is not ignored and either verbose is on or it is not external. `FilterWithKey` proves that the input order is kept. |
| `Rendering.FilterWithKey` | client/commands/reporting.py:43-50 | The comprehension keeps the input order: for every key, filtering and then taking the errors with that key gives the same list as the other way round. |
| `Rendering.FilterKeepsShown` | client/commands/reporting.py:43-50 | When every error passes the filter, the list is unchanged, order included. |
| `Rendering.StringLess` | client/commands/reporting.py:52 | Python's `<` on strings. It has no contract of its own; `StringLessTrichotomy` and `StringLessTransitive` prove it a strict total order. |
| `Rendering.KeyAtMost` | client/commands/reporting.py:52 | `<=` on the tuple `(path, line, column)`. It has no contract of its own; `KeyOrderTotalPreorder` proves it total and transitive. |
| `Rendering.StringLessTrichotomy` | client/commands/reporting.py:51-53 | Python's string order on paths is strict and total: irreflexive, asymmetric, and any two distinct strings are comparable. |
| `Rendering.StringLessTransitive` | client/commands/reporting.py:51-53 | Python's string order on paths is transitive. |
| `Rendering.KeyOrderTotalPreorder` | client/commands/reporting.py:51-53 | The `(path, line, column)` order is total and transitive. |
| `Rendering.Insert` | client/commands/reporting.py:51-53 | Inserting makes the list one element longer. `InsertPermutation` and `InsertSorted` prove the rest. |
| `Rendering.InsertPermutation` | client/commands/reporting.py:51-53 | Inserting adds exactly one element: the result is the input plus `x`, as multisets. |
| `Rendering.InsertSorted` | client/commands/reporting.py:51-53 | Inserting into a sorted list keeps it sorted. |
| `Rendering.Sort` | client/commands/reporting.py:51-53 | `sorted` with the tuple key keeps the length of its input. `SortSortedPermutation` and `SortStable` prove the rest. |
| `Rendering.SortStable` | client/commands/reporting.py:51-53 | Sorting is stable: for every key, the errors with that key appear in the same order as in the input. |
| `Rendering.KeyAtMostAntisymmetric` | client/commands/reporting.py:52 | Two errors whose keys are each at most the other have the same `(path, line, column)`. |
| `Rendering.SortedUnique` | client/commands/reporting.py:51-53 | A sorted permutation is unique when no two distinct elements share a key. |
| `Rendering.SortSortedPermutation` | client/commands/reporting.py:51-53 | Sorting returns a list sorted ascending by `(path, line, column)` that is a permutation of its input. |
| `Rendering.Displayed` | client/commands/reporting.py:43-53 | The printed list is as long as the filtered list. `DisplayedSortedPermutationOfFiltered` proves the rest. |
| `Rendering.DisplayedSortedPermutationOfFiltered` | client/commands/reporting.py:43-53 | The printed list is sorted and is a permutation of the filtered list. It contains exactly the input errors that pass the filter. |
| `Rendering.DisplayedStable` | client/commands/reporting.py:43-53 | For every key, the printed errors with that key appear in their input order, restricted to those that pass the filter. |
| `Rendering.DisplayedDeterministic` | client/commands/reporting.py:43-53 | Two orderings of the same errors print the same list when no two distinct errors share a `(path, line, column)` key. |
| `Rendering.IgnoredNeverDisplayed` | client/commands/reporting.py:46-47 | An ignored error is never printed, whatever the value of verbose. |
| `Rendering.ExternalDisplayedIffVerbose` | client/commands/reporting.py:47-48 | A non-ignored error external to the global root is printed exactly when verbose is on. |
| `Rendering.LocalAlwaysDisplayed` | client/commands/reporting.py:47-48 | A non-ignored error inside the global root is always printed. |
| `Rendering.SortExample` | client/commands/reporting.py:51-53 | `b.py:1:1`, `a.py:5:1`, `a.py:1:9` are printed as `a.py:1:9`, `a.py:5:1`, `b.py:1:1`. |
| `Rendering.TiedKeysFollowInputOrder` | client/commands/reporting.py:51-53 | Errors with equal `(path, line, column)` keep their input order, so either input order shows up in the output. |
| `Rendering.DecimalString` | client/commands/reporting.py:57 | `%d` of a count is a non-empty string of decimal digits with no leading zero. |
| `Rendering.DecimalRoundTrip` | client/commands/reporting.py:57 | Reading the `%d` digits back gives the count. |
| `Rendering.Summarize` | client/commands/reporting.py:55-59 | The summary is at success level exactly when the count is zero; it then reads "No type errors found". |
| `Rendering.SummaryCountRoundTrip` | client/commands/reporting.py:55-59 | Every summary reads back as the count it reports: "No type errors found" for 0, "Found 1 type error!" for 1, "Found n type errors!" for n > 1. The plural appears exactly when n > 1. |
| `Rendering.Reprs` | client/commands/reporting.py:62 | The list comprehension of `repr`s has one line per printed error. |
| `Rendering.JoinLines` | client/commands/reporting.py:62 | `"\n".join`. It has no contract of its own; `SplitJoinRoundTrip` proves what it promises. |
| `Rendering.SplitJoinRoundTrip` | client/commands/reporting.py:62 | Splitting the newline-joined text body gives back the line of each error, one per line, when no line contains a newline. |
| `Rendering.Render` | client/commands/reporting.py:42-64 | The body is text exactly when the text format is chosen. The JSON records are a permutation of the filtered errors. The summary is at success level exactly when nothing passes the filter. `RenderPromises` proves the rest. |
| `Rendering.RenderPromises` | client/commands/reporting.py:42-64 | The summary reports the length of the filtered list, and is at success level exactly when nothing passes the filter. The body is text exactly when the text format is chosen. The JSON records are the filtered errors, sorted. The text is empty when nothing is shown, and otherwise has one line per printed error in printed order. |

## Left out

- `result.check()` and the `Result` type are outside the reporting file. Extraction starts from the server output, assumed successful.
- `json.loads` and `json.dumps`: decoding is a given function (`Some(entries)`, or `None` for `JSONDecodeError`/`ValueError`). The JSON body is the list of records, not its serialized text.
- Decoded values that are not a list of objects with `path`, `line` and `column` (the `TypeError`/`KeyError` they would raise): the decoded type rules them out.
- `os.path.realpath`, `os.path.join`, `os.getcwd` and `_relative_path` depend on the filesystem. They are given functions, so symlink resolution and the concrete relative-path text (`../a/b.py`) are not modelled.
- `Extraction.WildcardMatch`: only `*` is a metacharacter. `fnmatch`'s `?` and `[...]` are not modelled, and ignore paths containing them are outside `LiteralStarIsPrefix`. `normcase` is the identity, as on POSIX.
- The in-place rewrite of the decoded entry's `path` key is modelled as building a new record; the mutated dictionary is not used afterwards.
- `repr(error)` and the `Error` class's internals are not part of this model: `Render` takes the text form of an error as a parameter. The model assumes that `Error` equality and hashing cover every field, the two flags included. The de-duplication results (`CollectMembers`, `Collect`, `RepeatedEntryCollapses`, `SameFileEntriesCollapse`) rest on that assumption.
- `LOG.error`, `LOG.log` and `log.stdout.write` are I/O. The summary (with its log level) and the body are returned instead.
- `_get_directories_to_analyze` is a set comprehension over `relpath`/`getcwd` and the analysis directory, which are outside this model.
- The constructor's wiring from `argparse` and `Configuration` is plumbing; `Settings` carries `verbose`, `output`, the ignore paths and the current directory.
