# Clipboard history extension: a Dafny model of its query path

The extension is a launcher plugin. It lists the history of a clipboard-manager daemon and filters it as the user types. This project models the logic behind each keystroke, as pure functions over values, and proves what that logic promises.

- **Backend selection** (`Backends`): `get_manager` and its `sorter` key. The registry is the fixed, ordered list CopyQ, GPaste, Clipster, Clipman.
  - Each adapter's probes (`can_start`, `is_enabled`, `is_running`) become booleans in a `Backend` record.
  - For `"Auto"`, the startable adapters are stable-sorted by the key `int("{enabled}{running}")` and the last one is taken. Any other name picks the first adapter with that name.
  - The outcome is a `Selection`:
    - a registry index (`Chosen`);
    - the empty-contenders failure (`NoBackendAvailable`, the `IndexError` of `sorted(...)[-1]`);
    - the `None` of an unknown name (`UnknownBackend`).
  - The sort is modelled as a stable insertion sort over registry indexes. Its permutation and ordering are proved.
- **Context formatter** (`Formatter`): `format_entry`. The entry is stripped and split into lines, and the anchor line is found: the first line containing the query, or line 0 for an empty query. The label is the anchor line, with the trimmed neighbouring lines as context marked by `...`. The payload is the whole original entry.
- **Filter, budget and status** (`Query`): the part of `Clipboard.on_query_change` that runs once a history has been fetched.
  - The query filter, including Python's slice rules for `history[:max_lines]`.
  - The line budget. It is kept exactly in twentieths of a line: a label of `n` lines costs `max(20, 17 * n)` against a budget of `20 * max_lines`.
  - The choice between result rows and the two status messages.
- **String operations** (`Text`): the Python `str` operations these rely on: `lower`, `strip`, `split('\n')`, `'\n'.join`, `count('\n')` and substring `in`. Each is defined here and related to its inverse or to a declarative description.
- **Worked examples** (`Scenarios`): the same operations on concrete histories and entries.

## Model

| member | source | states |
|---|---|---|
| Backends.Registry | main.py:8 | The registry has exactly the four adapters, in the declared order CopyQ, GPaste, Clipster, Clipman, each paired with its own probe outcome. |
| Backends.SorterKey | main.py:9 | Formatting the enabled and running bits as two decimal digits and parsing them back gives 10·enabled + running, a value between 0 and 11. |
| Backends.SorterKeyOrder | main.py:9 | One key is smaller than another exactly when the first backend is disabled and the second enabled, or both agree on enabled and only the second is running. |
| Backends.Contenders | main.py:47 | The contenders are exactly the startable adapters, as registry positions in increasing (declaration) order. |
| Backends.Insert | main.py:48 | One step of the stable sort: inserting a contender after every element that does not outrank it keeps the sequence a permutation of its inputs and sorted by rank. Rank is the key, with ties broken by registry position. |
| Backends.SortByKey | main.py:48 | `sorted(contenders, key=sorter)` is a permutation of the contenders, ordered by key, with equal keys kept in registry order (stability). |
| Backends.AutoSelect | main.py:46-48 | For `"Auto"`, nothing is chosen exactly when no adapter can start. Otherwise the chosen adapter can start and outranks every other startable adapter: it has a larger key, or an equal key and a later registry position. |
| Backends.BestContenderUnique | main.py:46-48 | The best-ranked contender is unique, so automatic selection is determined by the probe outcomes. |
| Backends.FindByNameFrom | main.py:50-52 | The name search returns the first position from `from` on whose name equals the request. It reports an unknown backend exactly when no later adapter carries that name. |
| Backends.Select | main.py:45-52 | `get_manager`: the `"Auto"` request obeys the ranking rule and can fail only for lack of a startable adapter. Any other request yields the first adapter with that exact name, or the unknown-backend outcome when none has it. |
| Backends.AutoSelectsBest | main.py:46-48 | Conversely, whichever adapter the ranking rule singles out is the one `get_manager("Auto")` returns. |
| Backends.AutoPrefersEnabled | main.py:9 | A three-adapter example. The first adapter cannot start, whatever its enabled and running probes report; the second is enabled but stopped; the third is running but disabled. The second is chosen. |
| Backends.AutoTieGoesToLastDeclared | main.py:8-9 | When all four adapters can start and report the same state, the tie goes to the last declared adapter, Clipman, because the sort is stable and the last element is taken. |
| Text.LowerChar | main.py:60 | Lowering a character maps `A`–`Z` to `a`–`z` and leaves every other character unchanged. |
| Text.Lower | main.py:60 | `lower()` keeps the length, maps each upper-case letter `A`–`Z` to its lower-case partner, and leaves every other character unchanged. |
| Text.TrimEnd | main.py:19 | `rstrip()` returns a prefix that does not end in whitespace. Everything it removes is whitespace. |
| Text.TrimStart | main.py:19 | `lstrip()` returns a suffix that does not start with whitespace. Everything it removes is whitespace. |
| Text.Strip | main.py:19 | `strip()` is no longer than the string, and neither starts nor ends with whitespace. |
| Text.StripSpec | main.py:19 | `strip()` returns a block of the string surrounded only by whitespace, which together with `Strip`'s own contract pins it down. |
| Text.StripEmptyIff | main.py:29 | A stripped line is empty, so `if line:` skips it, exactly when the line is all whitespace. |
| Text.Split | main.py:19 | `split('\n')` always yields at least one piece, and no piece contains a line break. |
| Text.JoinSplit | main.py:19 | Joining the pieces of `split('\n')` with line breaks gives back the string. |
| Text.SplitJoin | main.py:41 | Splitting a `'\n'.join` of break-free lines gives back exactly those lines. |
| Text.SplitCount | main.py:90 | `count('\n') + 1` is the number of lines `split('\n')` yields. |
| Text.CountChar | main.py:90 | `count(c)` is at most the length, and is zero exactly when `c` does not occur. |
| Text.CountCharMultiplicity | main.py:90 | `count(c)` is the number of occurrences of `c`: its multiplicity in the string. |
| Text.Join | main.py:41 | `'\n'.join` of break-free lines has exactly one line break fewer than it has lines (none for no lines). |
| Text.ContainsTransitive | main.py:81 | A block of a block of a string is a block of that string. |
| Text.ContainsLower | main.py:81 | A block of a string stays a block once both are lowered. |
| Formatter.EntryLines | main.py:19 | The stripped entry has at least one line, and no line contains a line break. |
| Formatter.FirstMatchingLine | main.py:24 | `next(l for l in entry_list if query in l.lower())` is the line at the first position whose lowered form contains the query. |
| Formatter.ListIndex | main.py:25 | `list.index(line)` is the first position holding a line equal to `line`. |
| Formatter.AnchorIndex | main.py:21-25 | `pos` is 0 for an empty query. Otherwise it is the first line containing the query: looking the matched line up again by value cannot land earlier. |
| Formatter.AnchorUnique | main.py:21-25 | The anchor position is unique. |
| Formatter.Leading | main.py:27-30 | The context before the anchor is present exactly when `pos > 0` and the predecessor is not all whitespace (`if line:` on the stripped line), and it is then `'...'` followed by the stripped predecessor. |
| Formatter.Trailing | main.py:34-37 | The context after the anchor is present exactly when a successor exists and is not all whitespace, and it is then the stripped successor followed by `'...'`. |
| Formatter.Window | main.py:27-37 | The `context` list has one to three lines and none contains a line break, so joining it loses nothing. |
| Formatter.WindowShape | main.py:27-37 | The `context` list contains the following, and nothing else: <ul><li>the predecessor, stripped and prefixed with `...`, exactly when `pos > 0` and it is non-blank;</li><li>the untrimmed anchor line;</li><li>the successor, stripped and suffixed with `...`, exactly when it exists and is non-blank.</li></ul> Every shown line is drawn from the entry's lines. |
| Formatter.FormatEntry | main.py:39-43 | The row's payload is the original, unstripped entry. |
| Formatter.Label | main.py:41 | Split at its line breaks, the label gives back the `context` list, and it has one line break fewer than that list has lines. |
| Formatter.FormatEntryLineCount | main.py:18-43 | A label has one to three lines, one more than its line breaks. |
| Formatter.FormatEntryWindow | main.py:18-43 | An anchor exists, and read back line by line the label is the window around it (around every anchor, of which there is one). Every label line is drawn from the stripped entry. |
| Formatter.EntryLinesFromEntry | main.py:19 | Nothing on a label is invented: every line of the stripped entry, and its trimmed form, occurs in the original entry. |
| Formatter.FormattableMatches | main.py:24 | An entry that can be formatted for a non-empty query contains that query once lowered. Any entry the formatter accepts would pass the history filter. |
| Query.NormalizeQuery | main.py:60 | A missing argument becomes the empty query. Otherwise each upper-case letter is lowered and nothing else changes, so the query is its own lower-case form. |
| Query.AllMatches | main.py:81 | The reference filter's result is an order-preserving subsequence of the history. Every element contains the query, and every matching entry appears in it. |
| Query.AllMatchesMultiplicity | main.py:81 | The reference filter keeps every copy of a matching entry and no copy of any other. With the subsequence property this determines the result. |
| Query.PrefixOfSubsequence | main.py:78-82 | Stopping the filter early still leaves an order-preserving subsequence. |
| Query.SubsequenceMembers | main.py:78-82 | Every collected entry is an entry of the history. |
| Query.Head | main.py:75 | `history[:n]` is a prefix of the history of length `min(n, len)` for `n ≥ 0`. A negative `n` drops `-n` entries from the end. |
| Query.CollectMatches | main.py:77-82 | The loop only appends to what it has already collected. Everything it appends contains the query, and it never collects more than `max_lines`. |
| Query.CollectMatchesUpToLimit | main.py:77-82 | While the limit can still be reached, the loop collects the first `max_lines - len(matches)` entries of the reference filter. |
| Query.CollectMatchesPastLimit | main.py:77-82 | Once more than `max_lines` are collected, the `==` test never fires and the loop collects every remaining match. |
| Query.Matches | main.py:73-82 | An empty query yields the first `min(max_lines, len)` entries for `max_lines ≥ 0`; a negative `max_lines` drops that many entries from the end, as Python's slice does. A non-empty query yields the first `max_lines` matching entries, or every matching entry when `max_lines` is negative. |
| Query.QueryMatchesProperties | main.py:76-82 | For a non-empty query, the matches are an order-preserving subsequence of at most `max_lines` entries, each containing the query. If fewer than `max_lines` were collected, the matches are the whole reference filter, duplicates included. |
| Query.Cost | main.py:90 | An entry costs at least one line, and exactly one line when its label has no line break. |
| Query.TotalCost | main.py:90 | The running total is at least one line per row. |
| Query.FormattedCost | main.py:88-90 | A formatted entry costs 1, 1.7 or 2.55 lines (20, 34 or 51 twentieths). |
| Query.KeepWithin | main.py:85-92 | The budget loop keeps no more items than it is given. |
| Query.OverspentKeepsNothing | main.py:90-92 | Once the running total is past `max_lines`, no later entry is kept, because every entry adds a positive cost. |
| Query.KeptIsPrefix | main.py:85-92 | The kept rows are a prefix of the formatted matches. |
| Query.KeptFits | main.py:85-92 | The total cost of the kept rows is within the budget. |
| Query.NextDoesNotFit | main.py:85-92 | When rows are left out, adding the first of them would exceed the budget. |
| Query.KeepWithinIsLongestFittingPrefix | main.py:84-92 | The rows kept are the longest prefix of the formatted matches whose total cost fits the budget. |
| Query.FormatAll | main.py:87-88 | There is one row per match, in order. Row `k` is `format_entry` of match `k`, so it carries that entry as payload. |
| Query.FormatAllCosts | main.py:87-90 | Every formatted match costs 20, 34 or 51 twentieths of a line. |
| Query.Respond | main.py:84-96 | <ul><li>Rows are returned exactly when there are matches, even if the budget then keeps none.</li><li>Otherwise the status reads "No matches in clipboard history" for a non-empty query and "Clipboard history is empty" for an empty one.</li><li>The rows are the longest fitting prefix of the formatted matches.</li></ul> |
| Query.NoMatchesIff | main.py:81 | The filter finds nothing exactly when no entry contains the query. |
| Query.StatusMessages | main.py:94-96 | For a positive `max_lines`: <ul><li>"Clipboard history is empty" appears exactly when the query and the history are both empty;</li><li>"No matches in clipboard history" appears exactly when the query is non-empty and no entry contains it.</li></ul> |
| Query.ResultsMatchQuery | main.py:78-92 | Every row returned for a non-empty query carries an entry of the history that contains the query. |
| Scenarios.AppleHistoryMatches | main.py:76-82 | Filtering `["apple\npie", "banana", "apple tart"]` for `apple` keeps the first and third entries, in order. |
| Scenarios.AppleEntryLabel | main.py:18-43 | `format_entry` with query `apple` on `"apple\npie"` yields the label `"apple\npie..."`. |
| Scenarios.EmptyHistoryStatus | main.py:96 | An empty query over an empty history answers "Clipboard history is empty". |
| Scenarios.NoMatchStatus | main.py:94-96 | A query that no entry contains answers "No matches in clipboard history". |

## Left out

- **UI plumbing.** The launcher API, the result classes, `show_status` and the icon are not modelled. A row is a plain pair: the label (`name`) and the payload.
- **Helpers, adapters and the clipboard write.** These are not part of this model:
  - the `lib` helpers: `try_int` with its default of 20, `ensure_status`, `set_clipboard` and `logger`;
  - the `managers` adapters.
  - How the inputs arrive: probe outcomes, `max_lines`, the manager preference and the fetched history are inputs. The history-fetch error path (main.py:65-71) and the could-not-start status (main.py:62-63) are not modelled.
- **`on_item_enter`** (main.py:98-112) is not modelled. It is all side effects: a clipboard write and a detached copy hook.
- Formatter.FormatEntry: requires the entry to be formattable, and so does Query.Respond for every match. `format_entry` raises `StopIteration` (main.py:24) when a non-empty query matches the entry only across a line break or inside whitespace that `strip()` removes. The model states this as the `Formattable` precondition instead of modelling the crash.
- **The `manager` reference in the could-not-start message** (main.py:63) names an undefined variable and would raise `NameError`. That path is not modelled.
- Query.Cost: float rounding is not reproduced. The model counts exact twentieths of a line, whereas the source adds floats. For example, thirty two-line labels each add `max(1, 2*0.85)`, which sums to 51.00000000000002 in IEEE doubles. With `max_lines` 51 the source therefore drops the thirtieth row, while the model keeps it (1020 ≤ 1020 twentieths).
- Text.Lower: handles only ASCII letters, and `IsSpace` uses a fixed character set. `Lower` lowers only `A`–`Z`, whereas Python's `str.lower()` also lowers other scripts. `IsSpace` is the fixed set of characters Python's `str.isspace()` accepts.
- Backends.Select: works on a generic registry. `Select` works on any registry sequence, not only the four adapters. `Registry` builds the four-adapter registry from a probe function.
