# Mainline IPO extraction, modelled in Dafny

The `/fetch_mainline` route of this IPO API loads a live "IPO GMP" report
page in a browser. It reads the rows of its `mainTable` and returns a list of
dictionaries, one per currently open IPO. This project models the extraction
step that runs on the fetched rows (api/index.py:29-44) and proves its
properties:

- **Row filter**: a row is kept exactly when its `class` attribute contains
  `color-green` (Python's substring `in`).
- **Row builder**: the cells of a kept row are visited in order. The cell
  whose `data-label` is `IPO` sets `company_name` and `subscription_ratio`
  from two regular expressions. Every other cell stores its text under its
  label, so a later cell with the same label overwrites an earlier one.
- **Field parsers**: `re.search(r'(.+?)Open', text)` and
  `re.search(r'Sub:(.+?)\)', text)`, each giving group 1 or `None`. Both have
  the same shape: a literal prefix, a lazy non-empty capture `(.+?)` and a
  literal suffix. The search is modelled once for that shape, with Python's
  semantics: the leftmost start wins, the capture is as short as possible at
  that start, and `.` never matches a newline.

Files:

- `text.dfy` (module `Text`): `Option` (Python's `None`), a literal at a
  position, and the substring test.
- `lazy_search.dfy` (module `LazySearch`): `prefix(.+?)suffix` search. The
  index-based search (`LazyCapture`, `SearchFrom`) is proved against the
  specification predicates `Occurs` and `FirstOccurrence`.
- `fields.dfy` (module `Fields`): the two parsers and what they guarantee.
- `mainline.dfy` (module `Mainline`): rows, cells and dictionaries. The
  route's nested loop is the method `RetrieveMainlineData`. It is proved
  equal to the specification functions `Extract` and `RowOf`, and the
  properties of those functions are proved as lemmas.

A row is `Row(classAttr, cells)`, a cell is `Cell(dataLabel, text)`, and a
dictionary is a `map<string, Option<string>>`. Only the two regex-derived
keys can hold `None`.

The route returns the bare list of dictionaries, with the cells' own labels
as keys, and a regex that does not match gives `None`.

## Model

| member | source | states |
|---|---|---|
| `Text.Contains` | api/index.py:31 | `sub in s` holds exactly when `sub` occurs at some position of `s` |
| `Text.ContainsFrom` | api/index.py:31 | scanning from position `i` finds `sub` exactly when it occurs at some position `>= i` |
| `LazySearch.LazyCapture` | api/index.py:37-40 | growing the lazy capture from length `k` returns the smallest length `>= k` whose newline-free run is followed by the suffix, or `None` when no such length exists |
| `LazySearch.SearchFrom` | api/index.py:37-40 | the search from start `i` returns a match at the leftmost start `>= i`, with the shortest capture at that start, or `None` when no match starts at `i` or later |
| `LazySearch.Search` | api/index.py:37-40 | group 1 is `None` exactly when the pattern occurs nowhere; otherwise it is the run of the first occurrence (no occurrence starts further left, and none at that start is shorter) |
| `LazySearch.OccursIsMatch` | api/index.py:37-40 | an occurrence of `prefix + run + suffix` is an index-level match whose group is `run` |
| `LazySearch.ShorterRunOccurs` | api/index.py:37-40 | cutting a run where the suffix reappears inside it gives a shorter occurrence at the same start |
| `LazySearch.FirstOccurrenceIsLazy` | api/index.py:37-40 | the reported run never contains the start of the suffix after its first character |
| `LazySearch.SearchIsLazy` | api/index.py:37-40 | the reported run occurs between the two literals in the text, and the suffix does not start inside it after its first character |
| `LazySearch.FirstOccurrenceUnique` | api/index.py:37-40 | at most one start and run satisfy the first-occurrence conditions, so `Search`'s contract determines its result exactly |
| `Fields.CompanyName` | api/index.py:37-38 | `company_name` is `None` exactly when no newline-free non-empty run followed by "Open" exists; otherwise it is the leftmost such run, shortest at its start, non-empty and newline-free |
| `Fields.SubscriptionRatio` | api/index.py:39-40 | `subscription_ratio` is `None` exactly when no "Sub:" is followed by a newline-free non-empty run and a ")"; otherwise it is the run after the leftmost such "Sub:", shortest at that start |
| `Fields.CompanyNameStopsAtFirstOpen` | api/index.py:37-38 | when a name is found, the name plus "Open" occurs in the text, and "Open" does not start inside the name after its first character |
| `Fields.SubscriptionRatioStopsAtFirstParen` | api/index.py:39-40 | when a ratio is found, "Sub:" plus the ratio plus ")" occurs in the text, and the ratio has no ")" after its first character, so it ends at the first ")" at least one character after "Sub:" |
| `Fields.CompanyNameSkipsNewline` | api/index.py:37-38 | on the text "X", newline, "YOpen" the name is "Y": `.` does not cross the newline |
| `Fields.SubscriptionRatioSkipsNewline` | api/index.py:39-40 | on "Sub:1", newline, "Sub:2)" the ratio is "2": a "Sub:" whose run hits a newline before ")" is passed over |
| `Fields.SubscriptionRatioMayStartWithParen` | api/index.py:39-40 | on "Sub:))" the ratio is ")": the capture is non-empty, so the first ")" can be part of it |
| `Mainline.RetrieveMainlineData` | api/index.py:29-44 | the nested loop returns `Extract(rows)`, and as many dictionaries as there are rows whose class contains "color-green" |
| `Mainline.ExtractLength` | api/index.py:29-43 | the result has exactly as many dictionaries as there are rows whose class contains "color-green" |
| `Mainline.ExtractAt` | api/index.py:29-43 | the dictionary of the highlighted row `n` comes right after those of the highlighted rows before it, so the input order is kept |
| `Mainline.ExtractAppend` | api/index.py:29-43 | each row contributes independently: extracting `a + b` is extracting `a` followed by extracting `b` |
| `Mainline.ExtractSingle` | api/index.py:30-43 | one row gives its dictionary when its class contains "color-green", and nothing otherwise |
| `Mainline.RowKeys` | api/index.py:32-42 | a key is in a row's dictionary exactly when some cell writes it: the "IPO" cell writes the two parsed keys, any other cell writes its label |
| `Mainline.LastWriterWins` | api/index.py:34-42 | a key holds the value of the last cell that writes it: the verbatim text for a labelled cell, the parsed value for the "IPO" cell |
| `Mainline.RowKeySet` | api/index.py:32-42 | a row's keys are exactly the labels of its non-"IPO" cells, plus `company_name` and `subscription_ratio` when it has an "IPO" cell |
| `Mainline.IpoKeysPresent` | api/index.py:36-40 | a row with an "IPO" cell always has both `company_name` and `subscription_ratio`, even when a pattern did not match |

## Left out

- The Flask application and its routes (api/index.py:10-16): web-server
  plumbing. The route's list is the model's result; its JSON encoding is not
  modelled.
- Creating the Chrome driver, loading the page and locating the table, rows
  and cells (api/index.py:18-27, 31, 33, 35): browser I/O. Rows and cells are
  given as plain data, with the class attribute, `data-label` attribute and
  rendered text already read.
- A row whose `class` attribute is missing: `get_attribute` then returns
  `None`, and Python's `in` raises `TypeError`. The model assumes the
  attribute is a string.
- A cell without a `data-label` attribute: the source would store its text
  under the key `None`. Labels are modelled as strings, so that key cannot
  arise.
- A general regular-expression engine: only the one shape the two patterns
  share (literal prefix, lazy `(.+?)`, literal suffix) is modelled.
- The source runs each `re.search` twice, once for the test and once for the
  group. The search is deterministic, so the model runs it once.
- Key order of each row's dictionary: Python keeps keys in first-insertion
  order, and a `map` has no order. The route's JSON output sorts keys, so
  that order is never visible.
