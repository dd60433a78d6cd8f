# 3-1-6 fund screening bot — a Dafny model

`line_app.py` is a LINE chat bot. It scrapes a fund-statistics site and
answers three kinds of text message:

- `基金列表` ("fund list"): reload the catalog of fund groups from the
  listing page and reply with one fund-group name per line.
- A known fund-group name: fetch that group's return table for the fixed
  period 2020/02 and apply the "3-1-6 rule". The rule keeps the better half
  of the funds by 3-year return, then the better half of those by 1-year
  return, then the better half of those by 6-month return. The reply is one
  line `name, 3yr, 1yr, 6mo` per surviving fund.
- Anything else: the fixed reply `請輸入正確指令` ("please enter a valid
  command").

The model covers the in-memory logic of that file. The network and the HTML
parser are replaced by what they return:

- the listing page is `Option<seq<Link>>`, one `(text, href)` per `<a>`;
  `None` means the listing table was not found;
- the return-table fetch is a function `fetch: Request -> Option<RawTable>`,
  where `RawTable` is rows of optional cells as `pd.read_html` yields them.

Returns are an abstract ordered value (`int`), not floats. Two things are
parameters rather than fixed functions: how a text cell reads as a number
(`parse`, the model of `astype(float)`) and how values print in a reply
(`Format`).

Modules:

- `Outcomes`: the `Option` and `Result` types and the exceptions the source
  lets escape (`Error`).
- `TextLines`: replies built by appending `piece + '\n'`. `JoinLines` gives
  that text, and `SplitLines` reads it back line by line.
- `Funds`: cells, the eight return horizons and their column headings, and
  a converted fund row.
- `FundTable`: the post-processing of the fetched table. It drops the first
  row, promotes the next row to the header, drops that row, renumbers from
  zero, fills empty cells with 0, and converts the eight return columns.
- `Screening`: one stage (`TopHalf`, the `sort_values(...).nlargest(...)`
  pair) and the three-stage rule (`Screen`).
- `FundCatalog`: `href.split('txtGROUPID=')[1]` (`SplitSecond`), the
  dictionary with Python's insertion order (`Catalog`), and the link loop of
  `init_fund_list` (`Absorb`).
- `LineApp`: `fetch_fund_rule_items`, specified by the function `RuleItems`
  (`Screened`, then `Items`) and implemented by the method
  `FetchFundRuleItems`, whose reply loop is the method `RenderItems`; and the class `FundBot`. Its fields are the global
  `fund_map_dict`. Its methods are `InitFundList`, `ListNames` (the `+=`
  loop of lines 143-145) and `HandleMessage`.

`HandleMessage` returns two things:

- `reply`: the text sent back, or the error that escapes the handler, in
  which case no reply is sent;
- `request`: the return-table fetch it made, if it made one.

Behaviour of the code that the model keeps:

- **Tie order.** `nlargest` (with its default `keep='first'`) breaks ties by
  position in the frame it is given. So the ascending `sort_values` before it
  decides which of several equal-return rows survive a cut, and in what
  order equal-return survivors are listed. That sort is pandas' default
  unstable quicksort, so neither is fixed, and the model promises neither.
- **Partial catalog updates.** The loop writes into `fund_map_dict` as it
  goes, so a failing link keeps the entries added before it (`Absorb`,
  `AbsorbAppend`).
- **Errors.** `IndexError`, `KeyError` and `ValueError` escape
  `handle_message` and no reply is sent; the model returns `Err` with the
  matching `Error` constructor.
- **Empty catalog at start.** Nothing fills the catalog at start-up:
  lines 161-168 hold only comments and `app.run()`. So until the first
  `基金列表`, every fund name gets the invalid-command reply.
  `FundBot.constructor` starts empty.

## Model

| member | source | states |
|---|---|---|
| `Screening.SortDescending` | line_app.py:95-97 | the order in which `nlargest` ranks and returns a stage's rows: non-increasing in the stage's return and a permutation of the input (the ascending, unstable `sort_values` before it decides which equal-return rows survive a cut and how equal-return survivors are listed; this is one admissible choice) |
| `Screening.TopHalf` | line_app.py:95 | one stage returns exactly `int(len/2)` rows, in non-increasing order of the stage's return (the output order of `nlargest`) |
| `Screening.TopHalfSelects` | line_app.py:95-97 | a stage's rows are a sub-multiset of its input, and every kept row's return is ≥ that of every dropped row |
| `Screening.Screen` | line_app.py:95-97 | the 3-1-6 chain yields `floor(floor(floor(N/2)/2)/2)` rows, a sub-multiset of the table, non-increasing by 6-month return, and none at all when N < 8 |
| `Screening.TopHalfOfStrictlyDescending` | line_app.py:95 | on rows already strictly decreasing in the stage's return, a stage keeps the first half as is |
| `Screening.FourFundScenario` | line_app.py:95-97 | 3-year returns 10, 8, 6, 4 keep the first two rows; 1-year returns 5 and 9 then keep the second; the final result is empty |
| `FundTable.Prepare` | line_app.py:74-82 | fails exactly when the table has fewer than two rows; otherwise the header is source row 1, data row i is source row i+2, and every empty cell becomes 0 while others are kept |
| `FundTable.ColumnIndex` | line_app.py:85-92 | finds the first column whose heading is the name, or reports that no heading matches |
| `FundTable.Numbers` | line_app.py:85-92 | `astype(float)` on a column succeeds iff every cell converts, and then gives each cell's number in row order |
| `FundTable.Column` | line_app.py:85-92 | a column fails with `ColumnMissing` exactly when no heading matches (the `KeyError`) and otherwise with `NotNumeric` (the `ValueError` of a cell that does not convert); it succeeds iff neither happens, giving each cell's number |
| `FundTable.Columns` | line_app.py:85-92 | the conversions run in source order; all succeed iff each does, and a failure reports the error of the first failing column, every column before it having converted |
| `FundTable.Decode` | line_app.py:85-92 | decoding succeeds iff all eight return columns convert; it keeps row count and each row's cells |
| `FundTable.DecodedReturn` | line_app.py:85-92 | each return of a decoded row is that row's cell, in the column headed by the horizon's name, read as a number |
| `FundTable.EmptyCellRanksAsZero` | line_app.py:82-92 | a table with data row i always passes post-processing, and if its returns convert, an empty cell of a return column ranks as exactly 0 |
| `FundCatalog.FindKey` | line_app.py:55 | finds the first occurrence of the separator at or after a position, or reports that there is none |
| `FundCatalog.SplitSecond` | line_app.py:55 | `split(key)[1]` exists iff the key occurs; the piece never contains the key |
| `FundCatalog.GroupIdOf` | line_app.py:55 | a link's `href.split('txtGROUPID=')[1]` exists iff the href contains `txtGROUPID=`, and the id never contains it |
| `FundCatalog.GroupIdOfLink` | line_app.py:55 | the href `p + "txtGROUPID=" + id`, optionally followed by another `txtGROUPID=`, yields exactly `id` when `p` and `id` hold no key |
| `FundCatalog.Put` | line_app.py:56 | dictionary assignment: the entry is set; a new key is appended to the insertion order; an existing key keeps its place |
| `FundCatalog.Absorb` | line_app.py:50-56 | the link loop keeps the dictionary well formed and never removes or reorders keys; a failure comes from a link with text and an unusable href |
| `FundCatalog.AbsorbSucceeds` | line_app.py:50-56 | the loop runs to the end iff every link with non-empty text has an href containing `txtGROUPID=` |
| `FundCatalog.AbsorbAppend` | line_app.py:50-56 | the loop over `a + b` is the loop over `a`, followed by the loop over `b` only if `a` did not fail, so a failure keeps the updates made before it |
| `FundCatalog.EmptyTextIgnored` | line_app.py:52 | a link with empty text, anywhere in the list, changes nothing |
| `FundCatalog.OtherNamesKept` | line_app.py:36 | a name no link carries keeps its old entry, or stays absent, even if the loop fails: the dictionary is never cleared |
| `FundCatalog.LastLinkWins` | line_app.py:54-56 | after a complete run, a name maps to the group id of the last link that carries it |
| `FundCatalog.LinkNames` | line_app.py:52-54 | the set of names the page supplies is exactly its non-empty link texts |
| `FundCatalog.AbsorbNames` | line_app.py:50-56 | after a complete run, the dictionary's keys are the old keys plus every non-empty link text |
| `TextLines.JoinLines` | line_app.py:143-145 | the `+= piece + '\n'` text is empty iff there are no pieces |
| `TextLines.JoinLinesSnoc` | line_app.py:145 | one more `+=` appends exactly `piece + '\n'` to the text |
| `TextLines.SplitJoinLines` | line_app.py:143-145 | reading such a text back line by line gives exactly the pieces it was built from, if no piece contains a newline |
| `LineApp.RowLines` | line_app.py:102-103 | one reply line per screened row, in the rows' order |
| `LineApp.Screened` | line_app.py:67-97 | fails with `TableNotFound` exactly when there is no table; screening succeeds iff post-processing and conversion do, and then keeps `floor(floor(floor(N/2)/2)/2)` of the N decoded rows, drawn from them, non-increasing by 6-month return, read under header row 1 |
| `LineApp.Items` | line_app.py:98-105 | no surviving rows reply `''`; the missing name column fails (`KeyError`) exactly when rows remain; a successful reply is empty iff no row survived |
| `LineApp.RuleItems` | line_app.py:67-105 | fails with `TableNotFound` exactly when there is no table; every other failure is a missing header row, a missing or non-numeric return column, or the missing name column; a successful reply is empty iff screening kept no row |
| `LineApp.RenderItems` | line_app.py:98-105 | the reply loop's text equals `Items`: the name-column error only when rows remain, and otherwise `name, 3yr, 1yr, 6mo` plus a newline per row, in order |
| `LineApp.FetchFundRuleItems` | line_app.py:67-105 | the whole of `fetch_fund_rule_items` after the fetch equals `RuleItems`: screening, then the reply loop, with each error where the source raises it |
| `LineApp.SmallTableRepliesEmpty` | line_app.py:95-105 | a table with fewer than 8 data rows, whose header rows exist and whose eight return columns exist and convert, replies `''`, with no error |
| `LineApp.ReplyListsScreenedRows` | line_app.py:95-105 | a successful reply, read line by line, is one line per surviving row in `nlargest` order; those rows number `floor(floor(floor(N/2)/2)/2)`, come from the table, and are non-increasing by 6-month return |
| `LineApp.FundBot.constructor` | line_app.py:36 | the catalog starts empty |
| `LineApp.FundBot.InitFundList` | line_app.py:39-56 | no listing table leaves the catalog unchanged and fails; otherwise the new catalog and outcome are those of `Absorb` on the old catalog |
| `LineApp.FundBot.ListNames` | line_app.py:143-145 | the list reply is `name + '\n'` over the catalog's keys in insertion order |
| `LineApp.FundBot.HandleMessage` | line_app.py:137-159 | `基金列表` is tested before catalog membership and reloads and lists the catalog; a known name fetches exactly `('2020', '02', map[name])` and replies with `RuleItems`, leaving the catalog alone; anything else replies `請輸入正確指令` with no fetch and no change |

## Left out

- Webhook routes, signature check and `abort(400)` (lines 109-130): web and SDK plumbing outside the modelled logic.
- LINE reply calls and the unused `TextSendMessage` of line 155: the reply is modelled only as the returned text.
- HTTP requests, the user-agent header, BeautifulSoup selection and `pd.read_html` (lines 43-48, 61-71): foreign library calls. Their results are inputs: `Option<seq<Link>>` and `fetch`.
- `print` calls (lines 62, 151), environment variables and `app.run()`: I/O.
- Floating point: returns are `int`. `astype(float)` on text is the parameter `parse`, and float printing is the parameter `Format`.
- Tie order: pandas' unstable sort does not fix which of several equal-return rows survives a cut, nor how equal-return survivors are listed. `Screening.SortDescending` picks one admissible order. The length, sub-multiset, dominance and descending-order properties hold for every admissible order. `LineApp.ReplyListsScreenedRows` names the model's own surviving rows, so among ties its line order is that one choice. `Screening.TopHalfOfStrictlyDescending` and `Screening.FourFundScenario` have no ties.
- Duplicate column headings: pandas would return several columns; the model takes the first column with the heading.
- Ragged rows: pandas pads short rows with empty cells. The model reads a cell past a row's end as the filled-in 0.
- The reindexing by `reset_index` has no counterpart: Dafny sequences are always numbered from zero.
- `ascending=['True']` (lines 95-97) passes a string inside a list; the model reads it as pandas releases of that period did, as a truthy ascending flag. Releases that insist on a bool there would raise `ValueError` at that point on every fund reply, which the model does not capture.
- `TextLines.SplitLines` and `TextLines.NewlineIndex` have no counterpart in the code: they only read a reply back, to state what the reply contains.
- Concurrency: each message is modelled as handled on its own, one after another. `app.run()` (line 168) starts Flask's development server, which can run requests in threads. Two `handle_message` calls could then interleave on `fund_map_dict`. For instance, the loop of line 144 would raise `RuntimeError` if another thread's line 56 added a key while it ran. The model does not capture such interleavings.
