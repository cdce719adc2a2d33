# rustop core, modelled in Dafny

rustop is a terminal process monitor written in Rust. This project models
three small pieces of its logic and proves properties of them:

- **The application state machine** (`src/app.rs`). The `App` object holds the
  process rows, the optional sort column, the selected table row and the quit
  flag. `handle_key` maps a key to one of these effects: quit, set the sort
  column, or move the selection. `next_process` and `previous_process` move
  the selected row through the table and wrap around at both ends.
- **Column formatting** (`src/output.rs`). `truncate_string` cuts a string to
  a column width and appends an ellipsis. `format_memory` picks the unit
  (B, K, M, G, T) a memory size is shown in.
- **PID enumeration** (`src/processes.rs`). `get_pids` keeps the entries of
  the process listing directory whose names parse as `u32`. It keeps them in
  iteration order and fails on the first I/O error.

Modules:

- `Wrappers` (`wrappers.dfy`): `Option` and `Result`.
- `Model` (`model.dfy`): the record types of `src/model.rs`, plus `SortBy`.
  `src/app.rs:5` imports `SortBy` but `src/model.rs` does not define it. Its
  four variants are the ones `src/app.rs:33-36` uses.
- `App` (`app.dfy`): pure functions say what each transition computes. The
  class `App` performs the transitions in place, and its methods are proved
  against those functions.
- `Output` (`output.dfy`): strings are byte sequences, because `str::len`
  counts UTF-8 bytes.
- `Processes` (`processes.dfy`): the directory listing is an input value.

Choices made where the code is not explicit:

- In `handle_key`, the `Down` arm also lists `Char('j') | Char('J')`. The
  `Up` arm matches those keys first, so they never reach `Down`. Dafny
  rejects a repeated pattern as a dead branch, so the model writes the `Down`
  arm as `Down` alone. `App.Command` proves that only `Down` moves to the
  next row.
- `usize` subtractions that would underflow become `requires` clauses:
  `len - 1` in `next_process` whenever a row is selected, and in
  `previous_process` only when row 0 is selected.
- In `format_memory`, the loop divides an `f64` by 1024. The model uses
  integer floor division instead. This picks the same unit: every threshold
  the loop tests is at most 2^40, and `f64` represents integers exactly up
  to 2^53.
- `format_memory` is split at the byte count. `FormatMemory` handles the
  zero case and computes `kb * 1024`. `FormatBytes` holds the `"{}B"` branch
  and the unit loop. This keeps the `"{}B"` branch reachable inside its own
  member, and `FormatMemory` proves that a non-zero size never takes it.

## Model

| member | source | states |
|---|---|---|
| `App.Command` | src/app.rs:31-39 | `q` and Esc quit; `c`/`C`, `m`/`M`, `p`/`P`, `n`/`N` select the Cpu, Memory, Pid and Name columns; Up, `j` and `J` move to the previous row; exactly the Down key moves to the next row (the `j`/`J` of the Down arm are shadowed) |
| `App.NextSelection` | src/app.rs:43-55 | no selection becomes row 0; a row `i` inside the table becomes `(i + 1) mod len` (wrapping from the last row to 0); a stale row beyond the table becomes 0; with rows, the result is a row of the table |
| `App.PreviousSelection` | src/app.rs:57-69 | no selection becomes row 0; a row `i` inside the table becomes `(i + len - 1) mod len` (wrapping from row 0 to the last row); any row `i > 0` becomes `i - 1` |
| `App.App.constructor` | src/app.rs:18-28 | a new App has no rows, no sort column, no selection and is not quitting |
| `App.App.NextProcess` | src/app.rs:43-55 | the selection becomes `NextSelection` of the old one; rows, sort column and quit flag are unchanged |
| `App.App.PreviousProcess` | src/app.rs:57-69 | the selection becomes `PreviousSelection` of the old one; rows, sort column and quit flag are unchanged |
| `App.App.HandleKey` | src/app.rs:30-41 | the new state is the old one with the key's effect applied, as `App.Command` dispatches it |
| `App.QuitKeys` | src/app.rs:32 | `q` and Esc set the quit flag and change nothing else |
| `App.SortKeys` | src/app.rs:33-36 | each sort key, in either case, sets its sort column and changes nothing else |
| `App.NavigationKeys` | src/app.rs:37-38 | Down performs `next_process`; Up, `j` and `J` perform `previous_process`; only the selection changes |
| `App.UnboundKeys` | src/app.rs:39 | every other key leaves the whole state unchanged |
| `App.HandleKeyKeepsSelectionInRange` | src/app.rs:43-69 | with at least one row, every key can be handled, and a selection inside the table stays inside it |
| `App.NextThenPrevious` | src/app.rs:43-69 | for a row inside the table, moving next then previous returns to it, including across the wrap at the last row |
| `App.PreviousThenNext` | src/app.rs:43-69 | for a row inside the table, moving previous then next returns to it, including across the wrap at row 0 |
| `Output.SaturatingSub` | src/output.rs:64 | `saturating_sub` gives `a - b` when `a >= b` and 0 otherwise |
| `Output.TruncateString` | src/output.rs:60-66 | a string of at most `maxLen` bytes is returned unchanged; a longer one becomes a strict prefix of `max(maxLen, 1) - 1` bytes followed by the 3-byte ellipsis; the cut must be a character boundary, because slicing elsewhere panics |
| `Output.TruncateZeroWidth` | src/output.rs:64 | with width 0, a non-empty string becomes the ellipsis alone |
| `Output.TruncateFitsColumn` | src/output.rs:59-66 | the result has at most `max(maxLen, 1)` characters, so it fits the column it is cut for |
| `Output.TruncateStringPanicsInsideCharacter` | src/output.rs:64 | the valid UTF-8 string "abcdeféx" at the user column width 8 asks for a 7-byte cut inside the "é", so `truncate_string` panics on it |
| `Output.TruncateAtCharBoundary` | src/output.rs:60-66 | corrected truncation: total; keeps strings that fit; otherwise a strict prefix cut at the nearest character boundary at or below `max(maxLen, 1) - 1` bytes (no boundary lies between the cut and that limit), plus the ellipsis; equal to `truncate_string` wherever that does not panic |
| `Output.TruncateAtCharBoundaryFitsColumn` | src/output.rs:59-66 | the corrected truncation has at most `max(maxLen, 1)` characters |
| `Output.UnitFor` | src/output.rs:41-54 | the unit of a byte count is the largest of B, K, M, G, T of which there is at least one: `1024^k <= bytes`, and `bytes < 1024^(k+1)` unless `k` is T |
| `Output.FormatBytes` | src/output.rs:44-56 | below 1024 bytes the count is shown in B; otherwise the division loop stops at the unit `UnitFor` gives, with `bytes / 1024^k` as the scaled size, and the unit index never exceeds 4 |
| `Output.FormatMemory` | src/output.rs:35-57 | "0" exactly for zero KB; any other size (whose byte count fits in `u64`) gets the unit `UnitFor` picks for `kb * 1024` bytes, which is K, M, G or T and never B, and the scaled size `kb * 1024 / 1024^unit` rounded down, which is at least 1 and below 1024 unless the unit is T |
| `Output.ScaledRange` | src/output.rs:48-56 | for at least 1024 bytes, the unit index is at least 1 and the scaled size is at least 1, and below 1024 unless the unit is T |
| `Processes.ParseU32` | src/processes.rs:10 | `str::parse::<u32>` accepts only an optional `+` followed by at least one ASCII digit, with a value of at most 4294967295; it rejects the empty string, `+` alone and anything starting with `-` |
| `Processes.ParseDecimal` | src/processes.rs:10 | the decimal numeral of every `u32` parses back to it, with or without a leading `+` |
| `Processes.ParsedShape` | src/processes.rs:10 | every accepted name is the numeral of its value preceded by zero or more `0` digits and an optional `+` |
| `Processes.PaddedParses` | src/processes.rs:10 | the numeral of a `u32` preceded by any number of `0` digits, with or without a leading `+`, parses to that value |
| `Processes.ParseU32Accepts` | src/processes.rs:10 | `str::parse::<u32>` yields `n` exactly when `n <= 4294967295` and the name is the numeral of `n` after an optional `+` and zero or more `0` digits |
| `Processes.GetPids` | src/processes.rs:4-17 | the loop returns the error of opening the listing, else the error of the first failing entry, else the pids the entries name, in iteration order |
| `Processes.FirstErrorAt` | src/processes.rs:8 | the first entry that is an error decides the error returned, and no partial list is returned |
| `Processes.GetPidsFails` | src/processes.rs:7-8 | the call fails exactly when the listing cannot be opened or some entry is an error |
| `Processes.ParsedPidsAppend` | src/processes.rs:5-14 | pids of concatenated listings are the concatenated pids: iteration order is kept, with no sorting and no removal of duplicates |
| `Processes.ParsedPidsMembership` | src/processes.rs:9-12 | a pid is returned exactly when some readable entry has a valid UTF-8 name that parses to it; non-numeric and non-UTF-8 names and values above 4294967295 are skipped |
| `Processes.ParsedPidsBounded` | src/processes.rs:10-11 | every returned pid is at most 4294967295, and there are never more pids than entries |
| `Processes.ParsedPidsCount` | src/processes.rs:7-16 | the number of returned pids equals the number of entries whose names parse |

## Left out

- The stat-line parser, the tty device decoder, CPU-percent derivation, the periodic user-cache rebuild and snapshot assembly: no source for them exists in the repository files modelled.
- `display_processes` and `clear_screen` (src/output.rs:5-32): printing to stdout.
- The `{:.1}` float formatting in `format_memory` (src/output.rs:48, 56): the model keeps the unit and the scaled size rounded down, not the one-decimal text that is printed.
- `Output.FormatMemory`: the printed number is the scaled size rounded to one decimal, and that rounding can carry into the integer part. In M, G and T the text can then read 1024.0 (for example `kb = 1048575` prints "1024.0M", where the model gives `Scaled(1023, 'M')`). K values are whole numbers, so K is never affected. For byte counts of 2^53 or more, the `f64` conversion itself also rounds.
- `std::fs::read_dir("/proc")` (src/processes.rs:7): file-system I/O. Its result, the error of opening the directory or the items its iterator yields, is a parameter of `GetPids`.
- `src/tui.rs`: terminal rendering, event polling with a 50 ms timeout, and the refresh loop. `update_processes`, which that loop calls, is not part of this model.
- `src/main.rs`: wiring only. `get_process_info` is not part of this model.
- `users::UsersCache` and ratatui's `TableState`: foreign crates. The table selection is the field `selected: Option<nat>`.
- `refresh_count` and `last_refresh` (src/app.rs:11-12): no code reads or writes them after construction.
- `ProcessState`, `ProcessInfo` (src/model.rs): declared as datatypes only. `as_char` is not part of this model. `pid` is a `u64` in the source and a `nat` here, because no modelled operation does arithmetic on it.
- Compile defects in `src/app.rs` are ignored, and the intended behaviour is modelled: `Instant` is not imported (line 12), and the field `table_state` is misspelled in `new` (line 25).
- `App.App.HandleKey`, `App.App.NextProcess`, `App.App.PreviousProcess`: a debug build panics on the `usize` underflow of `len - 1`, and a release build wraps it. The model excludes that call by a `requires` instead of modelling the panic or the wrap.
- `Output.FormatMemory`: `kb * 1024` overflowing `u64` panics in a debug build. The model excludes it by a `requires`.

## Findings

| source | as written | input that shows it | evidently intended | confidence | as-written member | corrected member |
|---|---|---|---|---|---|---|
| src/output.rs:64 | `&s[..max_len.saturating_sub(1)]` slices at a byte offset that may fall inside a multi-byte UTF-8 character, and that slice panics | the user name "abcdeféx" (9 bytes, "é" is C3 A9) in the 8-wide user column of src/output.rs:20: the 7-byte cut ends on the continuation byte A9 | cut back to the nearest character boundary, so that any name can be shown truncated in its column | high; not executed | `Output.TruncateStringPanicsInsideCharacter` | `Output.TruncateAtCharBoundary` |
