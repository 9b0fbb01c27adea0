# DNS Benchmark Tool: run-and-rank core in Dafny

The tool keeps a registry of DNS servers, connects to each one on port 53,
records how long each connection took, and names the fastest. It then draws a
bar chart and can export a PDF summary. This project models the logic behind
those steps as pure functions over an ordered registry and a sequence of
probe outcomes. The logic comes out of the Tk callbacks in `main.py`.

- `wrappers.dfy` (`Wrappers`): `Option`.
- `text.dfy` (`Text`): Python's `str.strip()` and the whitespace set of
  `str.isspace()`. Also the decimal rendering of a latency that was rounded to
  two places, with a parser that reads it back.
- `servers.dfy` (`Servers`): the registry. It is a sequence of
  `Entry(name, address)` with distinct names, which is how an insertion-ordered
  Python dict behaves. It covers the built-in defaults, `Put`
  (`dict[name] = address`), its map view, and the "Add" action.
- `analyzer.dfy` (`Analyzer`): one analysis run. The probe is an oracle. The
  run receives one `Option<nat>` per registry entry: `Some(h)` means the
  connection took `h` hundredths of a millisecond (`measure_latency` rounds to
  two places, main.py:92), and `None` means it failed or timed out. The scan records one row
  per entry. It keeps a running best with a strict `<`, so the earliest
  minimum in registry order wins.
- `graph.dfy` (`Graph`): the bar chart. Timeouts are drawn with length 0, and
  every bar at the numeric minimum is highlighted.
- `export.dfy` (`Export`): the summary lines and the y-cursor pagination of
  the PDF export.

Behaviour of main.py worth knowing:

- The servers are probed one after another on a single worker thread
  (main.py:264, 277-279).
- Ranking uses the latency after `round(_, 2)` (main.py:92). Two servers whose
  rounded latencies are equal are a tie, and the earlier one wins.
- A latency is printed with Python's `str` of the rounded float (main.py:359).
  The result is `12.35`, `12.5` or `12.0`, not always two decimal places.
- Only names are unique (main.py:256-257). Adding an address that a default
  already uses creates a second entry, `Custom-<address>`.

## Model

| member | source | states |
|---|---|---|
| Text.Strip | main.py:254 | The stripped text is a contiguous slice of the input, and everything cut from either end is whitespace. It is empty exactly when the input is all whitespace. Otherwise it neither starts nor ends with whitespace. |
| Text.StripSurrounded | main.py:254 | Stripping removes exactly the surrounding whitespace: blanks around a core whose ends are not blank give back that core. |
| Text.StripIdempotent | main.py:254 | Stripping an already stripped address changes nothing. |
| Text.HundredthsRoundTrip | main.py:359 | The printed form of a latency, rounded to two places, can be parsed back to the same number of hundredths. |
| Text.Hundredths | main.py:92 | Renders `h` hundredths the way Python prints `round(_, 2)`: the text contains a decimal point, and it ends in `0` only for a whole number of milliseconds (`12.0`). A trailing zero is dropped otherwise (`12.5`). |
| Text.HundredthsExamples | main.py:359 | 1235, 1250, 1200 and 5 hundredths print as `12.35`, `12.5`, `12.0` and `0.05`. |
| Text.HundredthsInjective | main.py:359 | Two different latencies never print as the same text. |
| Servers.Defaults | main.py:15-20 | The four built-in servers have distinct names and non-empty addresses, so they form a well-formed registry. |
| Servers.Put | main.py:257 | Writing a name that is already present keeps the order of names. A new name is appended at the end. Every entry with that name now holds the new address. Every other entry is unchanged and in the same place. Distinct names and non-empty addresses are preserved. |
| Servers.PutIsMapUpdate | main.py:257 | Read as a name-to-address map, the write is a map update: last write wins. |
| Servers.PutKeepsOrder | main.py:257 | The write never moves or drops an existing name. |
| Servers.AddCustom | main.py:253-261 | The input is rejected exactly when it is all whitespace, and a rejected input leaves the registry unchanged. On success, the entry holds the stripped, non-empty address under the name `Custom-<address>`. The registry stays well-formed. |
| Servers.AddCustomUpdatesMap | main.py:254-257 | A successful add changes the map view only at `Custom-<address>`, which now maps to the address. Existing names keep their order. |
| Servers.AddStripsExample | main.py:254-256 | `" 9.9.9.9 "` is registered as `9.9.9.9` under the name `Custom-9.9.9.9`. |
| Servers.AddBlankRejected | main.py:254-261 | An empty input and a blank input are both refused, and the registry is unchanged. |
| Analyzer.Step | main.py:280-288 | One loop iteration appends exactly the row for this entry. The best changes only to this entry, and only when it answered. The best latency never increases, and it is at most the new answer. An answer equal to the current best leaves the best unchanged (strict `<`). |
| Analyzer.Scan | main.py:277-291 | After the first `n` entries: there is one row per entry, in order. `best` is absent exactly when none of them answered. Otherwise it is the earliest entry holding the minimum latency. |
| Analyzer.Analyze | main.py:274-288 | There is one row per registry entry, in registry order, with that entry's name and address. A row holds the probe's latency exactly when the probe answered, and the timeout marker otherwise. `best` is absent exactly when nothing answered. Otherwise it is the earliest minimum, together with its latency. |
| Analyzer.FirstMinimumUnique | main.py:282-284 | At most one index is the earliest minimum, so the strict `<` scan picks a determined winner. |
| Analyzer.BestIsFirstMinimum | main.py:282-284 | When index `k` is the earliest minimum, the run's best is entry `k` with its latency. |
| Analyzer.EmptyRegistry | main.py:274-303 | An empty registry produces no rows and no best. This is the "no servers responded" outcome, not a failure. |
| Analyzer.DefaultsAllTimeOut | main.py:277-303 | When all four defaults time out, the run has four timeout rows and no best. |
| Analyzer.FastestWins | main.py:277-284 | With A at 50 ms, B at 30 ms and C timing out, the best is B and the rows stay in the order A, B, C. |
| Analyzer.TieGoesToEarlier | main.py:282-284 | When two servers have equal latencies, the earlier one is the best. |
| Graph.NumericMin | main.py:234 | The minimum over the numeric latencies is absent exactly when every row timed out. When present, it is attained by some row and is no larger than any numeric latency. |
| Graph.MinLatency | main.py:234 | `min(..., default=0)`: the result is 0 when every row timed out. Otherwise it is a latency some row has, and it is no larger than any numeric latency. |
| Graph.Redraw | main.py:230-240 | An empty result list draws nothing. Otherwise there is one bar per row, in order. A timeout bar has length 0 and is never highlighted. A bar is highlighted exactly when its latency is numeric and no other numeric latency is smaller. |
| Graph.HighlightedIffFastest | main.py:234-240 | In the chart of a run, a bar is highlighted exactly when its probe answered no slower than every other answer. |
| Graph.HighlightMatchesBest | main.py:234-240 | Some bar is highlighted exactly when the run has a best. The highlighted bars are exactly the entries whose latency equals the best latency, so tied minima are all highlighted. |
| Graph.BestIsFirstHighlighted | main.py:240 | The run's best is highlighted, and no bar before it is. |
| Export.LatencyText | main.py:359 | The latency column is `Timeout` exactly for a timed-out row. A numeric latency always ends in ` ms`. |
| Export.LineShape | main.py:359 | Every line starts with `<name> - <address> -> `. After the arrow comes `Timeout` exactly for a timed-out row, and the printed latency followed by ` ms` otherwise. |
| Export.LineExample | main.py:359 | A server `A` at `1.1.1.1` with 12.34 ms prints as `A - 1.1.1.1 -> 12.34 ms`, and with a timeout as `A - 1.1.1.1 -> Timeout`. |
| Export.LatencyTextRoundTrip | main.py:359 | The latency column of a line can be read back: `<number> ms` gives that latency, and `Timeout` gives the timeout marker. |
| Export.LineDeterminesLatency | main.py:359 | For the same server, two lines are equal only when their latencies are equal. In particular, a timeout never prints like a number. |
| Export.Layout | main.py:357-365 | Every line is drawn at a y between 100 and 800. On the first page, every line is below the title. |
| Export.LayoutNext | main.py:361-365 | The cursor update moves from the position of line `i` to the position of line `i + 1`. It moves down 20, or goes to a new page at 800 when it would drop below 100. |
| Export.LayoutOrdered | main.py:357-365 | A later line is on a later page, or lower on the same page. |
| Export.ExportSummary | main.py:357-365 | There is one line per result, in result order. Each line shows that row's name, address and latency text. It is drawn at the closed-form position of its index, so 100 ≤ y ≤ 800. |

## Left out

- `measure_latency` (main.py:86-94): socket connect and wall-clock timing. Probe outcomes are an input sequence of `Option<nat>` hundredths of a millisecond.
- `start_analysis` (main.py:263-264): the worker thread.
- Analyzer.Analyze: the model analyses a registry that does not change during the run. main.py does not take a snapshot: the loop at main.py:277 iterates the live `self.dns_servers` on the worker thread started at main.py:264, while the Tk thread can still run `add_custom_dns`. If an Add inserts a new name (main.py:257) during a run, the next loop step raises `RuntimeError` because the dictionary changed size. The run then ends with partial `self.results` and no best, and lines 293-303 never run. The progress bar and `update_idletasks` calls are UI.
- The status log text (`log_status` messages), the Treeview rows, message boxes and the "Fastest DNS" log line: presentation only.
- Themes (`THEMES`, `apply_theme`, `toggle_theme`), matplotlib drawing, the reportlab canvas (fonts, the title string, `showPage`, `save`) and the file dialog: presentation and file I/O. Pages and y positions are modelled; drawing is not.
- `is_admin`, `run_as_admin`, `change_dns_windows`, `change_dns_linux` and `prompt_dns_change`, including the `netsh` output scraping: privileged OS changes through subprocess, ctypes and file writes.
- Float rounding and measurement at full precision: latencies are whole hundredths from the start.
- Analyzer.Analyze: latencies are natural numbers. `measure_latency` times the connection with the wall clock (main.py:88, 91). If the clock steps back during a connect, the latency is negative. main.py keeps such a value: it wins the strict `<` at main.py:282 and is printed at main.py:359 (for example `-0.5 ms`). The `Option<nat>` oracle cannot represent it.
- Text.Hundredths: assumes `str(round(h / 100, 2)) == Hundredths(h)`. This holds while `h / 100` is below 2^46 ms (about 7.04 × 10^13 ms). Above that, a float cannot hold every hundredth: Python prints the float nearest 70368744177664.01 as `70368744177664.02`, while the model prints `70368744177664.01`.
