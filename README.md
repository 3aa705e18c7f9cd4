# R6 Server Select, verified model

R6ServerSelect is a small desktop utility for Rainbow Six Siege. It probes
each region of a fixed table of game regions for latency, then waits two
seconds, forever. It shows each region's latency in a colour band and recommends the
fastest region on the "Auto (Default)" row. It can keep the rows sorted by
latency. It writes the region the player picks into the `[ONLINE]
DataCenterHint` entry of the game's `GameSettings.ini`.

This project models the logic underneath the window, in six modules:

- `Wrappers` (wrappers.dfy): the `Option` type.
- `Latency` (latency.dfy) covers:
  - the three kinds of text a probe produces (an em dash, `timeout`, `<n> ms`);
  - `parse_latency`, with its leftmost-digit-run search written out;
  - the four colour bands of `get_latency_color`.
- `Regions` (regions.dfy) holds the `SERVERS` table:
  - a `Server` value per key, in declaration order;
  - each key's name, hint code and host;
  - the first-match code lookup of `load_current_server`.
- `Ranking` (ranking.dfy) covers the two expressions of `update_ui`:
  - the `min` that picks the best region;
  - the `sorted` that orders the rows.

  It is written for any key type. `min` is the first minimum in key order, and `sorted` is a stable insertion sort. The module proves that the sort is the only stable sort by latency.

  The source takes its candidate names from the keys of `self.latencies` (R6ServerSelect.py:275, 289), while the model ranks `rows`. The two orders are the same: `latencies` is built from `SERVERS.keys()` (line 79), and every write at line 254 goes to a key that already exists, so the dictionary keeps declaration order.
- `Config` (config.dfy): the in-memory configuration (section to key to value), `str.strip`, and the update `save_choice` applies.
- `App` (app.dfy): class `ServerSelect`, the window's state and the methods that change it:
  - the fields:
    - the latency dictionary;
    - `current_order`;
    - `selected_server`;
    - the auto-sort flag;
    - the file path;
    - the text and colour of every row's labels;
  - the methods: one probe tick, `update_ui`, `select_server`, `load_current_server` and `save_choice`.

  Its invariant `Valid` states four things:
  - every region has a row, with Auto first;
  - every region has a latency, and Auto's is 9999;
  - the row order is a rearrangement of the rows;
  - every row shows a ping text.

Things that are inputs rather than part of the model:
- The ICMP probe's answer is a parameter `reply: Reply` with three cases:
  - `Answered(ms)`: a delay, truncated to whole milliseconds;
  - `NoAnswer`: ping3 returned `None`, or raised;
  - `Failed`: ping3 returned `False`, which it does for a host it cannot resolve.

  The source tests only for `None` (line 37). A `False` therefore goes through `int(delay * 1000)` and is shown as `0 ms`, stored as 0 and coloured green. It is ranked best whenever every other region reads above 0 ms. `PingAsWritten` models this; see "## Findings". `ProbeTick` uses the intended reading, in which a failed probe is a timeout.
- The existence check on a path and the result of reading the file are parameters: `isFile`, and an `Option<Ini>` that is `None` when reading raised.

The regions are an enumeration. Their display names, the keys of `SERVERS`,
are given by `Name`, which `NamesDistinct` proves injective. The colours are
an enumeration too, and `Hex` gives the value the toolkit receives.

Three facts about the code that the model keeps:
- A probe loop is started for every key, Auto included (R6ServerSelect.py:160-161). For Auto, `ping(None)` yields the em dash, so its latency stays 9999; `ProbeTick` states this.
- `save_choice` writes the code of whatever row is selected (line 223). Clicking the Auto row and saving writes `default`, and `SaveChoice` allows this.
- Real measurements stay below 9999 only because of the one-second probe timeout (line 36). A measurement of 9999 ms or more would be coloured and ranked like an unreachable region.

## Model

| member | source | states |
|---|---|---|
| Regions.Position | R6ServerSelect.py:12-27 | every region has a position in the table, and the entry at that position is the region |
| Regions.ServersListed | R6ServerSelect.py:12-27 | the table has 14 entries, Auto (Default) comes first, and every region is listed |
| Regions.ServersDistinct | R6ServerSelect.py:12-27 | no region is listed twice |
| Regions.NamesDistinct | R6ServerSelect.py:12-27 | two regions with the same display name are the same region |
| Regions.CodesDistinct | R6ServerSelect.py:13-26 | two regions with the same DataCenterHint code are the same region |
| Regions.Host | R6ServerSelect.py:13-26 | a region has no host exactly when it is Auto, so Auto is the only region whose probe shows the em dash |
| Regions.Name | R6ServerSelect.py:12-27 | every display name is non-empty, so the truth test on a best region's name (line 279) fails only when there is none |
| Regions.Code | R6ServerSelect.py:13-26 | every DataCenterHint code is non-empty; `CodesDistinct` and `App.CodesHaveNoSpace` state the rest of what the codes promise |
| Regions.Everywhere | R6ServerSelect.py:79 | the dictionary built over the keys of SERVERS maps every region to the given value |
| Regions.FindCode | R6ServerSelect.py:198-201 | the scan from a position finds the first region, in table order, whose code equals the hint, and no earlier one; when it finds none, no region from there on has that code |
| Regions.NotFoundAnywhere | R6ServerSelect.py:198-201 | when the whole scan finds nothing, no region has the hint as its code |
| Regions.ServerWithCode | R6ServerSelect.py:198-201 | the region found has the hint as its code; finding none means no region has it |
| Regions.CodeSelectsServer | R6ServerSelect.py:198-201 | looking up a region's own code finds that region |
| Latency.NatToString | R6ServerSelect.py:39 | the decimal text of n is non-empty and all digits, is exactly `0` for zero and has no leading zero otherwise, and reads back as n |
| Latency.Ping | R6ServerSelect.py:31-41 | the em dash exactly when there is no host, `timeout` exactly when a host did not answer, otherwise the measured milliseconds followed by ` ms` |
| Latency.FirstDigit | R6ServerSelect.py:47 | the position of the first digit at or after a start, with no digit before it |
| Latency.RunEnd | R6ServerSelect.py:47 | the end of the maximal run of digits starting at a position |
| Latency.ParseLatency | R6ServerSelect.py:43-48 | 9999 for None, the em dash and `timeout`, and for a text without digits; otherwise the value of the leftmost maximal run of digits (what `re.search(r"(\d+)")` matches) |
| Latency.FirstDigitRunUnique | R6ServerSelect.py:47 | the scan's run is a leftmost maximal digit run, and the only one |
| Latency.FirstDigitRunExists | R6ServerSelect.py:47-48 | a text holding a digit has a leftmost maximal digit run |
| Latency.ParseFormatted | R6ServerSelect.py:39-48 | parsing `<n> ms` gives back n |
| Latency.PingThenParse | R6ServerSelect.py:31-48 | a probe followed by parsing yields the measured milliseconds when there is a host and an answer, and 9999 otherwise |
| Latency.Measured | R6ServerSelect.py:36-41 | a probe reply measures milliseconds exactly when the host answered, and then measures the delay it answered with |
| Latency.PingAsWritten | R6ServerSelect.py:31-41 | what the program shows for a probe: the same text as the intended `ping` whenever there is no host or the probe did not fail; a failed probe of a host shows as `0 ms` |
| Latency.FailedProbeReadsAsZero | R6ServerSelect.py:36-48 | as written, a failed probe parses to 0 ms and is coloured green; read as a timeout, it parses to 9999 and is coloured gray |
| Latency.Hex | R6ServerSelect.py:50-59 | every colour except gray and white is passed to the toolkit as a seven-character `#RRGGBB` code; gray and white are passed by name |
| Latency.LatencyColor | R6ServerSelect.py:50-59 | green exactly up to 50, amber exactly from 51 to 100, red exactly from 101 to 9998, gray exactly from 9999 up; the four bands are disjoint and cover every integer |
| Ranking.Key | R6ServerSelect.py:241 | the latency a name is ranked and coloured by: its stored value, or 9999 when the dictionary has no entry for it |
| Ranking.Others | R6ServerSelect.py:275 | the names a ranking chooses among are exactly the names other than Auto |
| Ranking.OthersOfAutoFirst | R6ServerSelect.py:289 | with Auto first and only there, the names other than Auto are the rest of the keys in their order |
| Ranking.ServersAutoFirst | R6ServerSelect.py:12-27 | the table starts with Auto and holds it only there |
| Ranking.FirstMinimum | R6ServerSelect.py:274-278 | absent only for an empty list; otherwise the position of an element of least latency that has every earlier element strictly slower |
| Ranking.BestServer | R6ServerSelect.py:274-278 | absent exactly when there is no name other than Auto; otherwise a name of the keys other than Auto, with no candidate faster; `BestServerSpec` adds the tie-break and restates existence over the keys |
| Ranking.BestServerSpec | R6ServerSelect.py:274-278 | a best region exists exactly when some name other than Auto exists; it is such a name; no such name is faster; on a tie it comes first in key order |
| Ranking.FastestIsBest | R6ServerSelect.py:274-278 | a candidate strictly faster than every other is the best server |
| Ranking.ZeroIsBest | R6ServerSelect.py:274-278 | a candidate at 0 ms, with every other candidate slower, is the best server |
| Ranking.SlowerNotBest | R6ServerSelect.py:274-278 | a name slower than some candidate is never the best server |
| Ranking.SortByLatency | R6ServerSelect.py:288-291 | the sort result is a permutation of its input and non-decreasing in latency |
| Ranking.InsertSorted | R6ServerSelect.py:288-291 | inserting into a sorted list keeps it sorted |
| Ranking.SortStable | R6ServerSelect.py:288-291 | names of equal latency keep their input order |
| Ranking.StableSortIsUnique | R6ServerSelect.py:288-291 | two sorted lists that agree on the order of every latency's names are equal |
| Ranking.SortByLatencyIsTheStableSort | R6ServerSelect.py:288-291 | any sorted, stable rearrangement of the names is this sort's result, so it matches Python's `sorted` |
| Ranking.AutoSortOrder | R6ServerSelect.py:288-291 | Auto first, then the other names, a permutation of them, in non-decreasing latency |
| Ranking.AutoSortPermutes | R6ServerSelect.py:288-291 | with Auto first and only there, the auto-sort order is a permutation of all the keys |
| Ranking.AutoSortOrderStable | R6ServerSelect.py:288-291 | after Auto, equal latencies keep declaration order |
| Ranking.SortedHeadIsFirstMinimum | R6ServerSelect.py:274-291 | the first name of the stable sort is the first name of least latency |
| Ranking.BestServerLeadsAutoSort | R6ServerSelect.py:274-291 | the region named on the Auto row is the one auto-sort places right below Auto |
| Ranking.TargetOrder | R6ServerSelect.py:287-308 | the target row order starts with Auto and is a permutation of the keys; with auto-sort off it is the declared order |
| Config.TrimLeft | R6ServerSelect.py:197 | drops exactly the leading whitespace |
| Config.TrimRight | R6ServerSelect.py:197 | drops exactly the trailing whitespace |
| Config.Strip | R6ServerSelect.py:197 | the result neither starts nor ends with whitespace, and a text without whitespace is left unchanged |
| Config.StripKeepsMiddle | R6ServerSelect.py:197 | the result is exactly the part of the text between its leading whitespace and its trailing whitespace |
| Config.StoredHint | R6ServerSelect.py:196-197 | a hint is read exactly when the ONLINE section has a DataCenterHint; the hint read neither starts nor ends with whitespace; `HintReadsBack` and `App.ConfiguredServer` state how it is used |
| Config.SetHint | R6ServerSelect.py:219-223 | the ONLINE section exists afterwards and its DataCenterHint is the code; every other section and every other ONLINE key is unchanged, and no other key is added |
| Config.HintReadsBack | R6ServerSelect.py:196-223 | a code without whitespace that is saved into a configuration reads back unchanged |
| App.ConfiguredServer | R6ServerSelect.py:196-201 | a region is selected on load only if the stripped hint equals its code; none is selected when the file, the section or the key is missing, or when no region has that code |
| App.CodesHaveNoSpace | R6ServerSelect.py:13-26 | no region code holds whitespace, so stripping leaves every code intact |
| App.SaveLoadRoundTrip | R6ServerSelect.py:196-223 | saving a region's code into any configuration and loading the result selects that same region |
| App.FailedRegionRankedBest | R6ServerSelect.py:274-278 | as written, a region whose probe failed becomes the best region shown on the Auto row whenever every other region reads above 0 ms |
| App.FailedRegionNotPreferred | R6ServerSelect.py:274-278 | with a failed probe read as a timeout, the failed region is never preferred over a region that answered |
| App.ResetRows | R6ServerSelect.py:238-242 | every row's name becomes white and its ping column takes its latency band's colour (9999 for a missing entry); colours of anything that is not a row are unchanged |
| App.CreateRows | R6ServerSelect.py:121-137 | the loop creates one row per key of SERVERS, in declaration order, each with a ping column showing an ellipsis; the rows hold every region, with Auto first and only there |
| App.ServerSelect.constructor | R6ServerSelect.py:71-137 | every region at 9999, the rows equal to the table in declared order, nothing selected, no file, auto-sort on, every ping column showing an ellipsis; the invariant holds |
| App.ServerSelect.ProbeTick | R6ServerSelect.py:252-254 | one tick writes the parsed probe text under its own region and changes no other entry; the value stored is the measurement, or 9999 for Auto, a timeout and a failed probe |
| App.ServerSelect.SelectServer | R6ServerSelect.py:235-247 | the clicked region becomes the selection; its name and ping column are highlighted; every other row has a white name and its latency band's colour |
| App.ServerSelect.RefreshRow | R6ServerSelect.py:262-270 | the ticked row shows the new text; it takes its latency band's colour unless it is selected, in which case it keeps its highlight |
| App.ServerSelect.ShowBest | R6ServerSelect.py:273-284 | when a best region exists, the Auto row shows its name in its latency band's colour; otherwise nothing changes |
| App.ServerSelect.Reorder | R6ServerSelect.py:286-308 | the rows take the target order (auto-sort or declared), stay a permutation of all rows, and are repacked exactly when the order changes, so an unchanged state is left alone |
| App.ServerSelect.UpdateUi | R6ServerSelect.py:259-308 | the three steps in sequence: the row refresh, the Auto row showing the best region, the target order, and a repack exactly when the order changed |
| App.ServerSelect.LoadCurrentServer | R6ServerSelect.py:186-201 | selects the configured region with the same colours as a click; when the file is missing or unreadable, or there is no matching hint, the selection and colours are unchanged |
| App.ServerSelect.SaveChoice | R6ServerSelect.py:203-223 | the guards apply in order (a missing, empty or non-file path first, then no selection, then a failed read); otherwise the configuration read gets the selected region's code as its hint |

## Left out

- Widgets, layout, repacking and dialogs are not modelled. This covers `pack` and `pack_forget`, the `filedialog` and `messagebox` calls, the link opened by the bottom label and the window setup. Row colours and texts are maps from region to colour and to text. A repack is the boolean result of `Reorder`.
- Threads, `while True`, `time.sleep(2)` and `self.after(0, ...)` are not modelled. One probe tick is `ProbeTick`; the refresh it schedules is `UpdateUi`. Interleavings between the threads are not modelled.
- The `ping3` ICMP call is not modelled, because it is a foreign network call. Its answer is the parameter `reply`, with the delay already in whole milliseconds. The float multiplication and `int()` truncation are not modelled.
- App.ServerSelect.ProbeTick: reads a failed probe (`False`) as a timeout, stored as 9999. The program as written shows and stores it as 0 ms; `PingAsWritten` and the Findings row give that behaviour.
- `configparser` reading and writing the file are not modelled. Neither are its DEFAULT section, interpolation and case handling, nor a failed write. These are a library and file I/O. The configuration read is a parameter, and the written result is returned in `Saved`.
- `os.path.isfile` is not modelled; its answer is the parameter `isFile`.
- `browse_file` and the profile id shown for the path are not modelled. `iniFullPath` is a field that a caller sets.
- Latency.ParseLatency: `\d` is taken to be the ASCII digits 0-9. Python also counts other Unicode decimal digits, which a probe never produces.
- App.ServerSelect.SaveChoice: a selection of the empty string cannot occur, because the selection is a region. The source's `not self.selected_server` therefore reduces to "no selection".
- The `__main__` entry point and its traceback handling are not modelled.

## Findings

| source | as written | input that shows it | evidently intended | confidence | as-written member | corrected member |
|---|---|---|---|---|---|---|
| R6ServerSelect.py:36-39 | only a `None` delay is treated as a timeout; ping3's `False`, for a failed probe, goes through `int(delay * 1000)` | a region whose host cannot be resolved: ping3 returns `False`, the row shows `0 ms`, its latency is 0 and coloured green (`FailedProbeReadsAsZero`), and it is ranked best on the Auto row whenever every other region reads above 0 ms (`FailedRegionRankedBest`) | a failed probe reads as `timeout`, 9999, gray, and is never preferred over a region that answered (`FailedRegionNotPreferred`) | medium, not executed | Latency.PingAsWritten | Latency.Ping |
