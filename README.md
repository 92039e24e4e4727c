# Land-Ocean Temperature Index notebook: filter and display pipeline

A Dafny model of the core of a Jupyter notebook app that loads a yearly temperature table,
filters it by an inclusive year range typed by the user, shows the first rows of the result,
exports the result to `loti-download.csv`, and plots one column against the year column.

The source keeps its state in module-level attributes of `nb/model.py` and in the widgets of
`nb/view.py`. Here that state is two objects:

- `Model.Session` holds the attributes of `nb/model.py`: `data`, `headers`, `ymin`, `ymax`,
  `results` (absent until a filter succeeds), `resCount`, pandas' global `display.max_rows`
  option (`maxRows`) and the working directory as a set of file names (`dir`).
- `Controller.App` holds the widgets the handlers of `nb/controller.py` change: the results
  output area (`shown`), the export link area (`exportLink`), the plot dropdown (`plotDisabled`,
  `plotOptions`) and the plot area (`plot`), plus a reference to the session.

Python's `int(text)` is modelled in module `PyInt` (`ParseInt`) for ASCII text: surrounding
space, tab, line feed, vertical tab, form feed and carriage return are stripped (the separators
U+001C to U+001F are not, although `str.isspace()` holds for them), then an optional sign and
decimal digits with single underscores between them; on such text it yields `None` exactly
where Python raises `ValueError`. A raised exception is modelled as a `false`/`None`/`Raised` result,
and the state a handler leaves is the state at the point the exception was raised.

Names by intent: `nb/controller.py` calls `model.clear_selection_results`, `model.select_data`
and the widgets `view.select_txt_startyr`, `view.select_ddn_ndisp`, `view.select_out_export`,
`view.select_output`, but `nb/model.py` and `nb/view.py` define `clear_filter_results`,
`filter_data` and `filter_*` widgets. The model maps each call to the evidently intended
definition (`ClearFilterResults`, `FilterData`, and the `filter_*` widgets).

Behaviour the model keeps as the code has it:

- A bound that is not an integer is not reported to the user; `when_apply_select` swallows the
  exception and only the reset persists.
- Exporting with no result is a silent no-op, not an error.
- The page-size choice goes through `int()` unchecked; `DataFrame.head` with a negative limit
  drops rows from the end, and a zero limit makes `set_disp` raise (it then reads the row count
  of a missing `data` argument).
- After a failed filter the results area and the plot dropdown are not redrawn (see Findings).

## Model

| member | source | states |
|---|---|---|
| `PyInt.ParseDecimal` | nb/model.py:63 | `int()` accepts the decimal text of any integer, surrounded by any spaces, tabs, line feeds, vertical tabs, form feeds or carriage returns, and returns that integer |
| `PyInt.ParseRejectsLeading` | nb/model.py:63 | `int()` raises on text whose first character is not stripped and is neither a sign nor a digit, such as a bound led by U+001C |
| `PyInt.ParseRejectsDigitless` | nb/model.py:63 | `int()` raises on any text without a digit, such as the blank initial field or "All" |
| `PyInt.NatDigitsValue` | nb/controller.py:132 | the digit parser reads the canonical decimal text of a natural number back as that number |
| `PyInt.ParseNatDigits` | nb/controller.py:132 | `int(str(n))` is `n` for every natural `n` |
| `PyInt.ParseIntShape` | nb/model.py:63 | `int()` (`ParseInt`) succeeds only on text that, once surrounding whitespace is stripped, starts with a digit or a sign and ends with a digit, and yields a negative number only after a minus sign |
| `Model.MinYear` | nb/model.py:38 | `ymin` is at most every year of the data and is the year of some row |
| `Model.MaxYear` | nb/model.py:39 | `ymax` is at least every year of the data and is the year of some row |
| `Model.Session.constructor` | nb/model.py:20-25 | the module as imported: nothing loaded, no result, a count of 0, pandas' default row cap, and the working directory as given |
| `Model.Session.Start` | nb/model.py:30-39 | `headers` is the table's column list and `data` its rows; on a non-empty table the year bounds are set from the data; on an empty one `min()` raises after `data` and `headers` were assigned |
| `Model.InRange` | nb/model.py:63 | the boolean-mask selection is no longer than the data, and every row it keeps is a data row whose year lies in [from, to] |
| `Model.InRangeSelects` | nb/model.py:63 | the filter result is the data rows at a strictly increasing list of positions, and a position is on that list exactly when its year lies in [from, to]: in-range rows only, all of them, in data order |
| `Model.InRangeSound` | nb/model.py:63 | every result row is a data row whose year lies in [from, to] |
| `Model.InRangeReversed` | nb/model.py:63-64 | with from > to the result is empty, not an error |
| `Model.InRangeIdempotent` | nb/model.py:63 | filtering a result again with the same bounds gives the same result |
| `Model.Session.ClearFilterResults` | nb/model.py:55-58 | afterwards there is no result and the count is 0 |
| `Model.Session.FilterData` | nb/model.py:61-64 | succeeds exactly when both bounds convert; then the result is the in-range selection and the count is its length; otherwise nothing is assigned |
| `Model.MaxRowsDirective` | nb/model.py:44-49 | a missing or zero limit falls back to the data's row count (and raises without data); the row cap is limit + 1; pandas refuses a negative cap |
| `Model.Session.SetDisp` | nb/model.py:44-49 | installs the cap `MaxRowsDirective` gives, changes nothing when it raises, and keeps the session invariant |
| `Model.AfterDownload` | nb/model.py:73-84 | with the glob matching the entries that start with `loti-download.`, afterwards `loti-download.<ext>` exists, it is the only entry starting with `loti-download.`, and every other file is kept |
| `Model.DownloadIdempotent` | nb/model.py:77-84 | exporting twice leaves the same directory as exporting once |
| `Model.DownloadReplaces` | nb/model.py:77-84 | an export replaces an earlier one of any extension |
| `Model.Session.CreateDownloadFile` | nb/model.py:73-84 | deletes the matched files one by one, then adds `loti-download.<ext>` and returns that name; the new directory is `AfterDownload` of the old, and the session invariant holds throughout |
| `Controller.Head` | nb/controller.py:140 | the shown rows are a prefix of the result of length min(limit, count), or max(0, count + limit) for a negative limit |
| `Controller.PageLimit` | nb/controller.py:129-132 | "All" yields the result count; only another choice can raise or give a negative limit |
| `Controller.DisplayLimit` | nb/controller.py:128-136 | the page-size choice yields a usable limit exactly when its value is neither 0 nor below -1, and that limit is then the value |
| `Controller.PageChoicesAreDecimal` | nb/view.py:197 | the numeric dropdown choices are the decimal texts of 25, 50 and 100 |
| `Controller.PageChoicesUsable` | nb/controller.py:129-132 | "All" limits the window to the result count; the decimal text of a positive number limits it to that number |
| `Controller.PageChoiceLimits` | nb/view.py:197 | with a non-empty result the dropdown's choices yield the limits 25, 50, 100 and the result count |
| `Controller.EveryPageChoiceUsable` | nb/controller.py:126-136 | with a non-empty result no page-size choice the dropdown offers makes `refresh_select_output` raise |
| `Controller.WindowIsPrefix` | nb/controller.py:140 | the decimal text of a positive n shows the first min(n, count) result rows, and "All" shows the whole result |
| `Controller.PlotFieldsOmitPrimary` | nb/controller.py:144 | the options `[EMPTY] + headers[1:]` never offer the primary column, offer every other column, and nothing else |
| `Controller.IndexOf` | nb/controller.py:94 | finds the position of a column name, or reports that there is no such column |
| `Controller.PlotFor` | nb/controller.py:89-96 | a plot exists exactly when there is a result and the field is a column; it is labelled with the first header and the field, and both series have one point per result row |
| `Controller.PlotOffered` | nb/controller.py:89-96 | every offered field can be plotted: x label is the first header, y label the field, the x series is the year of each result row and the y series that row's cell of the field, in row order |
| `Controller.PlotUnknownField` | nb/controller.py:94 | a field that is not a column raises |
| `Controller.App.ResultArity` | nb/model.py:63 | every result row has one cell per column |
| `Controller.App.constructor` | nb/view.py:233 | the plot dropdown starts disabled with only the blank entry, and the output areas empty |
| `Controller.App.RefreshSelectOutput` | nb/controller.py:123-147 | with results: limit from the choice, cap limit + 1, the first rows shown, the dropdown enabled over the non-primary columns; without: "no data" and the dropdown disabled; when the limit raises nothing changes |
| `Controller.App.WhenNdispChanged` | nb/controller.py:77-82 | redraws as `RefreshSelectOutput` does and leaves the result and the count untouched |
| `Controller.App.WhenApplySelect` | nb/controller.py:66-74 | clears the export area and resets before filtering; a successful filter is redrawn; after a failed one there is no result, count 0, and the display is left as it was |
| `Controller.App.WhenApplySelectRefreshed` | nb/controller.py:66-74 | the corrected handler: the display and the dropdown always match the (possibly reset) result |
| `Controller.App.WhenFillResultsExport` | nb/controller.py:50-59 | with a non-empty result the directory becomes `AfterDownload(dir, "csv")` and the link names `loti-download.csv`; otherwise nothing changes |
| `Controller.App.WhenPlotTypeSelected` | nb/controller.py:85-104 | the blank entry draws nothing; any other field draws the chosen column against `headers[0]`, or raises when there is no result or no such column; the app invariant is kept |
| `Controller.StaleDropdownAfterFailedFilter` | nb/controller.py:66-74 | after a successful filter and then a failed one, the result is gone, the dropdown is still enabled, and plotting raises |
| `Controller.DropdownDisabledAfterFailedFilter` | nb/controller.py:66-74 | the same sequence with the corrected handler leaves the dropdown disabled and "no data" shown |

## Left out

- Reading the CSV with pandas (`escapechar='#'`): the loaded table is an input value; what the loader guarantees (a first column, distinct non-blank names, one cell per column) is the `WellFormed` precondition of `Start`.
- Writing the CSV (`to_csv` with non-numeric quoting): file contents are abstract, so the export/re-load round trip is not modelled; only which file names exist is.
- The `wide` branch and the `'0,.4f'` float format of `set_disp`: floating-point display formatting through a global pandas option.
- `iterate_data`: a wrapper over a pandas iterator.
- All of `nb/view.py` except the constants `ALL`, `EMPTY`, the page-size choices and the initial state of the plot dropdown: widget layout, HTML/CSS text and the logo file.
- `controller.start`, logging, traceback text, `FileLink` rendering and callback wiring: the handlers are modelled as methods that are only called on a loaded session, which is what the wiring after `model.start()` guarantees. `Session.Start` requires a session not yet loaded, since `start` runs once.
- `when_apply_plot_settings` and the Matplotlib drawing itself: a plot is recorded as its labels and series.
- Widget value changes caused by reassigning the dropdown options (ipywidgets may re-fire the plot handler) are not modelled.
- `PyInt.ParseInt`: only ASCII whitespace and ASCII digits are modelled; Python also accepts other Unicode whitespace and digits.
- `PyInt.ParseInt`: accepts digit text of any length; Python 3.11 and later raise `ValueError` above the interpreter's integer string conversion limit (4300 digits by default), a run-time setting outside this repository.
- `Model.MaxRowsDirective`: the refusal of a negative `display.max_rows` value follows pandas' option validation, which is outside this repository.

## Findings

| source | as written | input that shows it | evidently intended | confidence | as-written member | corrected member |
|---|---|---|---|---|---|---|
| nb/controller.py:66-74 | `refresh_select_output` runs only if the filter did not raise, so after a failed filter the results area keeps the previous rows and the plot dropdown stays enabled while `results` is `None`; choosing a field then raises in `plt.plot(model.results[...])` | filter "1990" to "1991", then filter "" (blank) to "1991", then choose a plot field | redraw after the reset as well, so "no data" is shown and the dropdown disabled | medium, not executed | `Controller.StaleDropdownAfterFailedFilter` (over `Controller.App.WhenApplySelect`) | `Controller.App.WhenApplySelectRefreshed`, checked by `Controller.DropdownDisabledAfterFailedFilter` |
