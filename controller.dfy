/** The notebook's event handlers (nb/controller.py) and the widget state they drive: the
    results output area, the export link area, the plot field dropdown and the plot area. */
module Controller {
  import opened Wrappers
  import PyInt
  import opened Model

  /** The page-size choice that means "every result row". */
  const All := "All"
  /** The blank first entry of the plot dropdown, meaning "no field chosen". */
  const Empty := ""
  /** The choices the page-size dropdown offers. */
  const PageChoices := ["25", "50", "100", All]

  /** What the results output area shows. */
  datatype Output<V> = Blank | NoData | Rows(rows: seq<Row<V>>)

  /** One value of a column: the primary (year) column or an opaque cell. */
  datatype Cell<V> = Key(year: int) | Value(v: V)

  /** A line plot of `ys` against `xs` with its axis labels. */
  datatype Plot<V> = Plot(xLabel: string, yLabel: string, xs: seq<int>, ys: seq<Cell<V>>)

  /** How the plot handler ended: guard not passed, plot drawn, or an exception raised. */
  datatype PlotOutcome = Skipped | Drawn | Raised

  function Min(a: int, b: int): int { if a <= b then a else b }
  function Max(a: int, b: int): int { if a >= b then a else b }

  /** `DataFrame.head(n)`: the first `n` rows; a negative `n` drops the last `-n` rows. */
  function Head<V>(rows: seq<Row<V>>, n: int): (r: seq<Row<V>>)
    ensures r <= rows
    ensures |r| == if n >= 0 then Min(n, |rows|) else Max(0, |rows| + n)
  {
    rows[..if n >= 0 then Min(n, |rows|) else Max(0, |rows| + n)]
  }

  /** The line limit `refresh_select_output` derives from the page-size choice, or `None` when
      `int()` raises on it. */
  function PageLimit(choice: string, count: nat): (r: Option<int>)
    ensures choice == All ==> r == Some(count)
    ensures r.None? ==> choice != All
    ensures r.Some? && r.value < 0 ==> choice != All
  {
    if choice == All then Some(count) else PyInt.ParseInt(choice)
  }

  /** The limit that reaches the display, or `None` when computing it or `set_disp` raises. */
  function DisplayLimit(choice: string, count: nat): (r: Option<int>)
    ensures r.Some? ==> r.value != 0 && r.value >= -1
    ensures r.Some? ==> PageLimit(choice, count) == r
    ensures var limit := PageLimit(choice, count);
      limit.Some? && limit.value != 0 && limit.value >= -1 ==> r == limit
  {
    var limit := PageLimit(choice, count);
    if limit.Some? && MaxRowsDirective(None, limit).Some? then limit else None
  }

  /** The numeric page-size choices are the decimal texts of 25, 50 and 100. */
  lemma PageChoicesAreDecimal()
    ensures PageChoices == [PyInt.NatDigits(25), PyInt.NatDigits(50), PyInt.NatDigits(100), All]
  {
    assert PyInt.NatDigits(25) == "25";
    assert PyInt.NatDigits(50) == "50";
    assert PyInt.NatDigits(100) == "100";
  }

  /** "All" limits the window to the result count, and the decimal text of any positive number
      (every other choice the page-size dropdown offers) to that number. */
  lemma PageChoicesUsable(count: nat, n: nat)
    requires count > 0 && n > 0
    ensures DisplayLimit(All, count) == Some(count)
    ensures DisplayLimit(PyInt.NatDigits(n), count) == Some(n)
  {
    PyInt.ParseNatDigits(n);
    assert PyInt.NatDigits(n) != All by {
      assert PyInt.IsDigit(PyInt.NatDigits(n)[0]);
    }
  }

  /** With a non-empty result, "All" yields the count and each numeric dropdown choice its own
      number. */
  lemma PageChoiceLimits(count: nat)
    requires count > 0
    ensures DisplayLimit(PageChoices[0], count) == Some(25)
    ensures DisplayLimit(PageChoices[1], count) == Some(50)
    ensures DisplayLimit(PageChoices[2], count) == Some(100)
    ensures DisplayLimit(PageChoices[3], count) == Some(count)
  {
    assert DisplayLimit(PageChoices[0], count) == Some(25) by {
      PageChoicesAreDecimal();
      PageChoicesUsable(count, 25);
    }
    assert DisplayLimit(PageChoices[1], count) == Some(50) by {
      PageChoicesAreDecimal();
      PageChoicesUsable(count, 50);
    }
    assert DisplayLimit(PageChoices[2], count) == Some(100) by {
      PageChoicesAreDecimal();
      PageChoicesUsable(count, 100);
    }
    PageChoicesUsable(count, 1);
  }

  /** With the real dropdown choices and a non-empty result, `refresh_select_output` never
      raises. */
  lemma EveryPageChoiceUsable(count: nat)
    requires count > 0
    ensures forall i :: 0 <= i < |PageChoices| ==> DisplayLimit(PageChoices[i], count).Some?
  {
    PageChoiceLimits(count);
    forall i | 0 <= i < |PageChoices|
      ensures DisplayLimit(PageChoices[i], count).Some?
    {
      assert i == 0 || i == 1 || i == 2 || i == 3;
    }
  }

  /** The decimal text of a positive number shows the first `min(n, count)` result rows, and
      "All" shows every row. */
  lemma WindowIsPrefix<V>(rows: seq<Row<V>>)
    requires |rows| > 0
    ensures DisplayLimit(All, |rows|).Some? && Head(rows, DisplayLimit(All, |rows|).value) == rows
    ensures forall n: nat :: n > 0 ==>
      DisplayLimit(PyInt.NatDigits(n), |rows|).Some? &&
      Head(rows, DisplayLimit(PyInt.NatDigits(n), |rows|).value) == rows[..Min(n, |rows|)]
  {
    PageChoicesUsable(|rows|, 1);
    forall n: nat | n > 0
      ensures DisplayLimit(PyInt.NatDigits(n), |rows|) == Some(n)
    {
      PageChoicesUsable(|rows|, n);
    }
  }

  /** The plot dropdown's options: the blank entry, then every column but the primary one. */
  function PlotFields(headers: seq<string>): seq<string>
    requires |headers| >= 1
  {
    [Empty] + headers[1..]
  }

  /** The primary column is never offered, and every other column is. */
  lemma PlotFieldsOmitPrimary(headers: seq<string>)
    requires HeadersWellFormed(headers)
    ensures headers[0] !in PlotFields(headers)
    ensures forall h :: h in headers && h != headers[0] ==> h in PlotFields(headers)
    ensures forall h :: h in PlotFields(headers) && h != Empty ==> h in headers && h != headers[0]
  {
    var r := PlotFields(headers);
    forall h | h in headers && h != headers[0]
      ensures h in r
    {
      var j :| 0 <= j < |headers| && headers[j] == h;
      assert r[j] == h;
    }
    forall h | h in r && h != Empty
      ensures h in headers && h != headers[0]
    {
      var j :| 0 <= j < |r| && r[j] == h;
      assert j > 0 && headers[j] == h;
    }
  }

  /** The position of column `h`, or `None` when there is no such column. */
  function IndexOf(headers: seq<string>, h: string): (r: Option<nat>)
    ensures r.Some? ==> r.value < |headers| && headers[r.value] == h
    ensures r.None? ==> h !in headers
  {
    if headers == [] then None
    else if headers[0] == h then Some(0)
    else
      var rest := IndexOf(headers[1..], h);
      if rest.Some? then Some(rest.value + 1) else None
  }

  /** Column `j` of a row, counting the primary column as 0. */
  function Field<V>(r: Row<V>, j: nat): Cell<V>
    requires j <= |r.cells|
  {
    if j == 0 then Key(r.year) else Value(r.cells[j - 1])
  }

  predicate HasArity<V>(rows: seq<Row<V>>, width: nat) {
    forall k :: 0 <= k < |rows| ==> |rows[k].cells| == width
  }

  /** `results[headers[0]]`: the primary column of the result. */
  function Years<V>(rows: seq<Row<V>>): seq<int> {
    seq(|rows|, k requires 0 <= k < |rows| => rows[k].year)
  }

  /** `results[field]` for the column at position `j`. */
  function Column<V>(rows: seq<Row<V>>, j: nat): seq<Cell<V>>
    requires forall k :: 0 <= k < |rows| ==> j <= |rows[k].cells|
  {
    seq(|rows|, k requires 0 <= k < |rows| => Field(rows[k], j))
  }

  /** The plot `when_plot_type_selected` draws for `field`, or `None` where it raises: indexing
      an absent result, or naming a column the result does not have. */
  function PlotFor<V>(results: Option<seq<Row<V>>>, headers: seq<string>, field: string): (p: Option<Plot<V>>)
    requires |headers| >= 1
    requires results.Some? ==> HasArity(results.value, |headers| - 1)
    ensures p.Some? <==> results.Some? && field in headers
    ensures p.Some? ==>
      p.value.xLabel == headers[0] && p.value.yLabel == field &&
      |p.value.xs| == |results.value| && |p.value.ys| == |results.value|
  {
    if results.None? then None
    else
      var j := IndexOf(headers, field);
      if j.None? then None
      else Some(Plot(headers[0], field, Years(results.value), Column(results.value, j.value)))
  }

  /** Every field the dropdown offers can be plotted against the years of a result: x is the
      primary column, y the chosen column, aligned row by row. */
  lemma PlotOffered<V>(headers: seq<string>, rows: seq<Row<V>>, field: string)
    requires HeadersWellFormed(headers) && HasArity(rows, |headers| - 1)
    requires field in PlotFields(headers) && field != Empty
    ensures var p := PlotFor(Some(rows), headers, field);
      p.Some? && p.value.xLabel == headers[0] && p.value.yLabel == field &&
      |p.value.xs| == |rows| && |p.value.ys| == |rows| &&
      exists j :: 1 <= j < |headers| && headers[j] == field &&
        forall k :: 0 <= k < |rows| ==>
          p.value.xs[k] == rows[k].year && p.value.ys[k] == Value(rows[k].cells[j - 1])
  {
    PlotFieldsOmitPrimary(headers);
    var j := IndexOf(headers, field).value;
    assert j != 0;
    var p := PlotFor(Some(rows), headers, field).value;
    forall k | 0 <= k < |rows|
      ensures p.xs[k] == rows[k].year && p.ys[k] == Value(rows[k].cells[j - 1])
    {
    }
  }

  /** A field that is not a column of the data cannot be plotted. */
  lemma PlotUnknownField<V>(results: Option<seq<Row<V>>>, headers: seq<string>, field: string)
    requires |headers| >= 1 && (results.Some? ==> HasArity(results.value, |headers| - 1))
    requires field !in headers
    ensures PlotFor(results, headers, field) == None
  {
  }

  /** The controller's view of the app: the model session and the widgets it updates. */
  class App<V> {
    const model: Session<V>
    var shown: Output<V>
    var exportLink: Option<string>
    var plotDisabled: bool
    var plotOptions: seq<string>
    var plot: Option<Plot<V>>

    ghost predicate Valid()
      reads this, model
    {
      model.Valid() && model.loaded &&
      (plotOptions == [Empty] || plotOptions == PlotFields(model.headers))
    }

    /** The plot dropdown is enabled only while there is a non-empty result. */
    ghost predicate PlotConsistent()
      reads this, model
    {
      !plotDisabled ==> model.resCount > 0
    }

    /** The rows of the current result, each one cell per column. */
    lemma ResultArity()
      requires Valid() && model.results.Some?
      ensures HasArity(model.results.value, |model.headers| - 1)
    {
      var rows := model.results.value;
      forall k | 0 <= k < |rows|
        ensures |rows[k].cells| == |model.headers| - 1
      {
        var i :| 0 <= i < |model.data| && model.data[i] == rows[k];
      }
    }

    /** The widgets as built, over a session whose `start` has completed: empty output areas,
        the plot dropdown disabled with only the blank entry. */
    constructor (session: Session<V>)
      requires session.Valid() && session.loaded
      ensures Valid() && PlotConsistent() && model == session
      ensures shown == Blank && exportLink == None && plot == None
      ensures plotDisabled && plotOptions == [Empty]
    {
      model := session;
      shown := Blank;
      exportLink := None;
      plotDisabled := true;
      plotOptions := [Empty];
      plot := None;
    }

    /** What `refresh_select_output(choice)` leaves: with results, the first `limit` rows, the row
        cap `limit + 1` and the plot dropdown enabled over the non-primary columns; without, the
        "no data" message and the dropdown disabled. When the limit cannot be computed or
        installed, nothing is changed. */
    twostate predicate Refreshed(choice: string)
      reads this, model
      requires Valid()
    {
      if model.resCount > 0 then
        var limit := DisplayLimit(choice, model.resCount);
        if limit.Some? then
          shown == Rows(Head(model.results.value, limit.value)) &&
          model.maxRows == limit.value + 1 &&
          !plotDisabled && plotOptions == PlotFields(model.headers)
        else
          shown == old(shown) && model.maxRows == old(model.maxRows) &&
          plotDisabled == old(plotDisabled) && plotOptions == old(plotOptions)
      else
        shown == NoData && plotDisabled &&
        plotOptions == old(plotOptions) && model.maxRows == old(model.maxRows)
    }

    /** `refresh_select_output`; `ok` is false when it raises. */
    method RefreshSelectOutput(choice: string) returns (ok: bool)
      requires Valid()
      modifies this`shown, this`plotDisabled, this`plotOptions, model`maxRows
      ensures Valid() && PlotConsistent() && Refreshed(choice)
      ensures ok == (model.resCount <= 0 || DisplayLimit(choice, model.resCount).Some?)
    {
      if model.resCount > 0 {
        var parsed := PageLimit(choice, model.resCount);
        if parsed.None? {
          return false;
        }
        var limit := parsed.value;
        ok := model.SetDisp(None, Some(limit));
        if !ok {
          return;
        }
        shown := Rows(Head(model.results.value, limit));
        plotDisabled := false;
        plotOptions := PlotFields(model.headers);
      } else {
        shown := NoData;
        plotDisabled := true;
        ok := true;
      }
    }

    /** `when_ndisp_changed`: only redraws; its exception is swallowed. */
    method WhenNdispChanged(choice: string)
      requires Valid()
      modifies this`shown, this`plotDisabled, this`plotOptions, model`maxRows
      ensures Valid() && PlotConsistent() && Refreshed(choice)
      ensures model.results == old(model.results) && model.resCount == old(model.resCount)
    {
      var _ := RefreshSelectOutput(choice);
    }

    /** `when_apply_select` as written: clears the export area, resets the result, filters, and
        redraws only when the filter did not raise. After a failed filter the result is gone but
        the output area and the plot dropdown are left as they were. */
    method WhenApplySelect(fromText: string, toText: string, choice: string)
      requires Valid()
      modifies this`shown, this`plotDisabled, this`plotOptions, this`exportLink
      modifies model`results, model`resCount, model`maxRows
      ensures Valid() && exportLink == None
      ensures var lo, hi := PyInt.ParseInt(fromText), PyInt.ParseInt(toText);
        if lo.Some? && hi.Some? then
          model.results == Some(InRange(model.data, lo.value, hi.value)) && Refreshed(choice)
        else
          model.results == None && model.resCount == 0 &&
          shown == old(shown) && plotDisabled == old(plotDisabled) &&
          plotOptions == old(plotOptions) && model.maxRows == old(model.maxRows)
    {
      exportLink := None;
      model.ClearFilterResults();
      var ok := model.FilterData(fromText, toText);
      if ok {
        var _ := RefreshSelectOutput(choice);
      }
    }

    /** `when_apply_select` with the redraw done also after a failed filter, so that the output
        area and the plot dropdown always agree with the (reset) result. */
    method WhenApplySelectRefreshed(fromText: string, toText: string, choice: string)
      requires Valid()
      modifies this`shown, this`plotDisabled, this`plotOptions, this`exportLink
      modifies model`results, model`resCount, model`maxRows
      ensures Valid() && PlotConsistent() && exportLink == None && Refreshed(choice)
      ensures var lo, hi := PyInt.ParseInt(fromText), PyInt.ParseInt(toText);
        model.results == if lo.Some? && hi.Some? then Some(InRange(model.data, lo.value, hi.value)) else None
      ensures model.resCount == ResultCount(model.results)
    {
      exportLink := None;
      model.ClearFilterResults();
      var ok := model.FilterData(fromText, toText);
      assert shown == old(shown) && plotDisabled == old(plotDisabled) &&
             plotOptions == old(plotOptions) && model.maxRows == old(model.maxRows);
      var _ := RefreshSelectOutput(choice);
    }

    /** `when_fill_results_export`: with a non-empty result, writes `loti-download.csv` and shows
        the link to it; otherwise nothing happens. */
    method WhenFillResultsExport()
      requires Valid()
      modifies this`exportLink, model`dir
      ensures Valid()
      ensures model.resCount > 0 ==>
        model.dir == AfterDownload(old(model.dir), "csv") && exportLink == Some(DownloadName("csv"))
      ensures model.resCount <= 0 ==> model.dir == old(model.dir) && exportLink == old(exportLink)
    {
      if model.resCount > 0 {
        var filename := model.CreateDownloadFile(model.results.value, "csv");
        exportLink := Some(filename);
      }
    }

    /** `when_plot_type_selected`: the blank entry draws nothing; any other field clears the plot
        area and draws results[field] against results[headers[0]], or raises. */
    method WhenPlotTypeSelected(field: string) returns (outcome: PlotOutcome)
      requires Valid()
      modifies this`plot
      ensures Valid()
      ensures field == Empty ==> outcome == Skipped && plot == old(plot)
      ensures field != Empty ==>
        model.results.Some? ==> HasArity(model.results.value, |model.headers| - 1)
      ensures field != Empty ==>
        plot == PlotFor(model.results, model.headers, field) &&
        outcome == if plot.Some? then Drawn else Raised
    {
      if field == Empty {
        return Skipped;
      }
      plot := None;
      if model.results.None? {
        return Raised;
      }
      ResultArity();
      var j := IndexOf(model.headers, field);
      if j.None? {
        return Raised;
      }
      var rows := model.results.value;
      plot := Some(Plot(model.headers[0], field, Years(rows), Column(rows, j.value)));
      outcome := Drawn;
    }
  }

  /** A session over a two-year dataset. */
  method TwoYearSession() returns (session: Session<real>)
    ensures fresh(session) && session.Valid() && session.loaded
    ensures session.headers == ["Year", "Anomaly"]
    ensures session.data == [Row(1990, [0.1]), Row(1991, [0.2])]
  {
    session := new Session<real>({});
    var t := Table(["Year", "Anomaly"], [Row(1990, [0.1]), Row(1991, [0.2])]);
    var loaded := session.Start(t);
  }

  /** The two-year dataset filtered with bounds that read as its two years: the plot dropdown
      is enabled. */
  method FilteredApp(fromText: string, toText: string) returns (app: App<real>)
    requires PyInt.ParseInt(fromText) == Some(1990) && PyInt.ParseInt(toText) == Some(1991)
    ensures fresh(app) && fresh(app.model)
    ensures app.Valid() && !app.plotDisabled && app.model.resCount == 2
    ensures app.model.headers == ["Year", "Anomaly"]
  {
    var session := TwoYearSession();
    app := new App(session);
    assert InRange(session.data, 1990, 1991) == session.data;
    PageChoicesUsable(2, 1);
    app.WhenApplySelect(fromText, toText, All);
  }

  /** After a successful filter, a filter with an unreadable bound resets the result but leaves
      the dropdown enabled, and choosing a field then raises. */
  method StaleDropdownAfterFailedFilter(fromText: string, toText: string, badText: string)
    returns (app: App<real>, outcome: PlotOutcome)
    requires PyInt.ParseInt(fromText) == Some(1990) && PyInt.ParseInt(toText) == Some(1991)
    requires PyInt.ParseInt(badText) == None
    ensures app.Valid() && app.model.results == None && !app.plotDisabled
    ensures outcome == Raised
  {
    app := FilteredApp(fromText, toText);
    app.WhenApplySelect(badText, toText, All);
    outcome := app.WhenPlotTypeSelected("Anomaly");
  }

  /** The same sequence with the corrected handler disables the dropdown. */
  method DropdownDisabledAfterFailedFilter(fromText: string, toText: string, badText: string)
    returns (app: App<real>)
    requires PyInt.ParseInt(fromText) == Some(1990) && PyInt.ParseInt(toText) == Some(1991)
    requires PyInt.ParseInt(badText) == None
    ensures app.Valid() && app.model.results == None && app.plotDisabled && app.shown == NoData
  {
    app := FilteredApp(fromText, toText);
    app.WhenApplySelectRefreshed(badText, toText, All);
  }

  /** The texts the exhibits need exist: the decimal years, and a blank field. */
  lemma ExhibitInputs()
    ensures PyInt.ParseInt(PyInt.NatDigits(1990)) == Some(1990)
    ensures PyInt.ParseInt(PyInt.NatDigits(1991)) == Some(1991)
    ensures PyInt.ParseInt("") == None
  {
    PyInt.ParseNatDigits(1990);
    PyInt.ParseNatDigits(1991);
    PyInt.ParseRejectsDigitless("");
  }
}
