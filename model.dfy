/** The notebook's storage side (nb/model.py): the loaded dataset, the current result set of a
    year-range filter, the display row cap, and the download file in the working directory.
    The module-level attributes of the source become the fields of one `Session` object. */
module Model {
  import opened Wrappers
  import PyInt

  /** Base name of the export artifact. */
  const DownloadDataName := "loti-download"
  /** Every file whose name starts with this is a previous artifact. */
  const DownloadPrefix := DownloadDataName + "."
  /** pandas' initial value of the `display.max_rows` option. */
  const DefaultMaxRows := 60

  /** One data row: the primary (year) column and the remaining, opaque cells. */
  datatype Row<V> = Row(year: int, cells: seq<V>)

  /** The dataset as the loader hands it over: column names and rows. */
  datatype Table<V> = Table(headers: seq<string>, rows: seq<Row<V>>)

  /** The column names the CSV loader produces: a primary column exists, and names are
      non-empty and distinct (pandas renames blank and repeated ones). */
  predicate HeadersWellFormed(headers: seq<string>) {
    |headers| >= 1 &&
    (forall i, j :: 0 <= i < j < |headers| ==> headers[i] != headers[j]) &&
    (forall i :: 0 <= i < |headers| ==> headers[i] != "")
  }

  /** What the CSV loader guarantees: well-formed column names, and every row has one cell per
      column. */
  predicate WellFormed<V>(headers: seq<string>, rows: seq<Row<V>>) {
    HeadersWellFormed(headers) &&
    (forall k :: 0 <= k < |rows| ==> |rows[k].cells| == |headers| - 1)
  }

  /** `min(data[data.columns[0]])`. */
  function MinYear<V>(rows: seq<Row<V>>): (m: int)
    requires |rows| > 0
    ensures forall k :: 0 <= k < |rows| ==> m <= rows[k].year
    ensures exists k :: 0 <= k < |rows| && rows[k].year == m
  {
    if |rows| == 1 then rows[0].year
    else
      var rest := MinYear(rows[1..]);
      if rows[0].year <= rest then rows[0].year else rest
  }

  /** `max(data[data.columns[0]])`. */
  function MaxYear<V>(rows: seq<Row<V>>): (m: int)
    requires |rows| > 0
    ensures forall k :: 0 <= k < |rows| ==> rows[k].year <= m
    ensures exists k :: 0 <= k < |rows| && rows[k].year == m
  {
    if |rows| == 1 then rows[0].year
    else
      var rest := MaxYear(rows[1..]);
      if rows[0].year >= rest then rows[0].year else rest
  }

  predicate InBounds<V>(r: Row<V>, lo: int, hi: int) {
    lo <= r.year <= hi
  }

  /** The boolean-mask selection `data[(col >= lo) & (col <= hi)]`. */
  function InRange<V>(rows: seq<Row<V>>, lo: int, hi: int): (r: seq<Row<V>>)
    ensures |r| <= |rows|
    ensures forall x :: x in r ==> x in rows && InBounds(x, lo, hi)
  {
    if rows == [] then []
    else
      var rest := InRange(rows[1..], lo, hi);
      if InBounds(rows[0], lo, hi) then [rows[0]] + rest else rest
  }

  /** `r` is the rows of `rows` at the positions `idx`. */
  ghost predicate AtPositions<V>(r: seq<Row<V>>, rows: seq<Row<V>>, idx: seq<nat>) {
    |idx| == |r| && forall k :: 0 <= k < |idx| ==> idx[k] < |rows| && r[k] == rows[idx[k]]
  }

  ghost predicate Increasing(idx: seq<nat>) {
    forall k, l :: 0 <= k < l < |idx| ==> idx[k] < idx[l]
  }

  /** A position is in `idx` exactly when its row's year lies in [lo, hi]. */
  ghost predicate ExactlyInBounds<V>(rows: seq<Row<V>>, idx: seq<nat>, lo: int, hi: int) {
    forall i :: 0 <= i < |rows| ==> (i in idx <==> InBounds(rows[i], lo, hi))
  }

  /** `r` is the rows of `rows` at the strictly increasing positions `idx`, and those positions
      are exactly the in-range ones. */
  ghost predicate Selects<V>(r: seq<Row<V>>, rows: seq<Row<V>>, idx: seq<nat>, lo: int, hi: int) {
    AtPositions(r, rows, idx) && Increasing(idx) && ExactlyInBounds(rows, idx, lo, hi)
  }

  /** Positions in a tail, as positions in the whole sequence. */
  function Shift(idx: seq<nat>): (s: seq<nat>)
    ensures |s| == |idx| && forall k :: 0 <= k < |idx| ==> s[k] == idx[k] + 1
  {
    if idx == [] then [] else [idx[0] + 1] + Shift(idx[1..])
  }

  /** Membership in shifted positions. */
  lemma ShiftMember(idx: seq<nat>, i: nat)
    ensures i + 1 in Shift(idx) <==> i in idx
    ensures 0 !in Shift(idx)
  {
    var s := Shift(idx);
    if i + 1 in s {
      var k :| 0 <= k < |s| && s[k] == i + 1;
      assert idx[k] == i;
    }
    if i in idx {
      var k :| 0 <= k < |idx| && idx[k] == i;
      assert s[k] == i + 1;
    }
  }

  lemma ShiftAtPositions<V>(rows: seq<Row<V>>, rest: seq<Row<V>>, tail: seq<nat>)
    requires |rows| > 0 && AtPositions(rest, rows[1..], tail)
    ensures AtPositions(rest, rows, Shift(tail))
    ensures AtPositions([rows[0]] + rest, rows, [0] + Shift(tail))
  {
    var shifted := Shift(tail);
    forall k | 0 <= k < |shifted|
      ensures shifted[k] < |rows| && rest[k] == rows[shifted[k]]
    {
      assert rows[1..][tail[k]] == rows[tail[k] + 1];
    }
    var idx := [0] + shifted;
    var r := [rows[0]] + rest;
    forall k | 0 < k < |idx|
      ensures idx[k] < |rows| && r[k] == rows[idx[k]]
    {
      assert idx[k] == shifted[k - 1] && r[k] == rest[k - 1];
    }
  }

  lemma ShiftIncreasing(tail: seq<nat>)
    requires Increasing(tail)
    ensures Increasing(Shift(tail)) && Increasing([0] + Shift(tail))
  {
    var shifted := Shift(tail);
    var idx := [0] + shifted;
    forall k, l | 0 <= k < l < |idx|
      ensures idx[k] < idx[l]
    {
      assert idx[l] == tail[l - 1] + 1;
      if k > 0 {
        assert idx[k] == tail[k - 1] + 1;
      }
    }
  }

  lemma ShiftExactly<V>(rows: seq<Row<V>>, lo: int, hi: int, tail: seq<nat>)
    requires |rows| > 0 && ExactlyInBounds(rows[1..], tail, lo, hi)
    ensures ExactlyInBounds(rows, (if InBounds(rows[0], lo, hi) then [0] else []) + Shift(tail), lo, hi)
  {
    var shifted := Shift(tail);
    var idx := (if InBounds(rows[0], lo, hi) then [0] else []) + shifted;
    forall i | 0 <= i < |rows|
      ensures i in idx <==> InBounds(rows[i], lo, hi)
    {
      ShiftMember(tail, if i == 0 then 0 else i - 1);
      if i > 0 {
        assert i in idx <==> i in shifted;
        assert rows[1..][i - 1] == rows[i];
      }
    }
  }

  /** A selection from the tail, with the head row put in front when it is in range, is a
      selection from the whole sequence. */
  lemma SelectsCons<V>(rows: seq<Row<V>>, rest: seq<Row<V>>, tail: seq<nat>, lo: int, hi: int)
    requires |rows| > 0 && Selects(rest, rows[1..], tail, lo, hi)
    ensures Selects(if InBounds(rows[0], lo, hi) then [rows[0]] + rest else rest, rows,
                    (if InBounds(rows[0], lo, hi) then [0] else []) + Shift(tail), lo, hi)
  {
    ShiftAtPositions(rows, rest, tail);
    ShiftIncreasing(tail);
    ShiftExactly(rows, lo, hi, tail);
    if !InBounds(rows[0], lo, hi) {
      assert [] + Shift(tail) == Shift(tail);
    }
  }

  /** The filter selects exactly the in-range rows and keeps their order. */
  lemma {:induction false} InRangeSelects<V>(rows: seq<Row<V>>, lo: int, hi: int) returns (idx: seq<nat>)
    ensures Selects(InRange(rows, lo, hi), rows, idx, lo, hi)
  {
    if rows == [] {
      idx := [];
    } else {
      var tail := InRangeSelects(rows[1..], lo, hi);
      SelectsCons(rows, InRange(rows[1..], lo, hi), tail, lo, hi);
      idx := (if InBounds(rows[0], lo, hi) then [0] else []) + Shift(tail);
    }
  }

  /** Every selected row comes from the data and lies in the range. */
  lemma InRangeSound<V>(rows: seq<Row<V>>, lo: int, hi: int)
    ensures forall k :: 0 <= k < |InRange(rows, lo, hi)| ==>
      InRange(rows, lo, hi)[k] in rows && InBounds(InRange(rows, lo, hi)[k], lo, hi)
  {
    var idx := InRangeSelects(rows, lo, hi);
    forall k | 0 <= k < |idx|
      ensures InBounds(rows[idx[k]], lo, hi)
    {
      assert idx[k] in idx;
    }
  }

  /** A reversed range (`from > to`) selects nothing; it is not an error. */
  lemma {:induction false} InRangeReversed<V>(rows: seq<Row<V>>, lo: int, hi: int)
    requires lo > hi
    ensures InRange(rows, lo, hi) == []
  {
    if rows != [] {
      InRangeReversed(rows[1..], lo, hi);
    }
  }

  /** Filtering a result again with the same bounds changes nothing. */
  lemma {:induction false} InRangeIdempotent<V>(rows: seq<Row<V>>, lo: int, hi: int)
    ensures InRange(InRange(rows, lo, hi), lo, hi) == InRange(rows, lo, hi)
  {
    if rows != [] {
      InRangeIdempotent(rows[1..], lo, hi);
      var rest := InRange(rows[1..], lo, hi);
      if InBounds(rows[0], lo, hi) {
        assert ([rows[0]] + rest)[1..] == rest;
      }
    }
  }

  /** The `display.max_rows` value `set_disp` installs, or `None` where it raises. A missing or
      zero limit falls back to the row count of `data`, which raises when no data is passed;
      pandas refuses a negative option value. */
  function MaxRowsDirective(dataRows: Option<nat>, limit: Option<int>): (r: Option<int>)
    ensures r.Some? ==> r.value >= 0
    ensures limit.Some? && limit.value != 0 ==>
      r == if limit.value >= -1 then Some(limit.value + 1) else None
    ensures (limit.None? || limit.value == 0) ==>
      r == if dataRows.Some? then Some(dataRows.value + 1) else None
  {
    var effective: Option<int> :=
      if limit.Some? && limit.value != 0 then limit
      else if dataRows.Some? then Some(dataRows.value)
      else None;
    if effective.Some? && effective.value + 1 >= 0 then Some(effective.value + 1) else None
  }

  /** `loti-download.<ext>`. */
  function DownloadName(ext: string): string {
    DownloadPrefix + ext
  }

  /** The directory entries `glob('loti-download.*')` matches. */
  function Artifacts(dir: set<string>): set<string> {
    set n | n in dir && DownloadPrefix <= n
  }

  /** The directory after `create_download_file(_, ext)`: every earlier artifact removed, whatever
      its extension, the new one added, and every other file kept. */
  function AfterDownload(dir: set<string>, ext: string): (r: set<string>)
    ensures DownloadName(ext) in r
    ensures forall n :: n in r && DownloadPrefix <= n ==> n == DownloadName(ext)
    ensures forall n :: !(DownloadPrefix <= n) ==> (n in r <==> n in dir)
  {
    (dir - Artifacts(dir)) + {DownloadName(ext)}
  }

  /** Exporting twice with the same extension leaves the same directory as exporting once. */
  lemma DownloadIdempotent(dir: set<string>, ext: string)
    ensures AfterDownload(AfterDownload(dir, ext), ext) == AfterDownload(dir, ext)
  {
    var once := AfterDownload(dir, ext);
    var twice := AfterDownload(once, ext);
    forall n ensures n in twice <==> n in once {
      if DownloadPrefix <= n {
        assert n in once <==> n == DownloadName(ext);
      }
    }
  }

  /** A later export replaces an earlier one of any extension: only the last one matters. */
  lemma DownloadReplaces(dir: set<string>, first: string, second: string)
    ensures AfterDownload(AfterDownload(dir, first), second) == AfterDownload(dir, second)
  {
    var a := AfterDownload(AfterDownload(dir, first), second);
    var b := AfterDownload(dir, second);
    forall n ensures n in a <==> n in b {
      if DownloadPrefix <= n {
        assert n in a <==> n == DownloadName(second);
      }
    }
  }

  /** Count of a result set that may be absent. */
  function ResultCount<V>(results: Option<seq<Row<V>>>): nat {
    if results.Some? then |results.value| else 0
  }

  /** The module state of nb/model.py for one session. `loaded` records that `start` completed;
      `maxRows` is pandas' global `display.max_rows` option; `dir` is the set of file names in the
      working directory, with file contents left abstract. */
  class Session<V> {
    var loaded: bool
    var data: seq<Row<V>>
    var headers: seq<string>
    var ymin: int
    var ymax: int
    var results: Option<seq<Row<V>>>
    var resCount: int
    var maxRows: int
    var dir: set<string>

    ghost predicate Valid()
      reads this
    {
      (loaded ==> WellFormed(headers, data) && |data| > 0 &&
                  ymin == MinYear(data) && ymax == MaxYear(data)) &&
      resCount == ResultCount(results) &&
      (results.Some? ==>
         loaded && forall k :: 0 <= k < |results.value| ==> results.value[k] in data)
    }

    /** The module as imported: nothing loaded, `res_count = 0`, no results. */
    constructor (workingDir: set<string>)
      ensures Valid() && !loaded
      ensures data == [] && headers == []
      ensures results == None && resCount == 0
      ensures maxRows == DefaultMaxRows && dir == workingDir
    {
      loaded := false;
      data, headers := [], [];
      ymin, ymax := 0, 0;
      results, resCount := None, 0;
      maxRows := DefaultMaxRows;
      dir := workingDir;
    }

    /** `start`: takes the loaded table, derives the headers and the year bounds. On an empty
        table `min()` raises after `data` and `headers` were assigned; `ok` is false then. */
    method Start(t: Table<V>) returns (ok: bool)
      requires Valid() && !loaded
      requires WellFormed(t.headers, t.rows)
      modifies this`loaded, this`data, this`headers, this`ymin, this`ymax
      ensures Valid()
      ensures data == t.rows && headers == t.headers
      ensures ok == (|t.rows| > 0) && loaded == ok
      ensures ok ==> ymin == MinYear(t.rows) && ymax == MaxYear(t.rows)
      ensures !ok ==> ymin == old(ymin) && ymax == old(ymax)
    {
      data := t.rows;
      headers := t.headers;
      if |data| == 0 {
        return false;
      }
      ymin := MinYear(data);
      ymax := MaxYear(data);
      loaded := true;
      ok := true;
    }

    /** `set_disp(data, limit)`; `dataRows` is the row count of the `data` argument, if given. */
    method SetDisp(dataRows: Option<nat>, limit: Option<int>) returns (ok: bool)
      requires Valid()
      modifies this`maxRows
      ensures Valid()
      ensures ok == MaxRowsDirective(dataRows, limit).Some?
      ensures maxRows == if ok then MaxRowsDirective(dataRows, limit).value else old(maxRows)
    {
      var directive := MaxRowsDirective(dataRows, limit);
      ok := directive.Some?;
      if ok {
        maxRows := directive.value;
      }
    }

    /** `clear_filter_results`. */
    method ClearFilterResults()
      requires Valid()
      modifies this`results, this`resCount
      ensures Valid()
      ensures results == None && resCount == 0
    {
      results := None;
      resCount := 0;
    }

    /** `filter_data(from, to)`. Both bounds go through `int()` before anything is assigned, so
        when either raises (`ok` false) the result set and count stay as they were. */
    method FilterData(fromText: string, toText: string) returns (ok: bool)
      requires Valid() && loaded
      modifies this`results, this`resCount
      ensures Valid()
      ensures ok == (PyInt.ParseInt(fromText).Some? && PyInt.ParseInt(toText).Some?)
      ensures ok ==> results == Some(InRange(data, PyInt.ParseInt(fromText).value, PyInt.ParseInt(toText).value))
      ensures ok ==> resCount == |results.value|
      ensures !ok ==> results == old(results) && resCount == old(resCount)
    {
      var lo := PyInt.ParseInt(fromText);
      var hi := PyInt.ParseInt(toText);
      if lo.None? || hi.None? {
        return false;
      }
      var selected := InRange(data, lo.value, hi.value);
      InRangeSound(data, lo.value, hi.value);
      results := Some(selected);
      resCount := |selected|;
      ok := true;
    }

    /** `create_download_file(rows, ext)`: removes each file the glob matched, one at a time,
        then writes `loti-download.<ext>` and returns its name. What is written is not modelled. */
    method CreateDownloadFile(rows: seq<Row<V>>, ext: string) returns (filename: string)
      requires Valid()
      modifies this`dir
      ensures Valid()
      ensures filename == DownloadName(ext)
      ensures dir == AfterDownload(old(dir), ext)
    {
      var matches := set n | n in dir && DownloadPrefix <= n;
      ghost var before := dir;
      while matches != {}
        invariant matches <= Artifacts(before)
        invariant dir == before - (Artifacts(before) - matches)
        decreases |matches|
      {
        var f :| f in matches;
        dir := dir - {f};
        matches := matches - {f};
      }
      filename := DownloadName(ext);
      dir := dir + {filename};
    }
  }
}
