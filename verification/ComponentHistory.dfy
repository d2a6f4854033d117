/** The component totals history: one row per reported day, rebuilt with today's totals and then filled up so that
    every day from the first row to today has an entry. */
module ComponentHistory {
  import opened Ledger

  datatype Row = Row(day: int, values: map<string, int>)

  datatype History = History(columns: set<string>, rows: seq<Row>)

  predicate Rectangular(h: History) {
    forall i :: 0 <= i < |h.rows| ==> h.rows[i].values.Keys == h.columns
  }

  function Days(rows: seq<Row>): (days: seq<int>)
    ensures |days| == |rows| && forall i :: 0 <= i < |days| ==> days[i] == rows[i].day
  {
    seq(|rows|, i requires 0 <= i < |rows| => rows[i].day)
  }

  function Column(rows: seq<Row>, name: string): (column: seq<int>)
    requires forall i :: 0 <= i < |rows| ==> name in rows[i].values
    ensures |column| == |rows| && forall i :: 0 <= i < |rows| ==> column[i] == rows[i].values[name]
  {
    seq(|rows|, i requires 0 <= i < |rows| => rows[i].values[name])
  }

  /** Rows kept from the stored history: an entry for today is dropped, as today's is computed afresh. */
  function Kept(rows: seq<Row>, today: int): (kept: seq<Row>)
    ensures kept <= rows
    ensures |kept| == if rows != [] && rows[|rows| - 1].day == today then |rows| - 1 else |rows|
  {
    if rows != [] && rows[|rows| - 1].day == today then rows[..|rows| - 1] else rows
  }

  function Widen(values: map<string, int>, columns: set<string>): map<string, int> {
    map name | name in columns :: if name in values then values[name] else 0
  }

  /** The rows with new columns, and today's row behind them. */
  ghost predicate Rebuilt(h: History, totals: map<string, int>, today: int, rebuilt: History) {
    var data, columns := Kept(h.rows, today), h.columns + totals.Keys;
    && rebuilt.columns == columns && |rebuilt.rows| == |data| + 1
    && rebuilt.rows[|data|] == Row(today, Widen(totals, columns))
    && forall i :: 0 <= i < |data| ==> rebuilt.rows[i] == Row(data[i].day, Widen(data[i].values, columns))
  }

  lemma RebuiltShape(h: History, totals: map<string, int>, today: int, rebuilt: History)
    requires Rectangular(h) && Rebuilt(h, totals, today, rebuilt)
    ensures Rectangular(rebuilt)
    ensures var last := rebuilt.rows[|rebuilt.rows| - 1];
            && last.day == today
            && forall name :: name in rebuilt.columns ==>
                 last.values[name] == if name in totals then totals[name] else 0
  {}

  lemma RebuiltCells(h: History, totals: map<string, int>, today: int, rebuilt: History, i: nat)
    requires Rectangular(h) && Rebuilt(h, totals, today, rebuilt) && i < |Kept(h.rows, today)|
    ensures rebuilt.rows[i].day == Kept(h.rows, today)[i].day == h.rows[i].day
    ensures rebuilt.rows[i].values.Keys == rebuilt.columns
    ensures forall name :: name in rebuilt.columns ==>
              rebuilt.rows[i].values[name] == if name in h.columns then h.rows[i].values[name] else 0
  {}

  lemma RebuiltOrder(h: History, totals: map<string, int>, today: int, rebuilt: History)
    requires Rectangular(h) && Rebuilt(h, totals, today, rebuilt)
    requires StrictlyIncreasing(Days(h.rows)) && forall i :: 0 <= i < |h.rows| ==> h.rows[i].day <= today
    ensures StrictlyIncreasing(Days(rebuilt.rows))
  {
    hide Widen;
    var days, stored := Days(rebuilt.rows), Days(h.rows);
    forall i, j | 0 <= i < j < |days| ensures days[i] < days[j] {
      assert days[i] == stored[i];
      if j < |days| - 1 { assert days[j] == stored[j]; } else { LastStored(h, today, i); }
    }
  }

  lemma LastStored(h: History, today: int, i: nat)
    requires StrictlyIncreasing(Days(h.rows)) && i < |Kept(h.rows, today)|
    requires forall k :: 0 <= k < |h.rows| ==> h.rows[k].day <= today
    ensures h.rows[i].day < today
  {
    var days := Days(h.rows);
    if i < |h.rows| - 1 { assert days[i] < days[|h.rows| - 1]; }
  }

  /** Rebuild the history with the columns of today's totals added and today's row at the end. */
  method RebuildHistory(h: History, totals: map<string, int>, today: int) returns (rebuilt: History)
    requires Rectangular(h)
    ensures Rectangular(rebuilt) && rebuilt.columns == h.columns + totals.Keys
    ensures |rebuilt.rows| == |Kept(h.rows, today)| + 1
    ensures forall i :: 0 <= i < |Kept(h.rows, today)| ==>
              && rebuilt.rows[i].day == Kept(h.rows, today)[i].day
              && forall name :: name in rebuilt.columns ==>
                   rebuilt.rows[i].values[name]
                   == if name in h.columns then Kept(h.rows, today)[i].values[name] else 0
    ensures forall i :: 0 <= i < |h.rows| && (i < |h.rows| - 1 || h.rows[i].day != today) ==>
              && i < |rebuilt.rows| - 1 && rebuilt.rows[i].day == h.rows[i].day
              && forall name :: name in rebuilt.columns ==>
                   rebuilt.rows[i].values[name] == if name in h.columns then h.rows[i].values[name] else 0
    ensures var last := rebuilt.rows[|rebuilt.rows| - 1];
            && last.day == today
            && forall name :: name in rebuilt.columns ==>
                 last.values[name] == if name in totals then totals[name] else 0
    ensures StrictlyIncreasing(Days(h.rows)) && (forall i :: 0 <= i < |h.rows| ==> h.rows[i].day <= today) ==>
              StrictlyIncreasing(Days(rebuilt.rows))
  {
    hide Widen, StrictlyIncreasing, Days;
    var data := Kept(h.rows, today);
    var columns := h.columns + totals.Keys;
    var rows: seq<Row> := [];
    for entry := 0 to |data|
      invariant |rows| == entry
      invariant forall i :: 0 <= i < entry ==> rows[i] == Row(data[i].day, Widen(data[i].values, columns))
    {
      rows := rows + [Row(data[entry].day, Widen(data[entry].values, columns))];
    }
    rows := rows + [Row(today, Widen(totals, columns))];
    rebuilt := History(columns, rows);
    RebuiltShape(h, totals, today, rebuilt);
    forall i | 0 <= i < |data|
      ensures rebuilt.rows[i].day == data[i].day == h.rows[i].day
      ensures rebuilt.rows[i].values.Keys == rebuilt.columns
      ensures forall name :: name in rebuilt.columns ==>
                rebuilt.rows[i].values[name] == if name in h.columns then h.rows[i].values[name] else 0
    {
      RebuiltCells(h, totals, today, rebuilt, i);
    }
    if StrictlyIncreasing(Days(h.rows)) && forall i :: 0 <= i < |h.rows| ==> h.rows[i].day <= today {
      RebuiltOrder(h, totals, today, rebuilt);
    }
  }

  /** The last row dated on or before a day. */
  function LatestRow(days: seq<int>, day: int): (row: nat)
    requires days != [] && days[0] <= day
    ensures row < |days| && days[row] <= day
    ensures forall i :: row < i < |days| ==> day < days[i]
  {
    if days[|days| - 1] <= day then |days| - 1 else LatestRow(days[..|days| - 1], day)
  }

  function Insert(s: seq<int>, at: nat, value: int): seq<int>
    requires at <= |s|
  {
    s[..at] + [value] + s[at..]
  }

  lemma InsertBetween(head: seq<int>, tail: seq<int>, value: int)
    ensures Insert(head + tail, |head|, value) == head + [value] + tail
  {}

  /** The cells of the chosen rows. */
  function Pick(column: seq<int>, owner: seq<int>): (cells: seq<int>)
    requires forall k :: 0 <= k < |owner| ==> 0 <= owner[k] < |column|
    ensures |cells| == |owner| && forall k :: 0 <= k < |owner| ==> cells[k] == column[owner[k]]
  {
    seq(|owner|, k requires 0 <= k < |owner| => column[owner[k]])
  }

  /** Filling is under way: the first |owner| days are consecutive, day k carries the row owner[k],
      and `used` rows have been passed, each in its place. */
  ghost predicate Filling(days: seq<int>, used: nat, owner: seq<int>) {
    && 1 <= used <= |days| && |owner| >= 1 && owner[|owner| - 1] == used - 1
    && StrictlyIncreasing(days[..used])
    && (forall k :: 0 <= k < |owner| ==>
          0 <= owner[k] < used && days[owner[k]] <= days[0] + k
          && (owner[k] + 1 < used ==> days[0] + k < days[owner[k] + 1]))
  }

  lemma FillingRepeats(days: seq<int>, used: nat, owner: seq<int>)
    requires Filling(days, used, owner)
    ensures Filling(days, used, owner + [used - 1])
  {}

  lemma FillingAdvances(days: seq<int>, used: nat, owner: seq<int>)
    requires Filling(days, used, owner) && used < |days| && days[used] == days[0] + |owner|
    ensures Filling(days, used + 1, owner + [used])
  {
    var used', owner' := used + 1, owner + [used];
    assert days[..used'][..used] == days[..used];
    assert days[used - 1] <= days[0] + |owner| - 1;
    forall i, j | 0 <= i < j < used' ensures days[i] < days[j] {
      assert i < used ==> days[..used][i] == days[i];
      assert i < used - 1 ==> days[..used][i] < days[..used][used - 1];
      if j < used { assert days[..used][i] < days[..used][j]; }
    }
    forall k | 0 <= k < |owner'|
      ensures 0 <= owner'[k] < used' && days[owner'[k]] <= days[0] + k
              && (owner'[k] + 1 < used' ==> days[0] + k < days[owner'[k] + 1])
    {}
  }

  /** When the days were strictly increasing up to today, the row a filled day carries is the latest one. */
  lemma FilledFromLatest(days: seq<int>, owner: seq<int>, k: nat)
    requires days != [] && Filling(days, |days|, owner) && k < |owner|
    ensures LatestRow(days, days[0] + k) == owner[k]
  {
    assert days[..|days|] == days;
    var latest := LatestRow(days, days[0] + k);
    assert forall i :: owner[k] < i < |days| ==> days[owner[k] + 1] <= days[i];
  }

  /** The columns as far as they are filled, followed by the rows not passed yet. */
  ghost predicate Laid(days: seq<int>, cells: map<string, seq<int>>, used: nat, owner: seq<int>,
                       dates: seq<int>, columns: map<string, seq<int>>)
  {
    && Filling(days, used, owner) && columns.Keys == cells.Keys
    && (forall name :: name in cells ==> |cells[name]| == |days|)
    && dates == DayRange(days[0], days[0] + |owner| - 1) + days[used..]
    && (forall name :: name in columns ==> columns[name] == Pick(cells[name], owner) + cells[name][used..])
  }

  /** The loop invariant: filled up to a day not after today unless nothing was filled, rows left while the loop
      runs. */
  ghost predicate InProgress(days: seq<int>, cells: map<string, seq<int>>, used: nat, owner: seq<int>,
                             dates: seq<int>, columns: map<string, seq<int>>, today: int)
  {
    && Laid(days, cells, used, owner, dates, columns) && days[|days| - 1] == today
    && (used == |days| ==> today < days[0] + |owner|)
    && (|owner| == 1 || days[0] + |owner| <= today + 1)
    && (StrictlyIncreasing(days) && used < |days| ==> days[0] + |owner| <= days[used])
  }

  lemma FillStart(days: seq<int>, cells: map<string, seq<int>>, today: int)
    requires days != [] && days[|days| - 1] == today && forall name :: name in cells ==> |cells[name]| == |days|
    ensures InProgress(days, cells, 1, [0], days, cells, today)
  {
    assert days == DayRange(days[0], days[0]) + days[1..];
    forall name | name in cells ensures cells[name] == Pick(cells[name], [0]) + cells[name][1..] {}
  }

  /** While the next day is not after today there is a row to compare with. */
  lemma RowsLeft(days: seq<int>, cells: map<string, seq<int>>, used: nat, owner: seq<int>, dates: seq<int>,
                 columns: map<string, seq<int>>, today: int)
    requires InProgress(days, cells, used, owner, dates, columns, today)
    ensures 1 <= |owner| <= |dates| && columns.Keys == cells.Keys
    ensures forall name :: name in columns ==> |columns[name]| == |dates|
    ensures days[0] + |owner| <= today ==> used < |days| && |owner| < |dates| && dates[|owner|] == days[used]
  {}

  /** One column when the row before a missing day is repeated. */
  lemma ColumnInserted(cells: seq<int>, used: nat, owner: seq<int>, column: seq<int>, inserted: seq<int>)
    requires 1 <= used <= |cells| && |owner| >= 1 && owner[|owner| - 1] == used - 1
    requires forall k :: 0 <= k < |owner| ==> 0 <= owner[k] < |cells|
    requires column == Pick(cells, owner) + cells[used..]
    requires inserted == Insert(column, |owner|, column[|owner| - 1])
    ensures inserted == Pick(cells, owner + [used - 1]) + cells[used..]
  {
    hide Pick, Insert;
    InsertBetween(Pick(cells, owner), cells[used..], cells[used - 1]);
    PickNext(cells, owner, used - 1);
    assert column[|owner| - 1] == cells[used - 1];
  }

  /** One column when the next row is passed. */
  lemma ColumnAdvanced(cells: seq<int>, used: nat, owner: seq<int>, column: seq<int>)
    requires used < |cells| && forall k :: 0 <= k < |owner| ==> 0 <= owner[k] < |cells|
    requires column == Pick(cells, owner) + cells[used..]
    ensures column == Pick(cells, owner + [used]) + cells[used + 1..]
  {
    hide Pick;
    PickNext(cells, owner, used);
    assert cells[used..] == [cells[used]] + cells[used + 1..];
  }

  lemma PickNext(cells: seq<int>, owner: seq<int>, row: nat)
    requires row < |cells| && forall k :: 0 <= k < |owner| ==> 0 <= owner[k] < |cells|
    ensures Pick(cells, owner + [row]) == Pick(cells, owner) + [cells[row]]
  {}

  /** The next day has no row: repeat the row before it. */
  lemma FillInsert(days: seq<int>, cells: map<string, seq<int>>, used: nat, owner: seq<int>, dates: seq<int>,
                   columns: map<string, seq<int>>, dates': seq<int>, columns': map<string, seq<int>>, today: int)
    requires InProgress(days, cells, used, owner, dates, columns, today) && columns'.Keys == columns.Keys
    requires days[0] + |owner| <= today && used < |days| && days[used] != days[0] + |owner|
    requires dates' == Insert(dates, |owner|, days[0] + |owner|)
    requires forall name :: name in columns ==>
               columns'[name] == Insert(columns[name], |owner|, columns[name][|owner| - 1])
    ensures InProgress(days, cells, used, owner + [used - 1], dates', columns', today)
  {
    var owner' := owner + [used - 1];
    FillingRepeats(days, used, owner);
    InsertBetween(DayRange(days[0], days[0] + |owner| - 1), days[used..], days[0] + |owner|);
    assert DayRange(days[0], days[0] + |owner|) == DayRange(days[0], days[0] + |owner| - 1) + [days[0] + |owner|];
    forall name | name in columns' ensures columns'[name] == Pick(cells[name], owner') + cells[name][used..] {
      ColumnInserted(cells[name], used, owner, columns[name], columns'[name]);
    }
  }

  /** The next day has a row: pass it. */
  lemma FillAdvance(days: seq<int>, cells: map<string, seq<int>>, used: nat, owner: seq<int>, dates: seq<int>,
                    columns: map<string, seq<int>>, today: int)
    requires InProgress(days, cells, used, owner, dates, columns, today)
    requires days[0] + |owner| <= today && used < |days| && days[used] == days[0] + |owner|
    ensures InProgress(days, cells, used + 1, owner + [used], dates, columns, today)
  {
    var owner' := owner + [used];
    FillingAdvances(days, used, owner);
    assert days[used..] == [days[used]] + days[used + 1..];
    assert DayRange(days[0], days[0] + |owner|) == DayRange(days[0], days[0] + |owner| - 1) + [days[0] + |owner|];
    forall name | name in columns ensures columns[name] == Pick(cells[name], owner') + cells[name][used + 1..] {
      ColumnAdvanced(cells[name], used, owner, columns[name]);
    }
  }

  /** Once the filled days pass today: all rows were used exactly when they were strictly increasing. */
  lemma FillEnd(days: seq<int>, cells: map<string, seq<int>>, used: nat, owner: seq<int>, dates: seq<int>,
                columns: map<string, seq<int>>, today: int)
    requires InProgress(days, cells, used, owner, dates, columns, today) && today < days[0] + |owner|
    ensures dates == DayRange(days[0], today) <==> StrictlyIncreasing(days)
    ensures StrictlyIncreasing(days) ==> forall name, k :: name in columns && 0 <= k < |dates| ==>
              columns[name][k] == cells[name][LatestRow(days, days[0] + k)]
  {
    assert days[..|days|] == days;
    if StrictlyIncreasing(days) {
      assert days[0] <= today;
      assert used == |days|;
      forall name, k | name in columns && 0 <= k < |dates|
        ensures columns[name][k] == cells[name][LatestRow(days, days[0] + k)]
      {
        FilledFromLatest(days, owner, k);
      }
    }
    if dates == DayRange(days[0], today) {
      assert |dates| == |owner| + (|days| - used);
      assert used == |days|;
    }
  }

  predicate Aligned(dates: seq<int>, columns: map<string, seq<int>>) {
    forall name :: name in columns ==> |columns[name]| == |dates|
  }

  /** Insert a row for a missing day: in every column the value of the row before it is repeated. */
  method InsertDay(dates: seq<int>, columns: map<string, seq<int>>, index: nat, day: int)
    returns (dates': seq<int>, columns': map<string, seq<int>>)
    requires Aligned(dates, columns) && index + 1 <= |dates|
    ensures Aligned(dates', columns') && columns'.Keys == columns.Keys
    ensures dates' == Insert(dates, index + 1, day)
    ensures forall name :: name in columns ==>
              columns'[name] == Insert(columns[name], index + 1, columns[name][index])
  {
    dates', columns' := Insert(dates, index + 1, day), columns;
    var todo := columns.Keys;
    while todo != {}
      invariant todo <= columns.Keys && columns'.Keys == columns.Keys
      invariant forall name :: name in columns ==>
                  columns'[name] == if name in todo then columns[name]
                                    else Insert(columns[name], index + 1, columns[name][index])
    {
      var name :| name in todo;
      columns' := columns'[name := Insert(columns'[name], index + 1, columns'[name][index])];
      todo := todo - {name};
    }
  }

  /** The gap-filling loop. The last row is today's, so the row after the current one always exists while the
      loop runs. The result is the full range of days exactly when the rows were strictly increasing. */
  method FillGaps(days: seq<int>, cells: map<string, seq<int>>, today: int)
    returns (dates: seq<int>, columns: map<string, seq<int>>)
    requires Aligned(days, cells) && days != [] && days[|days| - 1] == today
    ensures Aligned(dates, columns) && columns.Keys == cells.Keys && dates != []
    ensures dates == DayRange(days[0], today) <==> StrictlyIncreasing(days)
    ensures StrictlyIncreasing(days) ==> forall name, k :: name in columns && 0 <= k < |dates| ==>
              columns[name][k] == cells[name][LatestRow(days, days[0] + k)]
  {
    hide InProgress;
    dates, columns := days, cells;
    ghost var used: nat, owner := 1, [0];
    FillStart(days, cells, today);
    var index := 0;
    var nextDate := dates[index] + 1;
    while nextDate <= today
      invariant InProgress(days, cells, used, owner, dates, columns, today)
      invariant |owner| == index + 1 && nextDate == days[0] + index + 1
      decreases today + 1 - nextDate
    {
      ghost var dates0, columns0 := dates, columns;
      RowsLeft(days, cells, used, owner, dates, columns, today);
      if nextDate != dates[index + 1] {
        dates, columns := InsertDay(dates, columns, index, nextDate);
        FillInsert(days, cells, used, owner, dates0, columns0, dates, columns, today);
        owner := owner + [used - 1];
      } else {
        FillAdvance(days, cells, used, owner, dates, columns, today);
        owner, used := owner + [used], used + 1;
      }
      nextDate := nextDate + 1;
      index := index + 1;
    }
    RowsLeft(days, cells, used, owner, dates, columns, today);
    FillEnd(days, cells, used, owner, dates, columns, today);
  }

  /** Every cell carries the value of the latest row dated on or before its day. */
  ghost predicate CarriesLatest(h: History, dates: seq<int>, columns: map<string, seq<int>>) {
    && Rectangular(h) && columns.Keys == h.columns && Aligned(dates, columns) && h.rows != []
    && forall name, k :: name in columns && 0 <= k < |dates| ==>
         && h.rows[0].day <= dates[k]
         && columns[name][k] == h.rows[LatestRow(Days(h.rows), dates[k])].values[name]
  }

  function Cells(h: History): map<string, seq<int>>
    requires Rectangular(h)
  {
    map name | name in h.columns :: Column(h.rows, name)
  }

  lemma FilledCarriesLatest(h: History, dates: seq<int>, columns: map<string, seq<int>>, today: int)
    requires Rectangular(h) && h.rows != [] && columns.Keys == h.columns && Aligned(dates, columns)
    requires dates == DayRange(Days(h.rows)[0], today)
    requires forall name, k :: name in columns && 0 <= k < |dates| ==>
               columns[name][k] == Cells(h)[name][LatestRow(Days(h.rows), Days(h.rows)[0] + k)]
    ensures CarriesLatest(h, dates, columns)
  {}

  lemma LatestIsLast(days: seq<int>)
    requires days != [] && StrictlyIncreasing(days)
    ensures days[0] <= days[|days| - 1] && LatestRow(days, days[|days| - 1]) == |days| - 1
  {}

  /** Today's cells are those of the last row. */
  lemma TodayCarried(h: History, dates: seq<int>, columns: map<string, seq<int>>, today: int)
    requires CarriesLatest(h, dates, columns) && StrictlyIncreasing(Days(h.rows))
    requires dates == DayRange(h.rows[0].day, today) && h.rows[|h.rows| - 1].day == today
    ensures h.rows[0].day <= today && dates != []
    ensures forall name :: name in columns ==> columns[name][|dates| - 1] == h.rows[|h.rows| - 1].values[name]
  {
    LatestIsLast(Days(h.rows));
    assert dates[|dates| - 1] == today;
    hide LatestRow, StrictlyIncreasing;
  }

  predicate InOrder(h: History, today: int) {
    StrictlyIncreasing(Days(h.rows)) && forall i :: 0 <= i < |h.rows| ==> h.rows[i].day <= today
  }

  /** On every day from the first stored row to yesterday, a stored column carries the value of the latest row stored
      for that day or an earlier one, and a new column 0. */
  ghost predicate PastKept(h: History, today: int, dates: seq<int>, columns: map<string, seq<int>>) {
    && Rectangular(h) && h.columns <= columns.Keys && Aligned(dates, columns)
    && forall name, k :: name in columns && 0 <= k < |dates| && dates[k] < today ==>
         && h.rows != [] && h.rows[0].day <= dates[k]
         && columns[name][k]
            == if name in h.columns then h.rows[LatestRow(Days(h.rows), dates[k])].values[name] else 0
  }

  /** Adding today's row, or replacing it, does not change which row is the latest on an earlier day. */
  lemma LatestUnchanged(days: seq<int>, rebuilt: seq<int>, today: int, day: int)
    requires days != [] && rebuilt != [] && days[0] <= day < today && rebuilt[|rebuilt| - 1] == today
    requires |rebuilt| == if days[|days| - 1] == today then |days| else |days| + 1
    requires forall i :: 0 <= i < |rebuilt| - 1 ==> rebuilt[i] == days[i]
    requires StrictlyIncreasing(days) && StrictlyIncreasing(rebuilt) && rebuilt[0] <= day
    ensures LatestRow(rebuilt, day) == LatestRow(days, day) < |rebuilt| - 1
  {
    var r := LatestRow(rebuilt, day);
    assert days[r] == rebuilt[r];
  }

  /** The stored rows but one of today, with the new columns at 0, and then today's row. */
  predicate Extends(rebuilt: History, h: History, today: int) {
    && Rectangular(h) && Rectangular(rebuilt) && h.columns <= rebuilt.columns
    && |rebuilt.rows| == |Kept(h.rows, today)| + 1 && rebuilt.rows[|rebuilt.rows| - 1].day == today
    && forall i :: 0 <= i < |rebuilt.rows| - 1 ==>
         && rebuilt.rows[i].day == h.rows[i].day
         && forall name :: name in rebuilt.columns ==>
              rebuilt.rows[i].values[name] == if name in h.columns then h.rows[i].values[name] else 0
  }

  lemma PastCell(h: History, rebuilt: History, today: int, day: int, name: string)
    requires Extends(rebuilt, h, today) && InOrder(h, today) && StrictlyIncreasing(Days(rebuilt.rows))
    requires rebuilt.rows[0].day <= day < today && name in rebuilt.columns
    ensures h.rows != [] && h.rows[0].day <= day
    ensures rebuilt.rows[LatestRow(Days(rebuilt.rows), day)].values[name]
            == if name in h.columns then h.rows[LatestRow(Days(h.rows), day)].values[name] else 0
  {
    hide StrictlyIncreasing;
    LatestUnchanged(Days(h.rows), Days(rebuilt.rows), today, day);
  }

  lemma PastOf(h: History, rebuilt: History, today: int, dates: seq<int>, columns: map<string, seq<int>>)
    requires Extends(rebuilt, h, today) && InOrder(h, today) && StrictlyIncreasing(Days(rebuilt.rows))
    requires CarriesLatest(rebuilt, dates, columns)
    ensures PastKept(h, today, dates, columns)
  {
    hide Extends, InOrder, StrictlyIncreasing, LatestRow, Days;
    ExtendedColumns(h, rebuilt, today);
    forall name, k | name in columns && 0 <= k < |dates| && dates[k] < today
      ensures h.rows != [] && h.rows[0].day <= dates[k]
      ensures columns[name][k]
              == if name in h.columns then h.rows[LatestRow(Days(h.rows), dates[k])].values[name] else 0
    {
      PastCell(h, rebuilt, today, dates[k], name);
    }
  }

  lemma ExtendsHistory(h: History, rebuilt: History, totals: map<string, int>, today: int)
    requires Rectangular(h) && Rectangular(rebuilt) && rebuilt.columns == h.columns + totals.Keys
    requires |rebuilt.rows| == |Kept(h.rows, today)| + 1 && rebuilt.rows[|rebuilt.rows| - 1].day == today
    requires forall i :: 0 <= i < |Kept(h.rows, today)| ==>
               && rebuilt.rows[i].day == Kept(h.rows, today)[i].day
               && forall name :: name in rebuilt.columns ==>
                    rebuilt.rows[i].values[name]
                    == if name in h.columns then Kept(h.rows, today)[i].values[name] else 0
    ensures Extends(rebuilt, h, today)
  {}

  lemma ExtendedColumns(h: History, rebuilt: History, today: int)
    requires Extends(rebuilt, h, today)
    ensures Rectangular(h) && h.columns <= rebuilt.columns
  {}

  /** The last row holds the totals. */
  predicate EndsWith(h: History, totals: map<string, int>) {
    && Rectangular(h) && h.rows != []
    && forall name :: name in h.columns ==>
         h.rows[|h.rows| - 1].values[name] == if name in totals then totals[name] else 0
  }

  lemma TodayTotals(h: History, totals: map<string, int>, dates: seq<int>, columns: map<string, seq<int>>, today: int)
    requires CarriesLatest(h, dates, columns) && StrictlyIncreasing(Days(h.rows)) && EndsWith(h, totals)
    requires dates == DayRange(h.rows[0].day, today) && h.rows[|h.rows| - 1].day == today && totals.Keys <= h.columns
    ensures dates != [] && forall name :: name in totals ==> columns[name][|dates| - 1] == totals[name]
  {
    TodayCarried(h, dates, columns, today);
    hide LatestRow, StrictlyIncreasing;
  }

  /** Lay out a rebuilt history by column, and fill the columns. */
  method FillRebuilt(h: History, rebuilt: History, totals: map<string, int>, today: int)
    returns (dates: seq<int>, columns: map<string, seq<int>>)
    requires Extends(rebuilt, h, today) && rebuilt.columns == h.columns + totals.Keys && EndsWith(rebuilt, totals)
    requires InOrder(h, today) ==> StrictlyIncreasing(Days(rebuilt.rows))
    ensures columns.Keys == rebuilt.columns && Aligned(dates, columns) && dates != []
    ensures InOrder(h, today) ==>
              && dates == DayRange(rebuilt.rows[0].day, today)
              && CarriesLatest(rebuilt, dates, columns) && PastKept(h, today, dates, columns)
              && forall name :: name in totals ==> columns[name][|dates| - 1] == totals[name]
  {
    hide CarriesLatest, PastKept, StrictlyIncreasing, LatestRow, InOrder, EndsWith;
    var days := Days(rebuilt.rows);
    dates, columns := FillGaps(days, Cells(rebuilt), today);
    if InOrder(h, today) {
      FilledCarriesLatest(rebuilt, dates, columns, today);
      TodayTotals(rebuilt, totals, dates, columns, today);
      PastOf(h, rebuilt, today, dates, columns);
    }
  }

  lemma FirstDay(h: History, rebuilt: History, today: int)
    requires Extends(rebuilt, h, today)
    ensures rebuilt.rows[0].day == if h.rows == [] then today else h.rows[0].day
  {}

  lemma InOrderIs(h: History, today: int)
    ensures InOrder(h, today) <==>
              StrictlyIncreasing(Days(h.rows)) && forall i :: 0 <= i < |h.rows| ==> h.rows[i].day <= today
  {}

  /** Rebuild, lay out by column, and fill: for a history in order every day from its first row to today gets the
      values of the latest row, and today's values are the current totals. */
  method FillHistory(h: History, totals: map<string, int>, today: int)
    returns (rebuilt: History, dates: seq<int>, columns: map<string, seq<int>>)
    requires Rectangular(h)
    ensures Rectangular(rebuilt) && rebuilt.columns == columns.Keys == h.columns + totals.Keys
    ensures Aligned(dates, columns) && dates != []
    ensures StrictlyIncreasing(Days(h.rows)) && (forall i :: 0 <= i < |h.rows| ==> h.rows[i].day <= today) ==>
              && dates == DayRange(if h.rows == [] then today else h.rows[0].day, today)
              && CarriesLatest(rebuilt, dates, columns) && PastKept(h, today, dates, columns)
              && forall name :: name in totals ==> columns[name][|dates| - 1] == totals[name]
  {
    hide CarriesLatest, PastKept, Extends, StrictlyIncreasing, Days, InOrder;
    rebuilt := RebuildHistory(h, totals, today);
    ExtendsHistory(h, rebuilt, totals, today);
    InOrderIs(h, today);
    FirstDay(h, rebuilt, today);
    dates, columns := FillRebuilt(h, rebuilt, totals, today);
  }

  // ----- the current totals

  /** What a component counts for an item. */
  function ItemRate(data: map<string, map<string, int>>, item: string): string -> real {
    component => if component in data && item in data[component] then data[component][item] as real else 0.0
  }

  /** The sum of an item over some components. */
  ghost function ItemTotal(data: map<string, map<string, int>>, components: set<string>, item: string): real {
    SetSum(components, ItemRate(data, item))
  }

  predicate Counted(data: map<string, map<string, int>>, components: set<string>, item: string) {
    exists component :: component in components && component in data && item in data[component]
  }

  ghost predicate TotalsOf(data: map<string, map<string, int>>, components: set<string>, totals: map<string, int>) {
    && (forall item :: item in totals <==> Counted(data, components, item))
    && (forall item :: item in totals ==> totals[item] as real == ItemTotal(data, components, item))
  }

  /** The items of one component, added in whatever order. */
  method AddComponent(totals: map<string, int>, items: map<string, int>) returns (added: map<string, int>)
    ensures added.Keys == totals.Keys + items.Keys
    ensures forall item :: item in added ==>
              added[item] == (if item in totals then totals[item] else 0) + (if item in items then items[item] else 0)
  {
    added := totals;
    var todo := items.Keys;
    while todo != {}
      invariant todo <= items.Keys && added.Keys == totals.Keys + (items.Keys - todo)
      invariant forall item :: item in added ==>
                  added[item] == (if item in totals then totals[item] else 0)
                                 + (if item in items && item !in todo then items[item] else 0)
    {
      var item :| item in todo;
      if item !in added {
        added := added[item := items[item]];
      } else {
        added := added[item := added[item] + items[item]];
      }
      todo := todo - {item};
    }
  }

  lemma {:induction false} UncountedItem(data: map<string, map<string, int>>, components: set<string>, item: string)
    requires !Counted(data, components, item)
    ensures ItemTotal(data, components, item) == 0.0
    decreases components
  {
    if components == {} {
    } else {
      var component :| component in components;
      SetSumTakeOut(components, ItemRate(data, item), component);
      UncountedItem(data, components - {component}, item);
    }
  }

  lemma ItemNext(data: map<string, map<string, int>>, done: set<string>, component: string, item: string)
    requires component in data && component !in done
    ensures Counted(data, done + {component}, item) <==> Counted(data, done, item) || item in data[component]
    ensures ItemTotal(data, done + {component}, item)
            == ItemTotal(data, done, item) + if item in data[component] then data[component][item] as real else 0.0
    ensures !Counted(data, done, item) ==> ItemTotal(data, done, item) == 0.0
  {
    assert done + {component} - {component} == done;
    SetSumTakeOut(done + {component}, ItemRate(data, item), component);
    if !Counted(data, done, item) { UncountedItem(data, done, item); }
    if item in data[component] { assert component in done + {component}; }
  }

  lemma TotalsOfNext(data: map<string, map<string, int>>, done: set<string>, component: string,
                     totals: map<string, int>, added: map<string, int>)
    requires TotalsOf(data, done, totals) && component in data && component !in done
    requires added.Keys == totals.Keys + data[component].Keys
    requires forall item :: item in added ==>
               added[item] == (if item in totals then totals[item] else 0)
                              + (if item in data[component] then data[component][item] else 0)
    ensures TotalsOf(data, done + {component}, added)
  {
    hide ItemTotal, Counted;
    forall item
      ensures item in added <==> Counted(data, done + {component}, item)
      ensures item in added ==> added[item] as real == ItemTotal(data, done + {component}, item)
    {
      ItemNext(data, done, component, item);
    }
  }

  /** The totals of today: every item that some component counts, summed over the components. */
  method CurrentTotals(data: map<string, map<string, int>>) returns (totals: map<string, int>)
    ensures TotalsOf(data, data.Keys, totals)
  {
    hide TotalsOf;
    totals := map[];
    ghost var done: set<string> := {};
    NoTotals(data);
    var todo := data.Keys;
    while todo != {}
      invariant todo + done == data.Keys && todo !! done && TotalsOf(data, done, totals)
    {
      var component :| component in todo;
      ghost var before := totals;
      totals := AddComponent(totals, data[component]);
      TotalsOfNext(data, done, component, before, totals);
      todo, done := todo - {component}, done + {component};
    }
    assert done == data.Keys;
  }

  lemma NoTotals(data: map<string, map<string, int>>)
    ensures TotalsOf(data, {}, map[])
  {}

  /** The whole computation: for a history in order, every day from its first row to today carries the latest row, and
      today's cells are the sums over all components. */
  method ProcessComponentTotals(data: map<string, map<string, int>>, h: History, today: int)
    returns (rebuilt: History, dates: seq<int>, columns: map<string, seq<int>>)
    requires Rectangular(h)
    ensures Rectangular(rebuilt) && rebuilt.columns == columns.Keys && Aligned(dates, columns) && dates != []
    ensures forall item :: item in columns <==> item in h.columns || Counted(data, data.Keys, item)
    ensures StrictlyIncreasing(Days(h.rows)) && (forall i :: 0 <= i < |h.rows| ==> h.rows[i].day <= today) ==>
              && dates == DayRange(if h.rows == [] then today else h.rows[0].day, today)
              && CarriesLatest(rebuilt, dates, columns) && PastKept(h, today, dates, columns)
              && forall item :: Counted(data, data.Keys, item) ==>
                   columns[item][|dates| - 1] as real == ItemTotal(data, data.Keys, item)
  {
    hide CarriesLatest, PastKept, StrictlyIncreasing, Rectangular, Counted, ItemTotal;
    var totals := CurrentTotals(data);
    rebuilt, dates, columns := FillHistory(h, totals, today);
  }
}
