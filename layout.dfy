/**
 * The month grid that print_calendar draws: a row of leading blanks up to the
 * weekday column of the first day, the days of the month in order, a new row
 * every seven columns, and one highlight per day. Cells stand in for the
 * ANSI-coloured text the program prints.
 */
module Layout {

  /** The four highlights, in the order print_calendar tests them. */
  datatype Style = TodayNoted | Today | Noted | Plain

  datatype Cell = Blank | Day(n: nat, style: Style)

  /** Today and noted (bold green with `!`) wins over today (bold green), which wins over noted (bold yellow). */
  function StyleOf(isToday: bool, isNoted: bool): (s: Style)
    ensures s == TodayNoted <==> isToday && isNoted
    ensures s == Today <==> isToday && !isNoted
    ensures s == Noted <==> !isToday && isNoted
    ensures s == Plain <==> !isToday && !isNoted
  {
    if isToday then (if isNoted then TodayNoted else Today)
    else if isNoted then Noted
    else Plain
  }

  function Blanks(n: nat): (r: seq<Cell>)
    ensures |r| == n && forall i :: 0 <= i < n ==> r[i] == Blank
  {
    seq(n, _ => Blank)
  }

  /** The day cells: day i + 1 styled by whether it is today and whether it is noted. */
  function DayCells(today: nat, noted: seq<bool>): (r: seq<Cell>)
    ensures |r| == |noted|
    ensures forall i :: 0 <= i < |noted| ==> r[i] == Day(i + 1, StyleOf(i + 1 == today, noted[i]))
  {
    seq(|noted|, i requires 0 <= i < |noted| => Day(i + 1, StyleOf(i + 1 == today, noted[i])))
  }

  /** Cut into rows of seven, the last row holding what is left (possibly nothing, when there are no cells at all). */
  function Chunk(xs: seq<Cell>): (rows: seq<seq<Cell>>)
    ensures |rows| >= 1
    ensures |rows| == 1 <==> |xs| <= 7
    ensures forall k :: 0 <= k < |rows| ==> |rows[k]| <= 7
    decreases |xs|
  {
    if |xs| <= 7 then [xs] else [xs[..7]] + Chunk(xs[7..])
  }

  function Concat(rows: seq<seq<Cell>>): (r: seq<Cell>)
    decreases |rows|
  {
    if |rows| == 0 then [] else rows[0] + Concat(rows[1..])
  }

  /** The rows print_calendar draws for a month whose first day sits in column first. */
  function Grid(first: nat, today: nat, noted: seq<bool>): (rows: seq<seq<Cell>>)
    ensures Concat(rows) == Blanks(first) + DayCells(today, noted)
    ensures forall k :: 0 <= k < |rows| ==> |rows[k]| <= 7
  {
    var xs := Blanks(first) + DayCells(today, noted);
    ChunkConcat(xs);
    Chunk(xs)
  }

  /** Chunking loses and reorders nothing: the rows read back as the cells. */
  lemma {:induction false} ChunkConcat(xs: seq<Cell>)
    ensures Concat(Chunk(xs)) == xs
    decreases |xs|
  {
    if |xs| <= 7 {
      assert Concat([xs]) == xs + Concat([]);
    } else {
      ChunkConcat(xs[7..]);
      assert xs[..7] + xs[7..] == xs;
    }
  }

  /** No row has more than seven cells; every row but the last has exactly seven and the last is empty only when there are no cells. */
  lemma {:induction false} ChunkRows(xs: seq<Cell>)
    ensures forall k :: 0 <= k < |Chunk(xs)| ==> |Chunk(xs)[k]| <= 7
    ensures forall k :: 0 <= k < |Chunk(xs)| - 1 ==> |Chunk(xs)[k]| == 7
    ensures |xs| > 0 ==> |Chunk(xs)[|Chunk(xs)| - 1]| >= 1
    decreases |xs|
  {
    if |xs| > 7 {
      ChunkRows(xs[7..]);
      var rest := Chunk(xs[7..]);
      assert Chunk(xs) == [xs[..7]] + rest;
      assert forall k :: 1 <= k < |Chunk(xs)| ==> Chunk(xs)[k] == rest[k - 1];
    }
  }

  /** A non-empty run of cells takes ceil(|xs| / 7) rows. */
  lemma {:induction false} ChunkCount(xs: seq<Cell>)
    requires |xs| > 0
    ensures |Chunk(xs)| == (|xs| + 6) / 7
    decreases |xs|
  {
    if |xs| > 7 {
      ChunkCount(xs[7..]);
    }
  }

  /** The last row holds the cells after the last multiple of seven. */
  lemma {:induction false} ChunkLast(xs: seq<Cell>)
    requires |xs| > 0
    ensures 7 * ((|xs| + 6) / 7 - 1) <= |xs|
    ensures Chunk(xs)[|Chunk(xs)| - 1] == xs[7 * ((|xs| + 6) / 7 - 1)..]
    decreases |xs|
  {
    if |xs| > 7 {
      ChunkLast(xs[7..]);
      ChunkCount(xs[7..]);
      var m := (|xs| - 7 + 6) / 7;
      assert (|xs| + 6) / 7 == m + 1;
      assert xs[7..][7 * (m - 1)..] == xs[7 * m..];
    } else {
      assert xs[0..] == xs;
    }
  }

  /**
   * The state of the drawing loop, rows completed so far and the row in
   * progress, is the chunking of what it has drawn: the completed rows are
   * full, and the row in progress is empty only before anything is drawn.
   */
  lemma {:induction false} ChunkOfRows(rows: seq<seq<Cell>>, row: seq<Cell>)
    requires forall k :: 0 <= k < |rows| ==> |rows[k]| == 7
    requires |row| <= 7 && (|row| == 0 ==> |rows| == 0)
    ensures Chunk(Concat(rows) + row) == rows + [row]
    decreases |rows|
  {
    if |rows| == 0 {
      assert Concat(rows) + row == row;
    } else {
      ChunkOfRows(rows[1..], row);
      var tail := Concat(rows[1..]) + row;
      var xs := rows[0] + tail;
      assert Concat(rows) + row == xs;
      if |rows| == 1 {
        assert |tail| == |row| >= 1;
      }
      assert |xs| > 7;
      assert xs[..7] == rows[0];
      assert xs[7..] == tail;
      assert Chunk(xs) == [rows[0]] + Chunk(tail);
      assert [rows[0]] + (rows[1..] + [row]) == rows + [row];
    }
  }

  /**
   * The state of the drawing loop once n cells are drawn: the completed rows
   * are full, and they and the row in progress hold the first n cells.
   */
  ghost predicate Drawn(cells: seq<Cell>, done: seq<seq<Cell>>, row: seq<Cell>, n: nat) {
    n <= |cells| && (forall k :: 0 <= k < |done| ==> |done[k]| == 7) && Concat(done) + row == cells[..n]
  }

  /** Drawing the next cell extends the row in progress. */
  lemma DrawCell(cells: seq<Cell>, done: seq<seq<Cell>>, row: seq<Cell>, n: nat)
    requires Drawn(cells, done, row, n) && n < |cells|
    ensures Drawn(cells, done, row + [cells[n]], n + 1)
  {
    assert cells[..n + 1] == cells[..n] + [cells[n]];
    assert Concat(done) + (row + [cells[n]]) == (Concat(done) + row) + [cells[n]];
  }

  /** A full row in progress is closed and a new one begun. */
  lemma BreakRow(cells: seq<Cell>, done: seq<seq<Cell>>, row: seq<Cell>, n: nat)
    requires Drawn(cells, done, row, n) && |row| == 7
    ensures Drawn(cells, done + [row], [], n)
  {
    ConcatSnoc(done, row);
    assert Concat(done + [row]) + [] == Concat(done + [row]);
  }

  /** When every cell is drawn, the rows are the chunking of the cells. */
  lemma DrawnAll(cells: seq<Cell>, done: seq<seq<Cell>>, row: seq<Cell>)
    requires Drawn(cells, done, row, |cells|)
    requires |row| <= 7 && (|row| == 0 ==> |done| == 0)
    ensures Chunk(cells) == done + [row]
  {
    ChunkOfRows(done, row);
    assert cells[..|cells|] == cells;
  }

  lemma ConcatSnoc(rows: seq<seq<Cell>>, row: seq<Cell>)
    ensures Concat(rows + [row]) == Concat(rows) + row
    decreases |rows|
  {
    if |rows| == 0 {
      assert Concat([row]) == row + Concat([]);
    } else {
      ConcatSnoc(rows[1..], row);
      assert (rows + [row])[1..] == rows[1..] + [row];
    }
  }

  /**
   * The grid of a month: its cells are first blanks and then days 1 to
   * |noted| in order, each with the one style its flags select; it has at
   * most seven cells per row, and ceil((first + |noted|) / 7) rows.
   */
  lemma GridShape(first: nat, today: nat, noted: seq<bool>)
    requires first + |noted| > 0
    ensures var g := Grid(first, today, noted);
            Concat(g) == Blanks(first) + DayCells(today, noted)
            && |g| == (first + |noted| + 6) / 7
            && (forall k :: 0 <= k < |g| ==> 1 <= |g[k]| <= 7)
  {
    var xs := Blanks(first) + DayCells(today, noted);
    ChunkConcat(xs);
    ChunkCount(xs);
    ChunkRows(xs);
  }

  /** Day d of the grid is at flat position first + d - 1, and carries its style. */
  lemma GridDay(first: nat, today: nat, noted: seq<bool>, d: nat)
    requires 1 <= d <= |noted|
    ensures (Blanks(first) + DayCells(today, noted))[first + d - 1] == Day(d, StyleOf(d == today, noted[d - 1]))
  {
  }

  /**
   * July 2024 starts in column 0 (first_dow_zeller(7, 2024) is 0) and has 31
   * days: five rows, the last holding days 29 to 31.
   */
  lemma JulyExample(today: nat, noted: seq<bool>)
    requires |noted| == 31
    ensures |Grid(0, today, noted)| == 5
    ensures Grid(0, today, noted)[4] == DayCells(today, noted)[28..]
  {
    var xs := Blanks(0) + DayCells(today, noted);
    assert xs == DayCells(today, noted);
    ChunkCount(xs);
    ChunkLast(xs);
  }
}
