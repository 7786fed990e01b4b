/**
 * The calendar of one month: the table of its days with their significance
 * flags and notes, how lines of the month's save file are loaded into it,
 * how it is written back, and the grid print_calendar draws from it.
 *
 * The first half states every operation on a plain sequence of dates; the
 * class Calendar then keeps the C program's fixed array of 31 dates and its
 * header fields, and each of its methods is proved to perform the sequence
 * operation on the first cnt_dates entries.
 */
module CalendarState {
  import opened Wrappers
  import opened CString
  import opened LineCodec
  import DateMath
  import Layout

  /** MAX_DATES_IN_MONTH: the size of the dates array. */
  const MaxDatesInMonth: nat := 31

  /** One day: its day of the month, whether it is significant, and its note when loaded (NULL is None). */
  datatype Date = Date(mday: nat, isSig: bool, note: Option<string>)

  /** The table populate_dates leaves for a month of n days: day i + 1 at index i, nothing significant. */
  function Fresh(n: nat): (r: seq<Date>)
    ensures |r| == n
    ensures forall i :: 0 <= i < n ==> r[i] == Date(i + 1, false, None)
  {
    seq(n, i requires 0 <= i < n => Date(i + 1, false, None))
  }

  /** Every entry holds its own day number, and a day that is not significant has no note. */
  predicate WellFormed(days: seq<Date>) {
    forall i :: 0 <= i < |days| ==> days[i].mday == i + 1 && (!days[i].isSig ==> days[i].note == None)
  }

  /** Every significant day has its note in memory, as after a load that asks for all notes. */
  predicate AllLoaded(days: seq<Date>) {
    forall i :: 0 <= i < |days| ==> days[i].isSig ==> days[i].note.Some?
  }

  /** A note fits on one line of the save file: no newline and no NUL inside. */
  predicate CleanNote(note: string) {
    '\n' !in note && NUL !in note
  }

  /** Every loaded note fits MAX_NOTE_LEN, as `alm sig` guarantees when it reads a note. */
  predicate NotesFit(days: seq<Date>) {
    forall i :: 0 <= i < |days| && days[i].note.Some? ==> |days[i].note.value| <= MaxNoteLen
  }

  predicate CleanNotes(days: seq<Date>) {
    forall i :: 0 <= i < |days| ==> days[i].note.Some? ==> CleanNote(days[i].note.value)
  }

  /** The significance flags, in day order, that print_calendar highlights. */
  function Flags(days: seq<Date>): (r: seq<bool>)
    ensures |r| == |days| && forall i :: 0 <= i < |days| ==> r[i] == days[i].isSig
  {
    seq(|days|, i requires 0 <= i < |days| => days[i].isSig)
  }

  // ---- add_sig_date and remove_sig_date ----

  /**
   * add_sig_date: a date outside 1..|days| is ignored; otherwise that day
   * becomes significant and its note is replaced (None for NULL). No other
   * day changes.
   */
  function AddNote(days: seq<Date>, date: nat, note: Option<string>): (r: seq<Date>)
    ensures |r| == |days|
    ensures !(1 <= date <= |days|) ==> r == days
    ensures 1 <= date <= |days| ==> r[date - 1] == Date(days[date - 1].mday, true, note)
    ensures forall i :: 0 <= i < |days| && i != date - 1 ==> r[i] == days[i]
  {
    if date > |days| || date < 1 then days
    else days[date - 1 := days[date - 1].(isSig := true, note := note)]
  }

  /**
   * remove_sig_date for a date of at least 1: a date past |days| changes
   * nothing (the program only warns); otherwise the day is no longer
   * significant and its note is dropped.
   */
  function RemoveNote(days: seq<Date>, date: nat): (r: seq<Date>)
    requires date >= 1
    ensures |r| == |days|
    ensures date > |days| ==> r == days
    ensures date <= |days| ==> r[date - 1] == Date(days[date - 1].mday, false, None)
    ensures forall i :: 0 <= i < |days| && i != date - 1 ==> r[i] == days[i]
  {
    if date > |days| then days
    else days[date - 1 := days[date - 1].(isSig := false, note := None)]
  }

  /** Adding twice to the same day keeps only the second note. */
  lemma AddOverwrites(days: seq<Date>, date: nat, a: Option<string>, b: Option<string>)
    ensures AddNote(AddNote(days, date, a), date, b) == AddNote(days, date, b)
  {
    if 1 <= date <= |days| {
      var r1 := AddNote(AddNote(days, date, a), date, b);
      var r2 := AddNote(days, date, b);
      assert forall i :: 0 <= i < |days| ==> r1[i] == r2[i];
    }
  }

  /** Removing a day undoes any addition to it. */
  lemma RemoveAfterAdd(days: seq<Date>, date: nat, note: Option<string>)
    requires date >= 1
    ensures RemoveNote(AddNote(days, date, note), date) == RemoveNote(days, date)
  {
    if date <= |days| {
      var r1 := RemoveNote(AddNote(days, date, note), date);
      var r2 := RemoveNote(days, date);
      assert forall i :: 0 <= i < |days| ==> r1[i] == r2[i];
    }
  }

  /** Adding keeps the table well formed, and keeps every note loaded when the note is given. */
  lemma AddKeeps(days: seq<Date>, date: nat, note: Option<string>)
    ensures WellFormed(days) ==> WellFormed(AddNote(days, date, note))
    ensures AllLoaded(days) && note.Some? ==> AllLoaded(AddNote(days, date, note))
    ensures CleanNotes(days) && (note.Some? ==> CleanNote(note.value)) ==> CleanNotes(AddNote(days, date, note))
    ensures NotesFit(days) && (note.Some? ==> |note.value| <= MaxNoteLen) ==> NotesFit(AddNote(days, date, note))
  {
    var r := AddNote(days, date, note);
    assert forall i :: 0 <= i < |days| ==> r[i] == days[i] || (i == date - 1 && r[i] == Date(days[i].mday, true, note));
  }

  /** Removing keeps the table well formed, fully loaded and clean. */
  lemma RemoveKeeps(days: seq<Date>, date: nat)
    requires date >= 1
    ensures WellFormed(days) ==> WellFormed(RemoveNote(days, date))
    ensures AllLoaded(days) ==> AllLoaded(RemoveNote(days, date))
    ensures CleanNotes(days) ==> CleanNotes(RemoveNote(days, date))
    ensures NotesFit(days) ==> NotesFit(RemoveNote(days, date))
  {
    var r := RemoveNote(days, date);
    assert forall i :: 0 <= i < |days| ==> r[i] == days[i] || (i == date - 1 && r[i] == Date(days[i].mday, false, None));
  }

  // ---- slurp_sig_dates ----

  /**
   * One line of the save file under the filter mday_note_to_load: a line
   * that does not decode is skipped; otherwise its day is marked, with its
   * text when the filter is 0 or names that day, and without a note
   * otherwise. A day outside the month is ignored by AddNote.
   */
  function ApplyLine(days: seq<Date>, line: string, filter: nat): (r: seq<Date>)
    ensures |r| == |days|
    ensures Decode(line).None? ==> r == days
    ensures Decode(line).Some? && !(1 <= Decode(line).value.day <= |days|) ==> r == days
    ensures Decode(line).Some? && 1 <= Decode(line).value.day <= |days| ==>
              var rec := Decode(line).value;
              r[rec.day - 1] == Date(days[rec.day - 1].mday, true, if filter == 0 || filter == rec.day then Some(rec.text) else None)
    ensures forall i :: 0 <= i < |days| && (Decode(line).None? || i != Decode(line).value.day - 1) ==> r[i] == days[i]
  {
    match Decode(line)
    case None => days
    case Some(rec) => AddNote(days, rec.day, if rec.day == filter || filter == 0 then Some(rec.text) else None)
  }

  /** A line with an empty day field is read as day 0, which add_sig_date ignores. */
  lemma EmptyDayIgnored(days: seq<Date>, text: string, filter: nat)
    requires NUL !in text && '\n' !in text
    ensures Decode(";" + text + "\n") == Some(Record(0, text))
    ensures ApplyLine(days, ";" + text + "\n", filter) == days
  {
    LineLayout("", text);
    assert "" + ";" + text == ";" + text;
    DecodeFields(";" + text + "\n", "", text);
  }

  /** A saved line for a day past the end of the month changes nothing. */
  lemma OutOfRangeIgnored(days: seq<Date>, mday: nat, note: string, filter: nat)
    requires |days| < mday <= 99 && CleanNote(note)
    ensures ApplyLine(days, Encode(mday, note), filter) == days
  {
    DecodeEncode(mday, note);
  }

  /** The table after reading the lines of a save file in order. */
  function Load(days: seq<Date>, lines: seq<string>, filter: nat): (r: seq<Date>)
    ensures |r| == |days|
    ensures forall i :: 0 <= i < |days| ==> r[i].mday == days[i].mday
    ensures forall i :: 0 <= i < |days| && days[i].isSig ==> r[i].isSig
    decreases |lines|
  {
    if |lines| == 0 then days
    else ApplyLine(Load(days, lines[..|lines| - 1], filter), lines[|lines| - 1], filter)
  }

  /** Reading a file in two parts is reading the first part and then the second. */
  lemma {:induction false} LoadAppend(days: seq<Date>, a: seq<string>, b: seq<string>, filter: nat)
    ensures Load(days, a + b, filter) == Load(Load(days, a, filter), b, filter)
    decreases |b|
  {
    if |b| == 0 {
      assert a + b == a;
    } else {
      var b0 := b[..|b| - 1];
      LoadAppend(days, a, b0, filter);
      assert (a + b)[..|a + b| - 1] == a + b0;
      assert (a + b)[|a + b| - 1] == b[|b| - 1];
    }
  }

  lemma LoadOne(days: seq<Date>, line: string, filter: nat)
    ensures Load(days, [line], filter) == ApplyLine(days, line, filter)
  {
    assert [line][..0] == [];
  }

  /** Loading keeps the table well formed and, with filter 0, leaves every significant day with its note. */
  lemma {:induction false} LoadKeeps(days: seq<Date>, lines: seq<string>, filter: nat)
    ensures WellFormed(days) ==> WellFormed(Load(days, lines, filter))
    ensures AllLoaded(days) && filter == 0 ==> AllLoaded(Load(days, lines, filter))
    decreases |lines|
  {
    if |lines| > 0 {
      var prev := Load(days, lines[..|lines| - 1], filter);
      LoadKeeps(days, lines[..|lines| - 1], filter);
      var line := lines[|lines| - 1];
      match Decode(line)
      case None =>
      case Some(rec) =>
        AddKeeps(prev, rec.day, if rec.day == filter || filter == 0 then Some(rec.text) else None);
    }
  }

  /**
   * With a day filter f, only day f can get a note: loading never attaches
   * text to any other day.
   */
  lemma {:induction false} LoadFiltered(days: seq<Date>, lines: seq<string>, f: nat)
    requires f != 0
    requires forall i :: 0 <= i < |days| && days[i].note.Some? ==> i + 1 == f
    ensures forall i :: 0 <= i < |days| && Load(days, lines, f)[i].note.Some? ==> i + 1 == f
    decreases |lines|
  {
    if |lines| > 0 {
      var prev := Load(days, lines[..|lines| - 1], f);
      LoadFiltered(days, lines[..|lines| - 1], f);
      match Decode(lines[|lines| - 1])
      case None =>
        assert Load(days, lines, f) == prev;
      case Some(rec) =>
        var note := if rec.day == f then Some(rec.text) else None;
        var r := Load(days, lines, f);
        assert r == AddNote(prev, rec.day, note);
        forall i | 0 <= i < |days| && r[i].note.Some?
          ensures i + 1 == f
        {
          if i != rec.day - 1 {
            assert r[i] == prev[i];
          }
        }
    }
  }

  /**
   * The filter decides only which notes are kept: a load with filter f marks
   * exactly the days a full load marks, and day f comes out as in the full
   * load, note included.
   */
  lemma {:induction false} FilterAgrees(days: seq<Date>, lines: seq<string>, f: nat)
    ensures forall i :: 0 <= i < |days| ==> Load(days, lines, f)[i].isSig == Load(days, lines, 0)[i].isSig
    ensures 1 <= f <= |days| ==> Load(days, lines, f)[f - 1] == Load(days, lines, 0)[f - 1]
    decreases |lines|
  {
    if |lines| > 0 {
      var prev := Load(days, lines[..|lines| - 1], f);
      var prevFull := Load(days, lines[..|lines| - 1], 0);
      FilterAgrees(days, lines[..|lines| - 1], f);
      match Decode(lines[|lines| - 1])
      case None =>
        assert Load(days, lines, f) == prev;
        assert Load(days, lines, 0) == prevFull;
      case Some(rec) =>
        assert Agree(prev, prevFull, f);
        AddAgrees(prev, prevFull, f, rec.day, rec.text);
        assert Load(days, lines, f) == AddNote(prev, rec.day, if rec.day == f || f == 0 then Some(rec.text) else None);
        assert Load(days, lines, 0) == AddNote(prevFull, rec.day, Some(rec.text));
    }
  }

  /** Two tables that mark the same days and agree on day f. */
  ghost predicate Agree(a: seq<Date>, b: seq<Date>, f: nat) {
    |a| == |b|
    && (forall i :: 0 <= i < |a| ==> a[i].isSig == b[i].isSig)
    && (1 <= f <= |a| ==> a[f - 1] == b[f - 1])
  }

  /** One decoded line keeps a filtered and a full load in agreement. */
  lemma AddAgrees(a: seq<Date>, b: seq<Date>, f: nat, day: nat, text: string)
    requires Agree(a, b, f)
    ensures Agree(AddNote(a, day, if day == f || f == 0 then Some(text) else None), AddNote(b, day, Some(text)), f)
  {
  }

  // ---- save_new_sig_dates ----

  /** The lines save_new_sig_dates writes: `DD;note` for every significant day, in day order. */
  function Save(days: seq<Date>): (r: seq<string>)
    requires AllLoaded(days)
    ensures |r| <= |days|
    decreases |days|
  {
    if |days| == 0 then []
    else
      var last := days[|days| - 1];
      Save(days[..|days| - 1]) + (if last.isSig then [Encode(last.mday, last.note.value)] else [])
  }

  /** Nothing is written exactly when no day is significant. */
  lemma {:induction false} SaveEmpty(days: seq<Date>)
    requires AllLoaded(days)
    ensures Save(days) == [] <==> forall i :: 0 <= i < |days| ==> !days[i].isSig
    decreases |days|
  {
    if |days| > 0 {
      var init := days[..|days| - 1];
      assert forall i :: 0 <= i < |init| ==> init[i] == days[i];
      SaveEmpty(init);
    }
  }

  lemma SaveSnoc(days: seq<Date>, d: Date)
    requires AllLoaded(days + [d]) && (d.isSig ==> d.note.Some?)
    ensures AllLoaded(days)
    ensures Save(days + [d]) == Save(days) + (if d.isSig then [Encode(d.mday, d.note.value)] else [])
  {
    assert (days + [d])[..|days|] == days;
    assert forall i :: 0 <= i < |days| ==> days[i] == (days + [d])[i];
  }

  /**
   * Every saved line is one that the load loop reads back whole: it ends in
   * its only newline and fits the line buffer.
   */
  lemma {:induction false} SavedLinesFit(days: seq<Date>)
    requires WellFormed(days) && AllLoaded(days) && CleanNotes(days) && |days| <= MaxDatesInMonth
    requires NotesFit(days)
    ensures ReadableLines(Save(days))
    decreases |days|
  {
    if |days| > 0 {
      var init := days[..|days| - 1];
      var last := days[|days| - 1];
      assert days == init + [last];
      SavablePrefix(days);
      SaveSnoc(init, last);
      SavedLinesFit(init);
      LastReadable(last);
      ReadableAppend(Save(init), if last.isSig then [Encode(last.mday, last.note.value)] else []);
    }
  }

  /** Lines that fgets reads back one at a time: each ends in its only newline and fits the line buffer. */
  ghost predicate ReadableLines(lines: seq<string>) {
    forall k :: 0 <= k < |lines| ==> 0 < |lines[k]| && lines[k][|lines[k]| - 1] == '\n' && IsLine(lines[k])
  }

  /** What SavedLinesFit asks of a table holds of the table without its last day, and the last day is at most day 31. */
  lemma SavablePrefix(days: seq<Date>)
    requires |days| > 0 && WellFormed(days) && AllLoaded(days) && CleanNotes(days) && |days| <= MaxDatesInMonth
    requires NotesFit(days)
    ensures var init := days[..|days| - 1];
            WellFormed(init) && AllLoaded(init) && CleanNotes(init) && NotesFit(init)
    ensures var last := days[|days| - 1];
            last.mday <= 99 && (last.isSig ==> last.note.Some? && CleanNote(last.note.value) && |last.note.value| <= MaxNoteLen)
  {
    var init := days[..|days| - 1];
    assert forall i :: 0 <= i < |init| ==> init[i] == days[i];
  }

  /** The line saved for one day, if any, is readable. */
  lemma LastReadable(last: Date)
    requires last.mday <= 99 && (last.isSig ==> last.note.Some? && CleanNote(last.note.value) && |last.note.value| <= MaxNoteLen)
    ensures last.isSig ==> ReadableLines([Encode(last.mday, last.note.value)])
    ensures !last.isSig ==> ReadableLines([])
  {
    if last.isSig {
      EncodeFitsLine(last.mday, last.note.value);
    }
  }

  /** Lines that each end in their only newline are the reads fgets makes of their concatenation. */
  lemma ReadableAreReads(lines: seq<string>)
    requires ReadableLines(lines)
    ensures FileReads(lines)
  {
  }

  lemma ReadableAppend(a: seq<string>, b: seq<string>)
    requires ReadableLines(a) && ReadableLines(b)
    ensures ReadableLines(a + b)
  {
    assert forall k :: 0 <= k < |a + b| ==> (a + b)[k] == if k < |a| then a[k] else b[k - |a|];
  }

  /**
   * Saving and loading again restores the table: loading the saved lines,
   * with filter 0, into a freshly populated table of n >= |days| days gives
   * back days followed by the untouched rest.
   */
  lemma {:induction false} LoadSaved(days: seq<Date>, n: nat)
    requires WellFormed(days) && AllLoaded(days) && CleanNotes(days)
    requires |days| <= n && |days| <= 99
    ensures Load(Fresh(n), Save(days), 0) == days + Fresh(n)[|days|..]
    decreases |days|
  {
    if |days| == 0 {
      assert days + Fresh(n)[0..] == Fresh(n);
    } else {
      var init := days[..|days| - 1];
      var last := days[|days| - 1];
      assert days == init + [last];
      assert forall i :: 0 <= i < |init| ==> init[i] == days[i];
      SaveSnoc(init, last);
      LoadSaved(init, n);
      var extra := if last.isSig then [Encode(last.mday, last.note.value)] else [];
      LoadAppend(Fresh(n), Save(init), extra, 0);
      LoadSavedStep(init, last, n);
    }
  }

  /** The step of LoadSaved: the line of the last day, loaded into the table restored so far, restores that day. */
  lemma LoadSavedStep(init: seq<Date>, last: Date, n: nat)
    requires |init| < n && |init| < 99
    requires last.mday == |init| + 1 && (!last.isSig ==> last.note == None)
    requires last.isSig ==> last.note.Some? && CleanNote(last.note.value)
    ensures var extra := if last.isSig then [Encode(last.mday, last.note.value)] else [];
            Load(init + Fresh(n)[|init|..], extra, 0) == (init + [last]) + Fresh(n)[|init| + 1..]
  {
    var f := Fresh(n);
    var rest := f[|init| + 1..];
    DropFirst(f, |init|);
    var mid := init + ([f[|init|]] + rest);
    assert init + f[|init|..] == mid;
    if last.isSig {
      var line := Encode(last.mday, last.note.value);
      DecodeEncode(last.mday, last.note.value);
      LoadOne(mid, line, 0);
      UpdateMiddle(init, f[|init|], last, rest);
    } else {
      assert f[|init|] == last;
    }
  }

  lemma DropFirst<T>(s: seq<T>, k: nat)
    requires k < |s|
    ensures s[k..] == [s[k]] + s[k + 1..]
  {
  }

  lemma UpdateMiddle<T>(a: seq<T>, x: T, y: T, b: seq<T>)
    ensures (a + ([x] + b))[|a| := y] == (a + [y]) + b
  {
    assert forall i :: 0 <= i < |a| + 1 + |b| ==> (a + ([x] + b))[|a| := y][i] == ((a + [y]) + b)[i];
  }

  /** The save file of a month reloads as the same month. */
  lemma RoundTrip(days: seq<Date>)
    requires WellFormed(days) && AllLoaded(days) && CleanNotes(days) && |days| <= MaxDatesInMonth
    requires NotesFit(days)
    ensures FileReads(Save(days))
    ensures Load(Fresh(|days|), Save(days), 0) == days
  {
    SavedLinesFit(days);
    ReadableAreReads(Save(days));
    LoadSaved(days, |days|);
    assert Fresh(|days|)[|days|..] == [];
  }

  /** Loading with filter 0 into a fresh table leaves a table that can be saved. */
  lemma FullLoad(n: nat, lines: seq<string>)
    ensures WellFormed(Load(Fresh(n), lines, 0)) && AllLoaded(Load(Fresh(n), lines, 0))
  {
    LoadKeeps(Fresh(n), lines, 0);
  }

  /**
   * `alm sig <date>`: after the note is added and the month saved, the save
   * file reloads with that note on that day and every other day as before.
   */
  lemma SigPersists(days: seq<Date>, date: nat, note: string)
    requires WellFormed(days) && AllLoaded(days) && CleanNotes(days) && |days| <= MaxDatesInMonth
    requires NotesFit(days) && 1 <= date <= |days| && CleanNote(note) && |note| <= MaxNoteLen
    ensures FileReads(Save(AddNote(days, date, Some(note))))
    ensures var after := AddNote(days, date, Some(note));
            var reread := Load(Fresh(|days|), Save(after), 0);
            reread[date - 1] == Date(date, true, Some(note))
            && forall i :: 0 <= i < |days| && i != date - 1 ==> reread[i] == days[i]
  {
    var after := AddNote(days, date, Some(note));
    AddKeeps(days, date, Some(note));
    RoundTrip(after);
  }

  /** `alm rm <date>`: after removal and save, the day reloads as not significant and no other day changes. */
  lemma RmPersists(days: seq<Date>, date: nat)
    requires WellFormed(days) && AllLoaded(days) && CleanNotes(days) && |days| <= MaxDatesInMonth
    requires NotesFit(days) && 1 <= date <= |days|
    ensures FileReads(Save(RemoveNote(days, date)))
    ensures var reread := Load(Fresh(|days|), Save(RemoveNote(days, date)), 0);
            reread[date - 1] == Date(date, false, None)
            && forall i :: 0 <= i < |days| && i != date - 1 ==> reread[i] == days[i]
  {
    RemoveKeeps(days, date);
    RoundTrip(RemoveNote(days, date));
  }

  // ---- print_calendar ----

  /**
   * The drawing loop of print_calendar over the dates of the month: blanks
   * up to column first, then one cell per day, styled by whether it is today
   * and whether it is significant, and a new row once seven cells are drawn.
   */
  method DrawGrid(first: nat, today: nat, days: seq<Date>) returns (rows: seq<seq<Layout.Cell>>)
    requires first < 7
    ensures rows == Layout.Grid(first, today, Flags(days))
  {
    ghost var cells := Layout.Blanks(first) + Layout.DayCells(today, Flags(days));
    assert cells[..first] == Layout.Blanks(first);
    rows := DrawDays(first, today, days, cells);
  }

  /**
   * The loop of DrawGrid, against any cells that hold first blanks and then
   * the styled days: it draws them in rows of seven.
   */
  method DrawDays(first: nat, today: nat, days: seq<Date>, ghost cells: seq<Layout.Cell>) returns (rows: seq<seq<Layout.Cell>>)
    requires first < 7 && |cells| == first + |days|
    requires cells[..first] == Layout.Blanks(first)
    requires forall c :: 0 <= c < |days| ==> cells[first + c] == Layout.Day(c + 1, Layout.StyleOf(c + 1 == today, days[c].isSig))
    ensures rows == Layout.Chunk(cells)
  {
    var begin := first;
    var done: seq<seq<Layout.Cell>> := [];
    var row := Layout.Blanks(begin);
    var current := 0;
    assert cells[..first] == row;
    while current < |days|
      invariant current <= |days| && begin <= 7 && |row| == begin
      invariant |row| == 0 ==> |done| == 0 || current < |days|
      invariant Layout.Drawn(cells, done, row, first + current)
      decreases 2 * (|days| - current) + (if begin == 7 then 1 else 0)
    {
      if begin == 7 {
        Layout.BreakRow(cells, done, row, first + current);
        done := done + [row];
        row := [];
        begin := 0;
      } else {
        var style;
        if current + 1 == today {
          style := if days[current].isSig then Layout.TodayNoted else Layout.Today;
        } else if days[current].isSig {
          style := Layout.Noted;
        } else {
          style := Layout.Plain;
        }
        var cell := Layout.Day(current + 1, style);
        assert cell == cells[first + current];
        Layout.DrawCell(cells, done, row, first + current);
        row := row + [cell];
        current := current + 1;
        begin := begin + 1;
      }
    }
    Layout.DrawnAll(cells, done, row);
    rows := done + [row];
  }

  // ---- the Calendar object ----

  /** The Calendar struct: header fields and the fixed array of 31 dates, of which cnt_dates are in use. */
  class Calendar {
    var firstWeekday: nat
    var currMonth: nat
    var currYear: nat
    var currMday: nat
    var cntDates: nat
    const dates: array<Date>

    /**
     * The month fits the array, its first day has a weekday column, today is
     * a day 1..31, and the dates in use are well formed. (The header fields
     * are set once, by the constructor, which states how.)
     */
    ghost predicate Valid()
      reads this, dates
    {
      dates.Length == MaxDatesInMonth
      && currMonth < 12 && currYear < 0x1_0000
      && cntDates <= MaxDatesInMonth && firstWeekday < 7
      && 1 <= currMday <= MaxDatesInMonth
      && WellFormed(dates[..cntDates])
    }

    /** The dates of the month. */
    function Days(): (r: seq<Date>)
      reads this, dates
      requires cntDates <= dates.Length
    {
      dates[..cntDates]
    }

    /**
     * init_calendar(month, year), with the local clock's year, month (0..11)
     * and day passed in: a zero month or year stands for the current one, the
     * year is stored as a uint16, and the header is computed from them.
     */
    constructor (month: int, year: int, nowYear: int, nowMonth: int, nowMday: int)
      requires 0 <= month < 12 && 0 <= nowMonth < 12 && 1 <= nowMday <= MaxDatesInMonth
      ensures Valid() && fresh(dates)
      ensures currMonth == (if month != 0 then month else nowMonth)
      ensures currYear == (if year != 0 then year else nowYear) % 0x1_0000
      ensures currMday == nowMday
      ensures cntDates == DateMath.DaysInMonth(currMonth + 1, currYear) && 28 <= cntDates <= 31
      ensures firstWeekday == DateMath.FirstDowZeller(currMonth + 1, currYear)
      ensures Days() == Fresh(cntDates)
    {
      var m: nat := if month != 0 then month else nowMonth;
      var y: nat := (if year != 0 then year else nowYear) % 0x1_0000;
      currYear := y;
      currMonth := m;
      currMday := nowMday;
      cntDates := DateMath.DaysInMonth(m + 1, y);
      firstWeekday := DateMath.FirstDowZeller(m + 1, y);
      dates := new Date[MaxDatesInMonth](_ => Date(0, false, None));
      new;
      PopulateDates();
    }

    /** populate_dates: numbers the dates in use and clears their flags (their notes are still absent). */
    method PopulateDates()
      requires dates.Length == MaxDatesInMonth && cntDates <= dates.Length
      requires forall i :: 0 <= i < cntDates ==> dates[i].note == None
      modifies dates
      ensures Days() == Fresh(cntDates)
      ensures forall i :: cntDates <= i < dates.Length ==> dates[i] == old(dates[i])
    {
      var i := 0;
      while i < cntDates
        invariant 0 <= i <= cntDates
        invariant forall j :: 0 <= j < i ==> dates[j] == Date(j + 1, false, None)
        invariant forall j :: i <= j < dates.Length ==> dates[j] == old(dates[j])
      {
        dates[i] := dates[i].(mday := i + 1, isSig := false);
        i := i + 1;
      }
    }

    /** add_sig_date. */
    method AddSigDate(date: nat, note: Option<string>)
      requires Valid()
      modifies dates
      ensures Valid()
      ensures Days() == AddNote(old(Days()), date, note)
      ensures forall i :: cntDates <= i < dates.Length ==> dates[i] == old(dates[i])
    {
      AddKeeps(Days(), date, note);
      if date > cntDates || date < 1 {
        return;
      }
      dates[date - 1] := dates[date - 1].(isSig := true, note := note);
      assert Days() == AddNote(old(Days()), date, note);
    }

    /** remove_sig_date for a date of at least 1; `warned` is the warning for a date past the month. */
    method RemoveSigDate(date: nat) returns (warned: bool)
      requires Valid() && date >= 1
      modifies dates
      ensures Valid()
      ensures warned <==> date > cntDates
      ensures Days() == RemoveNote(old(Days()), date)
      ensures forall i :: cntDates <= i < dates.Length ==> dates[i] == old(dates[i])
    {
      RemoveKeeps(Days(), date);
      if date > cntDates {
        return true;
      }
      dates[date - 1] := dates[date - 1].(isSig := false, note := None);
      assert Days() == RemoveNote(old(Days()), date);
      return false;
    }

    /**
     * slurp_sig_dates: a missing save file (None) leaves the calendar as it
     * is; otherwise every line is read in order as ApplyLine says.
     */
    method SlurpSigDates(file: Option<seq<string>>, filter: nat)
      requires Valid()
      requires file.Some? ==> FileReads(file.value)
      modifies dates
      ensures Valid()
      ensures file.None? ==> Days() == old(Days())
      ensures file.Some? ==> Days() == Load(old(Days()), file.value, filter)
      ensures forall i :: cntDates <= i < dates.Length ==> dates[i] == old(dates[i])
    {
      if file.None? {
        return;
      }
      var lines := file.value;
      var k := 0;
      while k < |lines|
        invariant 0 <= k <= |lines|
        invariant Valid()
        invariant Days() == Load(old(Days()), lines[..k], filter)
        invariant forall i :: cntDates <= i < dates.Length ==> dates[i] == old(dates[i])
      {
        assert IsRead(lines[k], k == |lines| - 1);
        SlurpLine(lines[k], filter);
        assert lines[..k + 1][..k] == lines[..k];
        k := k + 1;
      }
      assert lines[..|lines|] == lines;
    }

    /** One pass of the load loop of slurp_sig_dates. */
    method SlurpLine(line: string, filter: nat)
      requires Valid() && IsLine(line)
      modifies dates
      ensures Valid()
      ensures Days() == ApplyLine(old(Days()), line, filter)
      ensures forall i :: cntDates <= i < dates.Length ==> dates[i] == old(dates[i])
    {
      var rec := ReadRecord(line);
      if rec.Some? {
        var r := rec.value;
        if r.day == filter || filter == 0 {
          AddSigDate(r.day, Some(r.text));
        } else {
          AddSigDate(r.day, None);
        }
      }
    }

    /** save_new_sig_dates: the lines it writes to the save file. */
    method SaveNewSigDates() returns (out: seq<string>)
      requires Valid() && AllLoaded(Days())
      ensures out == Save(Days())
    {
      out := [];
      var i := 0;
      while i < cntDates
        invariant 0 <= i <= cntDates
        invariant AllLoaded(dates[..i])
        invariant out == Save(dates[..i])
      {
        assert dates[..i + 1] == dates[..i] + [dates[i]];
        assert dates[..i + 1] == Days()[..i + 1];
        SaveSnoc(dates[..i], dates[i]);
        if dates[i].isSig {
          out := out + [Encode(dates[i].mday, dates[i].note.value)];
        }
        i := i + 1;
      }
    }

    /**
     * print_calendar: the rows of day cells it draws below the header, and
     * the note of today it reminds of, if today is significant and its note
     * is loaded.
     */
    method PrintCalendar() returns (rows: seq<seq<Layout.Cell>>, reminder: Option<string>)
      requires Valid()
      ensures rows == Layout.Grid(firstWeekday, currMday, Flags(Days()))
      ensures reminder.Some? <==> dates[currMday - 1].isSig && dates[currMday - 1].note.Some?
      ensures reminder.Some? ==> reminder == dates[currMday - 1].note
    {
      rows := DrawGrid(firstWeekday, currMday, dates[..cntDates]);
      if dates[currMday - 1].isSig && dates[currMday - 1].note.Some? {
        reminder := dates[currMday - 1].note;
      } else {
        reminder := None;
      }
    }
  }
}
