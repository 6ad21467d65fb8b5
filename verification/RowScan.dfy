/** The soft-wrapped rows of a text: two independently written scanners, and the rows they should agree on. */
module RowScan {
  import opened Bytes

  // ---- The scanners ----

  /** The loop of text_editor_find_line_start from its state (scan, count, start). */
  function Scan(t: seq<byte>, columns: nat, index: nat, scan: nat, count: nat, start: nat): nat
    requires scan <= index <= |t|
    decreases index - scan
  {
    if scan == index then start
    else if t[scan] == NEWLINE then Scan(t, columns, index, scan + 1, 0, scan + 1)
    else
      Scan(t, columns, index, scan + 1, if count + 1 >= columns then 0 else count + 1,
           if count == 0 then scan else start)
  }

  /** text_editor_find_line_start. */
  function LineStart(t: seq<byte>, index: nat, columns: nat): nat {
    if columns == 0 then 0 else Scan(t, columns, Min(index, |t|), 0, 0, 0)
  }

  /** The loop of text_editor_find_next_line_start from its state (index, count). */
  function NextFrom(t: seq<byte>, columns: nat, index: nat, count: nat): nat
    decreases |t| - index
  {
    if index >= |t| then |t|
    else if t[index] == NEWLINE || count + 1 >= columns then index + 1
    else NextFrom(t, columns, index + 1, count + 1)
  }

  /** text_editor_find_next_line_start. */
  function NextStart(t: seq<byte>, start: nat, columns: nat): nat {
    if columns == 0 then start else NextFrom(t, columns, start, 0)
  }

  /** The loop of text_editor_line_length from its state (index, count). */
  function LengthFrom(t: seq<byte>, columns: nat, index: nat, count: nat): (r: nat)
    ensures count <= r && (index <= |t| ==> index + (r - count) <= |t|)
    ensures count <= columns ==> r <= columns
    decreases |t| - index
  {
    if index >= |t| || count >= columns || t[index] == NEWLINE then count
    else LengthFrom(t, columns, index + 1, count + 1)
  }

  /** text_editor_line_length. */
  function LineLength(t: seq<byte>, start: nat, columns: nat): nat {
    LengthFrom(t, columns, start, 0)
  }

  /** text_editor_cursor_prev_line. */
  function Up(t: seq<byte>, cursor: nat, columns: nat): nat {
    var start := LineStart(t, cursor, columns);
    if start == 0 || start > cursor then cursor
    else
      var previous := LineStart(t, start - 1, columns);
      previous + Min(cursor - start, LineLength(t, previous, columns))
  }

  /** text_editor_cursor_next_line. */
  function Down(t: seq<byte>, cursor: nat, columns: nat): nat {
    var start := LineStart(t, cursor, columns);
    var next := NextStart(t, start, columns);
    if (next >= |t| && next == start) || start > cursor then cursor
    else next + Min(cursor - start, LineLength(t, next, columns))
  }

  // ---- The rows ----

  /** `row` is one of the starts obtained by iterating the forward scanner from `from`. */
  predicate Reaches(t: seq<byte>, columns: nat, from: nat, row: nat)
    requires 0 < columns
    decreases |t| - from
  {
    from == row || (from < |t| && NextStart(t, from, columns) > from
      && Reaches(t, columns, NextStart(t, from, columns), row))
  }

  predicate IsRow(t: seq<byte>, columns: nat, row: nat)
    requires 0 < columns
  {
    Reaches(t, columns, 0, row)
  }

  /** The forward scanner moves, within the text, and by at most one row's width or a newline. */
  lemma {:induction false} NextFromBounds(t: seq<byte>, columns: nat, index: nat, count: nat)
    requires index < |t|
    ensures index < NextFrom(t, columns, index, count) <= |t|
    decreases |t| - index
  {
    if !(t[index] == NEWLINE || count + 1 >= columns) && index + 1 < |t| {
      NextFromBounds(t, columns, index + 1, count + 1);
    }
  }

  /** From a row start to a position with no newline between and less than a row's width away, the forward scanner
      goes on from that position. */
  lemma {:induction false} NextFromSkips(t: seq<byte>, columns: nat, row: nat, n: nat)
    requires row + n <= |t| && n < columns && NEWLINE !in t[row..row + n]
    ensures NextFrom(t, columns, row, 0) == NextFrom(t, columns, row + n, n)
  {
    if n > 0 {
      assert t[row..row + n] == t[row..row + n - 1] + [t[row + n - 1]];
      NextFromSkips(t, columns, row, n - 1);
    }
  }

  /** The step from a row to the next one keeps being a row. */
  lemma {:induction false} NextIsRow(t: seq<byte>, columns: nat, from: nat, row: nat)
    requires 0 < columns && Reaches(t, columns, from, row) && row < |t|
    ensures Reaches(t, columns, from, NextStart(t, row, columns))
    decreases |t| - from
  {
    NextFromBounds(t, columns, row, 0);
    if from != row {
      NextIsRow(t, columns, NextStart(t, from, columns), row);
    } else {
      var next := NextStart(t, row, columns);
      assert Reaches(t, columns, next, next);
    }
  }

  lemma {:induction false} ReachedLater(t: seq<byte>, columns: nat, from: nat, row: nat)
    requires 0 < columns && Reaches(t, columns, from, row)
    ensures from <= row && (from < row ==> from < |t| && NextStart(t, from, columns) <= row)
    decreases |t| - from
  {
    if from != row {
      ReachedLater(t, columns, NextStart(t, from, columns), row);
    }
  }

  /** No row starts strictly between a row and the next one. */
  lemma {:induction false} NoRowBetween(t: seq<byte>, columns: nat, from: nat, a: nat, b: nat)
    requires 0 < columns && Reaches(t, columns, from, a) && Reaches(t, columns, from, b) && a < b
    ensures a < |t| && NextStart(t, a, columns) <= b
    decreases |t| - from
  {
    ReachedLater(t, columns, from, a);
    ReachedLater(t, columns, from, b);
    if from != a {
      NoRowBetween(t, columns, NextStart(t, from, columns), a, b);
    }
  }

  /** `start` is the last row start before `i`. */
  ghost predicate LastRowBefore(t: seq<byte>, columns: nat, start: nat, i: nat)
    requires 0 < columns
  {
    && start < i && IsRow(t, columns, start)
    && forall row: nat :: IsRow(t, columns, row) && row < i ==> row <= start
  }

  lemma LastBeforeNext(t: seq<byte>, columns: nat, start: nat, i: nat)
    requires 0 < columns && IsRow(t, columns, start) && start < i <= |t| && i <= NextStart(t, start, columns)
    ensures LastRowBefore(t, columns, start, i)
  {
    forall row: nat | IsRow(t, columns, row) && row < i
      ensures row <= start
    {
      if start < row {
        NoRowBetween(t, columns, 0, start, row);
      }
    }
  }

  /** Position i opens a line of its own accord: at the beginning or just after a newline. */
  predicate OpensLine(t: seq<byte>, i: nat)
    requires i <= |t|
  {
    i == 0 || t[i - 1] == NEWLINE
  }

  /** The answer that the backward scanner should give at i. */
  ghost predicate StartFor(t: seq<byte>, columns: nat, start: nat, i: nat)
    requires 0 < columns && i <= |t|
  {
    if OpensLine(t, i) then start == i && IsRow(t, columns, i) else LastRowBefore(t, columns, start, i)
  }

  /** What the backward scanner's loop keeps: `scan - count` is the start of the current row, and `start` is what it
      would answer at `scan`. */
  ghost predicate Scanning(t: seq<byte>, columns: nat, scan: nat, count: nat, start: nat)
    requires 0 < columns && scan <= |t|
  {
    && count < columns && count <= scan && IsRow(t, columns, scan - count)
    && NEWLINE !in t[scan - count..scan]
    && (count > 0 ==> start == scan - count)
    && StartFor(t, columns, start, scan)
  }

  lemma ScanNewline(t: seq<byte>, columns: nat, scan: nat, count: nat, start: nat)
    requires 0 < columns && scan < |t| && Scanning(t, columns, scan, count, start) && t[scan] == NEWLINE
    ensures Scanning(t, columns, scan + 1, 0, scan + 1)
  {
    hide LastRowBefore;
    var row := scan - count;
    NextFromSkips(t, columns, row, count);
    NextIsRow(t, columns, 0, row);
  }

  lemma ScanChar(t: seq<byte>, columns: nat, scan: nat, count: nat, start: nat)
    requires 0 < columns && scan < |t| && Scanning(t, columns, scan, count, start) && t[scan] != NEWLINE
    ensures Scanning(t, columns, scan + 1, if count + 1 >= columns then 0 else count + 1, scan - count)
  {
    hide LastRowBefore;
    var row := scan - count;
    NextFromSkips(t, columns, row, count);
    assert t[row..scan + 1] == t[row..scan] + [t[scan]];
    if count + 1 >= columns {
      NextIsRow(t, columns, 0, row);
    } else if scan + 1 < |t| {
      NextFromBounds(t, columns, scan + 1, count + 1);
    }
    LastBeforeNext(t, columns, row, scan + 1);
  }

  lemma {:induction false} ScanAnswers(t: seq<byte>, columns: nat, index: nat, scan: nat, count: nat, start: nat)
    requires 0 < columns && scan <= index <= |t| && Scanning(t, columns, scan, count, start)
    ensures StartFor(t, columns, Scan(t, columns, index, scan, count, start), index)
    decreases index - scan
  {
    hide StartFor, IsRow;
    if scan < index {
      if t[scan] == NEWLINE {
        ScanNewline(t, columns, scan, count, start);
        ScanAnswers(t, columns, index, scan + 1, 0, scan + 1);
      } else {
        ScanChar(t, columns, scan, count, start);
        ScanAnswers(t, columns, index, scan + 1, if count + 1 >= columns then 0 else count + 1, scan - count);
      }
    }
  }

  // ---- Agreement ----

  /** The backward scanner answers the position itself at the beginning and after a newline, and otherwise the last of
      the rows that the forward scanner generates before it. */
  lemma ScannersAgree(t: seq<byte>, columns: nat, i: nat)
    requires 0 < columns && i <= |t|
    ensures StartFor(t, columns, LineStart(t, i, columns), i)
  {
    hide StartFor;
    assert Scanning(t, columns, 0, 0, 0) by {
      FirstRow(t, columns);
    }
    ScanAnswers(t, columns, i, 0, 0, 0);
  }

  lemma FirstRow(t: seq<byte>, columns: nat)
    requires 0 < columns
    ensures IsRow(t, columns, 0) && StartFor(t, columns, 0, 0)
  {
  }

  /** Every answer is a row, at or before the position and at most one row's step away from it. */
  lemma StartBounds(t: seq<byte>, columns: nat, i: nat)
    requires 0 < columns && i <= |t|
    ensures var start := LineStart(t, i, columns);
      IsRow(t, columns, start) && start <= i && i <= NextStart(t, start, columns) <= |t|
  {
    hide LineStart, Reaches;
    ScannersAgree(t, columns, i);
    var start := LineStart(t, i, columns);
    if start < |t| {
      NextFromBounds(t, columns, start, 0);
      NextIsRow(t, columns, 0, start);
      assert IsRow(t, columns, NextStart(t, start, columns));
    }
  }

  // ---- Vertical moves ----

  /** The length of a row: its characters up to a newline, the end of the text or the row's width. */
  lemma {:induction false} LengthMeaning(t: seq<byte>, columns: nat, index: nat, count: nat)
    requires index <= |t| && count <= columns
    ensures var n := LengthFrom(t, columns, index, count) - count;
      && 0 <= n && index + n <= |t| && NEWLINE !in t[index..index + n]
      && (index + n == |t| || count + n == columns || t[index + n] == NEWLINE)
    decreases |t| - index
  {
    if !(index >= |t| || count >= columns || t[index] == NEWLINE) {
      LengthMeaning(t, columns, index + 1, count + 1);
      var n := LengthFrom(t, columns, index, count) - count;
      assert t[index..index + n] == [t[index]] + t[index + 1..index + n];
    }
  }

  /** Up leaves the cursor where the backward scanner answers 0, and otherwise strictly lowers it. */
  lemma UpLowers(t: seq<byte>, cursor: nat, columns: nat)
    requires cursor <= |t|
    ensures LineStart(t, cursor, columns) == 0 ==> Up(t, cursor, columns) == cursor
    ensures LineStart(t, cursor, columns) != 0 ==> Up(t, cursor, columns) < cursor
  {
    hide LineStart, NextStart, IsRow;
    if columns > 0 {
      StartBounds(t, columns, cursor);
      var start := LineStart(t, cursor, columns);
      if start > 0 {
        StartBounds(t, columns, start - 1);
      }
    } else {
      NoColumns(t, cursor);
    }
  }

  lemma NoColumns(t: seq<byte>, i: nat)
    ensures LineStart(t, i, 0) == 0 && NextStart(t, i, 0) == i && LineLength(t, i, 0) == 0
  {
  }

  /** Down never passes the end, and never lowers the cursor exactly when there are columns or nothing to lower: with
      no columns the code sends the cursor to 0. */
  lemma DownKeeps(t: seq<byte>, cursor: nat, columns: nat)
    requires cursor <= |t|
    ensures Down(t, cursor, columns) <= |t|
    ensures Down(t, cursor, columns) >= cursor <==> columns > 0 || cursor == 0
  {
    hide LineStart, NextStart, IsRow, LengthFrom;
    if columns > 0 {
      StartBounds(t, columns, cursor);
    } else {
      NoColumns(t, cursor);
      NoColumns(t, 0);
    }
  }

  /** Down moves the cursor except in exactly two places: at the end of the text, and at the end of a full row that a
      newline follows, where the row below it is empty. */
  lemma DownStuckIff(t: seq<byte>, cursor: nat, columns: nat)
    requires 0 < columns && cursor <= |t|
    ensures Down(t, cursor, columns) == cursor
       <==> cursor == NextStart(t, LineStart(t, cursor, columns), columns) && (cursor == |t| || t[cursor] == NEWLINE)
  {
    hide LineStart, NextStart, IsRow;
    StartBounds(t, columns, cursor);
    var next := NextStart(t, LineStart(t, cursor, columns), columns);
    LengthMeaning(t, columns, next, 0);
    NextMoves(t, columns, LineStart(t, cursor, columns));
  }

  lemma NextMoves(t: seq<byte>, columns: nat, start: nat)
    requires 0 < columns && start <= |t|
    ensures NextStart(t, start, columns) == start <==> start == |t|
  {
    if start < |t| {
      NextFromBounds(t, columns, start, 0);
    }
  }

  /** So Down cannot leave the end of a full row that is followed by a newline, although another row follows. */
  lemma DownCanStick()
    ensures var t := [97, 98, NEWLINE, 99];
      Down(t, 2, 2) == 2 && IsRow(t, 2, 3)
  {
    var t := [97, 98, NEWLINE, 99];
    assert NextFrom(t, 2, 0, 0) == 2;
    assert NextFrom(t, 2, 2, 0) == 3;
    assert Scan(t, 2, 2, 2, 0, 0) == 0;
    assert Scan(t, 2, 2, 1, 1, 0) == 0;
    assert LineStart(t, 2, 2) == 0;
    assert Reaches(t, 2, 3, 3) && Reaches(t, 2, 2, 3);
  }

  // ---- Where the moves land ----

  /** Row `row` has n characters: none is a newline, and then the text, the row's width or the line ends. */
  predicate HasLength(t: seq<byte>, columns: nat, row: nat, n: nat) {
    && row + n <= |t| && n <= columns && NEWLINE !in t[row..row + n]
    && (row + n == |t| || n == columns || t[row + n] == NEWLINE)
  }

  lemma LengthUnique(t: seq<byte>, columns: nat, row: nat, n: nat)
    requires HasLength(t, columns, row, n)
    ensures LineLength(t, row, columns) == n
  {
    hide LengthFrom;
    LengthMeaning(t, columns, row, 0);
    NoNewline(t, row, n);
    NoNewline(t, row, LineLength(t, row, columns));
  }

  lemma NoNewline(t: seq<byte>, row: nat, n: nat)
    requires row + n <= |t| && NEWLINE !in t[row..row + n]
    ensures forall k :: row <= k < row + n ==> t[k] != NEWLINE
  {
    forall k | row <= k < row + n
      ensures t[k] != NEWLINE
    {
      assert t[row..row + n][k - row] == t[k];
    }
  }

  lemma StartUnique(t: seq<byte>, columns: nat, start: nat, i: nat)
    requires 0 < columns && i <= |t| && StartFor(t, columns, start, i)
    ensures LineStart(t, i, columns) == start
  {
    hide LineStart, IsRow;
    ScannersAgree(t, columns, i);
  }

  /** `below` is the first row start after `row`. */
  ghost predicate FirstRowAfter(t: seq<byte>, columns: nat, below: nat, row: nat)
    requires 0 < columns
  {
    && row < below && IsRow(t, columns, below)
    && forall other: nat :: IsRow(t, columns, other) && row < other ==> below <= other
  }

  lemma NextIsFirstAfter(t: seq<byte>, columns: nat, row: nat)
    requires 0 < columns && IsRow(t, columns, row) && row < |t|
    ensures FirstRowAfter(t, columns, NextStart(t, row, columns), row)
  {
    NextFromBounds(t, columns, row, 0);
    NextIsRow(t, columns, 0, row);
    forall other: nat | IsRow(t, columns, other) && row < other
      ensures NextStart(t, row, columns) <= other
    {
      NoRowBetween(t, columns, 0, row, other);
    }
  }

  /** Up leaves the cursor alone in the first row. From any other it goes to the row that the position before the row
      start belongs to, in the same column, or at the end of that row when it is shorter. */
  lemma UpLands(t: seq<byte>, cursor: nat, columns: nat, start: nat, above: nat, n: nat)
    requires 0 < columns && cursor <= |t| && StartFor(t, columns, start, cursor)
    requires 0 < start ==> StartFor(t, columns, above, start - 1) && HasLength(t, columns, above, n)
    ensures Up(t, cursor, columns) == if start == 0 then cursor else above + Min(cursor - start, n)
  {
    hide LineStart, LineLength, StartFor, HasLength;
    StartUnique(t, columns, start, cursor);
    StartBounds(t, columns, cursor);
    if 0 < start {
      StartUnique(t, columns, above, start - 1);
      LengthUnique(t, columns, above, n);
    }
  }

  /** Down leaves the cursor alone at the end of a text that ends in a row start. Otherwise it goes to the first row
      after its own, in the same column, or at the end of that row when it is shorter. */
  lemma DownLands(t: seq<byte>, cursor: nat, columns: nat, start: nat, below: nat, n: nat)
    requires 0 < columns && cursor <= |t| && StartFor(t, columns, start, cursor)
    requires start < |t| ==> FirstRowAfter(t, columns, below, start) && HasLength(t, columns, below, n)
    ensures Down(t, cursor, columns) == if start == |t| then cursor else below + Min(cursor - start, n)
  {
    hide LineStart, NextStart, LineLength, StartFor, HasLength, IsRow;
    StartUnique(t, columns, start, cursor);
    StartBounds(t, columns, cursor);
    NextMoves(t, columns, start);
    if start < |t| {
      NextIsFirstAfter(t, columns, start);
      LengthUnique(t, columns, below, n);
    }
  }

  /** The row where Up lands is the one just above, unless that row is a single position that no line begins at: the
      newline behind a full row, or any row when there is one column. Such a row is passed over. */
  lemma UpRowIsAboveIff(t: seq<byte>, columns: nat, start: nat, row: nat)
    requires 0 < columns && 0 < start <= |t| && IsRow(t, columns, start) && LastRowBefore(t, columns, row, start)
    ensures StartFor(t, columns, row, start - 1) <==> row < start - 1 || OpensLine(t, row)
  {
    hide IsRow;
    if row < start - 1 && OpensLine(t, start - 1) && start - 1 > 0 {
      RowAfterNewline(t, columns, start - 2);
    }
  }

  /** The position after a newline is a row start. */
  lemma RowAfterNewline(t: seq<byte>, columns: nat, i: nat)
    requires 0 < columns && i < |t| && t[i] == NEWLINE
    ensures IsRow(t, columns, i + 1)
  {
    hide IsRow;
    ScannersAgree(t, columns, i + 1);
  }

  // ---- Down after Up ----

  /** A row and what ends it: a newline behind it belongs to it, the end of the text and the row's width do not. */
  lemma RowSpan(t: seq<byte>, columns: nat, row: nat)
    requires 0 < columns && row < |t|
    ensures var n := LineLength(t, row, columns);
      && HasLength(t, columns, row, n)
      && NextStart(t, row, columns) == row + n + if row + n < |t| && n < columns then 1 else 0
  {
    hide LengthFrom;
    LengthMeaning(t, columns, row, 0);
    NextSpan(t, columns, row, 0);
  }

  lemma {:induction false} NextSpan(t: seq<byte>, columns: nat, index: nat, count: nat)
    requires count < columns && index < |t|
    ensures var n := LengthFrom(t, columns, index, count) - count;
      NextFrom(t, columns, index, count) == index + n + if index + n < |t| && count + n < columns then 1 else 0
    decreases |t| - index
  {
    if t[index] != NEWLINE && count + 1 < columns && index + 1 < |t| {
      NextSpan(t, columns, index + 1, count + 1);
    }
  }

  /** The cursor is never past the end of its row. */
  lemma ColumnInRow(t: seq<byte>, columns: nat, cursor: nat)
    requires 0 < columns && cursor <= |t|
    ensures var start := LineStart(t, cursor, columns);
      start <= cursor <= start + LineLength(t, start, columns)
  {
    hide LineStart, NextStart, LineLength, IsRow, LastRowBefore;
    StartBounds(t, columns, cursor);
    ScannersAgree(t, columns, cursor);
    var start := LineStart(t, cursor, columns);
    if start < |t| {
      RowSpan(t, columns, start);
    }
  }

  /** A position inside a row, past its start, belongs to that row. */
  lemma InsideRow(t: seq<byte>, columns: nat, row: nat, c: nat)
    requires 0 < columns && IsRow(t, columns, row) && row < |t| && 0 < c <= LineLength(t, row, columns)
    ensures row + c <= |t| && LineStart(t, row + c, columns) == row
  {
    hide LineStart, NextStart, LineLength, IsRow;
    RowSpan(t, columns, row);
    NoNewline(t, row, LineLength(t, row, columns));
    LastBeforeNext(t, columns, row, row + c);
    StartUnique(t, columns, row, row + c);
  }

  /** From a row above `row`, Down goes no further than the end of `row`. */
  lemma DownAtMost(t: seq<byte>, columns: nat, u: nat, row: nat)
    requires 0 < columns && u <= |t| && IsRow(t, columns, row) && row < |t| && LineStart(t, u, columns) < row
    ensures Down(t, u, columns) <= row + LineLength(t, row, columns)
  {
    hide LineStart, NextStart, LineLength, IsRow;
    StartBounds(t, columns, u);
    var from := LineStart(t, u, columns);
    NextIsFirstAfter(t, columns, from);
    var next := NextStart(t, from, columns);
    if next < row {
      NextIsFirstAfter(t, columns, next);
      RowSpan(t, columns, next);
    }
  }

  /** The row above, when Up can reach it, and what Down does from there. */
  lemma DownFromAbove(t: seq<byte>, columns: nat, start: nat, row: nat, c: nat)
    requires 0 < columns && start <= |t| && IsRow(t, columns, start) && LastRowBefore(t, columns, row, start)
    requires c <= LineLength(t, row, columns) && (c == 0 ==> OpensLine(t, row))
    ensures row + c <= |t| && Down(t, row + c, columns) == start + Min(c, LineLength(t, start, columns))
  {
    hide LineStart, NextStart, LineLength, IsRow;
    RowAbove(t, columns, start, row);
    RowSpan(t, columns, row);
    if c == 0 {
      StartUnique(t, columns, row, row);
    } else {
      InsideRow(t, columns, row, c);
    }
  }

  lemma RowAbove(t: seq<byte>, columns: nat, start: nat, row: nat)
    requires 0 < columns && start <= |t| && IsRow(t, columns, start) && LastRowBefore(t, columns, row, start)
    ensures NextStart(t, row, columns) == start
  {
    hide NextStart, IsRow;
    NextIsFirstAfter(t, columns, row);
  }

  /** The backward scanner's answer lies before a position that opens no line. */
  lemma AnswerBefore(t: seq<byte>, columns: nat, i: nat)
    requires 0 < columns && i <= |t|
    ensures LineStart(t, i, columns) <= i && (!OpensLine(t, i) ==> LineStart(t, i, columns) < i)
  {
    hide LineStart, IsRow;
    ScannersAgree(t, columns, i);
  }

  /** When Up passes over the row above, Down comes back to that row at most. */
  lemma PassedOver(t: seq<byte>, cursor: nat, columns: nat, start: nat)
    requires 0 < columns && cursor <= |t| && StartFor(t, columns, start, cursor) && 0 < start <= |t|
    requires LastRowBefore(t, columns, start - 1, start) && IsRow(t, columns, start) && !OpensLine(t, start - 1)
    ensures Up(t, cursor, columns) <= |t|
    ensures Down(t, Up(t, cursor, columns), columns) <= start - 1 + LineLength(t, start - 1, columns)
  {
    hide LineStart, NextStart, LineLength, IsRow, HasLength, Down;
    var row := start - 1;
    StartUnique(t, columns, start, cursor);
    AnswerBefore(t, columns, row);
    StartBounds(t, columns, row);
    var above := LineStart(t, row, columns);
    RowSpan(t, columns, above);
    NextIsFirstAfter(t, columns, above);
    var u := Up(t, cursor, columns);
    AnswerBefore(t, columns, u);
    DownAtMost(t, columns, u, row);
  }

  /** Down undoes Up exactly when the row above is not passed over, is at least as long as the cursor's column, and is
      entered past its start or opens a line. */
  lemma DownUndoesUpIff(t: seq<byte>, cursor: nat, columns: nat, start: nat, row: nat, n: nat)
    requires 0 < columns && cursor <= |t| && StartFor(t, columns, start, cursor) && 0 < start <= |t|
    requires LastRowBefore(t, columns, row, start) && HasLength(t, columns, row, n)
    ensures start <= cursor && Up(t, cursor, columns) <= |t|
    ensures Down(t, Up(t, cursor, columns), columns) == cursor
       <==> (row < start - 1 || OpensLine(t, row)) && cursor - start <= n && (start < cursor || OpensLine(t, row))
  {
    hide LineStart, NextStart, LineLength, IsRow, Up, Down, HasLength;
    StartUnique(t, columns, start, cursor);
    StartBounds(t, columns, cursor);
    ColumnInRow(t, columns, cursor);
    LengthUnique(t, columns, row, n);
    RowAbove(t, columns, start, row);
    RowSpan(t, columns, row);
    InRow(t, columns, row, n);
    if row < start - 1 || OpensLine(t, row) {
      UpRowIsAboveIff(t, columns, start, row);
      UpLands(t, cursor, columns, start, row, n);
      var c := Min(cursor - start, n);
      if 0 < c || OpensLine(t, row) {
        DownFromAbove(t, columns, start, row, c);
      } else {
        AnswerBefore(t, columns, row);
        DownAtMost(t, columns, row, row);
      }
    } else {
      PassedOver(t, cursor, columns, start);
    }
  }

  lemma InRow(t: seq<byte>, columns: nat, row: nat, n: nat)
    requires HasLength(t, columns, row, n)
    ensures row + n <= |t| && n <= columns && forall k :: row <= k < row + n ==> t[k] != NEWLINE
  {
    NoNewline(t, row, n);
  }
}
