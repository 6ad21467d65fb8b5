/** The text editor's buffer, edited in place, and its cursor moves. */
module TextEditor {
  import opened Bytes
  import opened RowScan

  const TEXT_MAX := 4096

  // ---- Edits on values ----

  function Inserted(t: seq<byte>, cursor: nat, ch: byte): seq<byte>
    requires cursor <= |t|
  {
    t[..cursor] + [ch] + t[cursor..]
  }

  function Erased(t: seq<byte>, cursor: nat): seq<byte>
    requires 0 < cursor <= |t|
  {
    t[..cursor - 1] + t[cursor..]
  }

  /** Backspace undoes an insertion, and inserting the erased character again undoes a backspace. */
  lemma EditsUndo(t: seq<byte>, cursor: nat, ch: byte)
    requires cursor <= |t|
    ensures Erased(Inserted(t, cursor, ch), cursor + 1) == t
    ensures 0 < cursor ==> Inserted(Erased(t, cursor), cursor - 1, t[cursor - 1]) == t
  {
    var u := Inserted(t, cursor, ch);
    assert u[..cursor] == t[..cursor] && u[cursor + 1..] == t[cursor..];
    if 0 < cursor {
      var e := Erased(t, cursor);
      assert e[..cursor - 1] == t[..cursor - 1] && e[cursor - 1..] == t[cursor..];
    }
  }

  /** The text after the shift loop, character by character. */
  lemma InsertedIs(t: seq<byte>, cursor: nat, ch: byte, u: seq<byte>)
    requires cursor <= |t| && |u| == |t| + 1 && u[cursor] == ch
    requires forall k :: 0 <= k < cursor ==> u[k] == t[k]
    requires forall k :: cursor < k < |u| ==> u[k] == t[k - 1]
    ensures u == Inserted(t, cursor, ch)
  {
  }

  /** The text after the shift loop of a backspace, character by character. */
  lemma ErasedIs(t: seq<byte>, cursor: nat, u: seq<byte>)
    requires 0 < cursor <= |t| && |u| == |t| - 1
    requires forall k :: 0 <= k < cursor - 1 ==> u[k] == t[k]
    requires forall k :: cursor - 1 <= k < |u| ==> u[k] == t[k + 1]
    ensures u == Erased(t, cursor)
  {
  }

  class Editor {
    const text: array<byte>
    var length: nat
    var cursor: nat

    ghost predicate Valid()
      reads this, text
    {
      text.Length == TEXT_MAX && cursor <= length < TEXT_MAX && text[length] == NUL
    }

    ghost function Contents(): (t: seq<byte>)
      requires length <= text.Length
      reads this, text
      ensures |t| == length
    {
      text[..length]
    }

    constructor ()
      ensures Valid() && Contents() == [] && fresh(text)
    {
      text := new byte[TEXT_MAX](_ => NUL);
      length, cursor := 0, 0;
    }

    /** text_editor_insert_char: refused when the text and its NUL fill the buffer. */
    method InsertChar(ch: byte) returns (ok: bool)
      requires Valid()
      modifies this`length, this`cursor, text
      ensures Valid() && ok == (old(length) < 4095)
      ensures ok ==> Contents() == Inserted(old(Contents()), old(cursor), ch) && cursor == old(cursor) + 1
      ensures !ok ==> Contents() == old(Contents()) && cursor == old(cursor)
    {
      if length + 1 >= TEXT_MAX {
        return false;
      }
      var index := length;
      ghost var t := Contents();
      while index > cursor
        invariant length == |t| && cursor == old(cursor)
        invariant cursor <= index <= length
        invariant forall k :: 0 <= k <= index && k < length ==> text[k] == t[k]
        invariant forall k :: index < k <= length ==> text[k] == t[k - 1]
      {
        text[index] := text[index - 1];
        index := index - 1;
      }
      text[cursor] := ch;
      length := length + 1;
      cursor := cursor + 1;
      text[length] := NUL;
      InsertedIs(t, cursor - 1, ch, Contents());
      return true;
    }

    /** text_editor_backspace. */
    method Backspace()
      requires Valid()
      modifies this`length, this`cursor, text
      ensures Valid()
      ensures old(cursor) > 0 ==> Contents() == Erased(old(Contents()), old(cursor)) && cursor == old(cursor) - 1
      ensures old(cursor) == 0 ==> Contents() == old(Contents()) && cursor == 0
    {
      if cursor == 0 || length == 0 {
        return;
      }
      var index := cursor - 1;
      ghost var t := Contents();
      while index < length - 1
        invariant length == |t| && cursor == old(cursor)
        invariant cursor - 1 <= index <= length - 1
        invariant forall k :: 0 <= k < cursor - 1 || index <= k < length ==> text[k] == t[k]
        invariant forall k :: cursor - 1 <= k < index ==> text[k] == t[k + 1]
      {
        text[index] := text[index + 1];
        index := index + 1;
      }
      cursor := cursor - 1;
      length := length - 1;
      text[length] := NUL;
      ErasedIs(t, cursor + 1, Contents());
    }

    /** text_editor_find_line_start. */
    method FindLineStart(position: nat, columns: nat) returns (start: nat)
      requires Valid()
      ensures start == LineStart(Contents(), position, columns)
    {
      if columns == 0 {
        return 0;
      }
      var index := if position > length then length else position;
      ghost var t := Contents();
      var scan, count := 0, 0;
      start := 0;
      while scan < index
        invariant 0 <= scan <= index && 0 <= count && 0 <= start
        invariant LineStart(t, position, columns) == Scan(t, columns, index, scan, count, start)
      {
        if count == 0 {
          start := scan;
        }
        if text[scan] == NEWLINE {
          scan := scan + 1;
          count := 0;
          start := scan;
          continue;
        }
        scan := scan + 1;
        count := count + 1;
        if count >= columns {
          count := 0;
        }
      }
    }

    /** text_editor_find_prev_line_start. */
    method FindPrevLineStart(lineStart: nat, columns: nat) returns (start: nat)
      requires Valid()
      ensures start == if lineStart == 0 then 0 else LineStart(Contents(), lineStart - 1, columns)
    {
      if lineStart == 0 {
        return 0;
      }
      start := FindLineStart(lineStart - 1, columns);
    }

    /** text_editor_find_next_line_start. */
    method FindNextLineStart(lineStart: nat, columns: nat) returns (next: nat)
      requires Valid()
      ensures next == NextStart(Contents(), lineStart, columns)
    {
      if columns == 0 {
        return lineStart;
      }
      ghost var t := Contents();
      var index, count := lineStart, 0;
      while index < length
        invariant NextStart(t, lineStart, columns) == NextFrom(t, columns, index, count)
      {
        if text[index] == NEWLINE {
          return index + 1;
        }
        index := index + 1;
        count := count + 1;
        if count >= columns {
          return index;
        }
      }
      return length;
    }

    /** text_editor_line_length. */
    method MeasureLine(lineStart: nat, columns: nat) returns (count: nat)
      requires Valid()
      ensures count == LineLength(Contents(), lineStart, columns)
    {
      ghost var t := Contents();
      var index := lineStart;
      count := 0;
      while index < length && count < columns
        invariant LineLength(t, lineStart, columns) == LengthFrom(t, columns, index, count)
      {
        if text[index] == NEWLINE {
          break;
        }
        index := index + 1;
        count := count + 1;
      }
    }

    /** text_editor_cursor_prev_line. */
    method CursorPrevLine(columns: nat) returns (target: nat)
      requires Valid()
      ensures target == Up(Contents(), cursor, columns)
      ensures target <= cursor
    {
      hide Scan;
      UpLowers(Contents(), cursor, columns);
      StartNotAfter(Contents(), cursor, columns);
      var lineStart := FindLineStart(cursor, columns);
      if lineStart == 0 {
        return cursor;
      }
      var prevStart := FindPrevLineStart(lineStart, columns);
      var column := cursor - lineStart;
      var prevLength := MeasureLine(prevStart, columns);
      if column > prevLength {
        column := prevLength;
      }
      return prevStart + column;
    }

    /** text_editor_cursor_next_line. */
    method CursorNextLine(columns: nat) returns (target: nat)
      requires Valid()
      ensures target == Down(Contents(), cursor, columns)
      ensures target <= length && (columns > 0 ==> cursor <= target)
    {
      hide Scan;
      DownKeeps(Contents(), cursor, columns);
      StartNotAfter(Contents(), cursor, columns);
      var lineStart := FindLineStart(cursor, columns);
      var nextStart := FindNextLineStart(lineStart, columns);
      if nextStart >= length && nextStart == lineStart {
        return cursor;
      }
      var column := cursor - lineStart;
      var nextLength := MeasureLine(nextStart, columns);
      if column > nextLength {
        column := nextLength;
      }
      return nextStart + column;
    }
  }

  lemma StartNotAfter(t: seq<byte>, cursor: nat, columns: nat)
    requires cursor <= |t|
    ensures LineStart(t, cursor, columns) <= cursor
  {
    hide LineStart;
    if columns > 0 {
      StartBounds(t, columns, cursor);
    } else {
      NoColumns(t, cursor);
    }
  }
}
