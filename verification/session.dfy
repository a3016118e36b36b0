/** The editor session of mix/core/src/main.c: one buffer, a cursor, a modal
    state with a VISUAL selection anchor, and a search pattern, driven by
    vim-style motions and edits.

    The C file keeps this state in globals; here it is an `Editor` value and
    every exported operation maps one to the next (operations that return a
    success flag return it alongside). The cursor's line and column are
    stored, not derived: the operations that re-derive them say so, and
    insert_text and delete_text leave the whole cursor alone, so a cursor can
    be stale and even lie past the end of the document. */
module Session {
  import PieceTable
  import opened LineIndex
  import opened TextSearch
  import opened WordScan

  /** EditorMode. */
  datatype Mode = Normal | Insert | Visual | Command | Search

  /** g_cursor: the offset, the line and column last derived from it, and the
      column vertical motions aim for. */
  datatype Cursor = Cursor(position: nat, line: nat, column: nat, preferred: nat)

  /** g_buffer, g_cursor, g_mode, g_selection_start, g_has_selection and
      g_search_pattern. */
  datatype Editor = Editor(buffer: PieceTable.Buffer, cursor: Cursor, mode: Mode,
                           anchor: nat, hasSelection: bool, pattern: string)

  /** g_search_pattern holds 256 bytes, the last one its terminating NUL. */
  const PatternCapacity: nat := 255

  predicate Valid(e: Editor)
  {
    PieceTable.Valid(e.buffer)
  }

  /** The document. */
  function Text(e: Editor): (r: string)
    requires Valid(e)
    ensures |r| == e.buffer.totalLength
  {
    PieceTable.Text(e.buffer)
  }

  /** The cursor lies in the document and its line and column are those of
      its position. */
  predicate Synced(e: Editor)
    requires Valid(e)
  {
    && e.cursor.position <= |Text(e)|
    && PosToLineCol(Text(e), e.cursor.position) == (e.cursor.line, e.cursor.column)
  }

  /** Only the cursor differs between `e` and `r`. */
  predicate OnlyCursorMoved(e: Editor, r: Editor)
  {
    && r.buffer == e.buffer && r.mode == e.mode && r.anchor == e.anchor
    && r.hasSelection == e.hasSelection && r.pattern == e.pattern
  }

  /** The cursor placed at `pos`, with its line and column derived from the
      offset as update_cursor_line_col does; the preferred column is kept. */
  function MoveTo(e: Editor, pos: nat): Editor
    requires Valid(e)
  {
    var (line, col) := PosToLineCol(Text(e), pos);
    e.(cursor := Cursor(pos, line, col, e.cursor.preferred))
  }

  /** The preferred column reset to the cursor's current column, which every
      cursor move other than j and k does once the cursor has moved. */
  function Settle(e: Editor): Editor
  {
    e.(cursor := e.cursor.(preferred := e.cursor.column))
  }

  /** A synced cursor's column lies within its line's characters, or just
      after them. */
  lemma SyncedColumn(e: Editor)
    requires Valid(e) && Synced(e)
    ensures e.cursor.line < LineCount(Text(e))
    ensures e.cursor.column <= LineWidth(Text(e), e.cursor.line)
    ensures e.cursor.position == LineStart(Text(e), e.cursor.line) + e.cursor.column
  {
    LineShape(Text(e), e.cursor.line);
  }

  // ---------------------------------------------------------------------------
  // Initialization and loading
  // ---------------------------------------------------------------------------

  /** editor_init: an empty buffer, the cursor at the origin, NORMAL mode and
      no selection; the anchor and the search pattern are not reset. */
  function Init(e: Editor): (r: Editor)
    ensures Valid(r) && Text(r) == [] && Synced(r)
    ensures r.cursor == Cursor(0, 0, 0, 0) && r.mode == Normal && !r.hasSelection
    ensures r.anchor == e.anchor && r.pattern == e.pattern
  {
    Editor(PieceTable.Create(""), Cursor(0, 0, 0, 0), Normal, e.anchor, false, e.pattern)
  }

  /** editor_load_text: a buffer holding `text` and the cursor at the origin;
      mode, selection and search pattern stay as they were. */
  function LoadText(e: Editor, text: string): (r: Editor)
    ensures Valid(r) && Text(r) == text && Synced(r)
    ensures r.cursor == Cursor(0, 0, 0, 0)
    ensures r.mode == e.mode && r.anchor == e.anchor && r.hasSelection == e.hasSelection
    ensures r.pattern == e.pattern
  {
    e.(buffer := PieceTable.Create(text), cursor := Cursor(0, 0, 0, 0))
  }

  /** insert_text: buffer_insert at any offset; the cursor is left alone. */
  function InsertText(e: Editor, pos: nat, t: string): (r: (Editor, bool))
    requires Valid(e)
    ensures Valid(r.0)
    ensures r.1 <==> |t| > 0 && pos <= |Text(e)|
    ensures r.1 ==> Text(r.0) == Text(e)[..pos] + t + Text(e)[pos..]
    ensures r.1 ==> r.0.cursor == e.cursor && OnlyCursorMoved(e, r.0.(buffer := e.buffer))
    ensures !r.1 ==> r.0 == e
  {
    match PieceTable.Insert(e.buffer, pos, t)
    case None => (e, false)
    case Some(b) => (e.(buffer := b), true)
  }

  /** delete_text: buffer_delete at any offset; the cursor is left alone. */
  function DeleteText(e: Editor, pos: nat, len: nat): (r: (Editor, bool))
    requires Valid(e)
    ensures Valid(r.0)
    ensures r.1 <==> len > 0 && pos + len <= |Text(e)|
    ensures r.1 ==> Text(r.0) == Text(e)[..pos] + Text(e)[pos + len..]
    ensures r.1 ==> r.0.cursor == e.cursor && OnlyCursorMoved(e, r.0.(buffer := e.buffer))
    ensures !r.1 ==> r.0 == e
  {
    match PieceTable.Delete(e.buffer, pos, len)
    case None => (e, false)
    case Some(b) => (e.(buffer := b), true)
  }

  // ---------------------------------------------------------------------------
  // Cursor placement
  // ---------------------------------------------------------------------------

  /** clamp_cursor: a position past the end is pulled back to the end; line
      and column are re-derived. */
  function ClampCursor(e: Editor): (r: Editor)
    requires Valid(e)
    ensures Valid(r) && Synced(r) && OnlyCursorMoved(e, r)
    ensures e.cursor.position <= |Text(e)| ==> r.cursor.position == e.cursor.position
    ensures e.cursor.position > |Text(e)| ==> r.cursor.position == |Text(e)|
    ensures r.cursor.preferred == e.cursor.preferred
  {
    var len := e.buffer.totalLength;
    MoveTo(e, if e.cursor.position > len then len else e.cursor.position)
  }

  /** Clamping a synced cursor changes nothing. */
  lemma ClampSynced(e: Editor)
    requires Valid(e) && Synced(e)
    ensures ClampCursor(e) == e
  {
  }

  /** set_cursor_position: the clamped position, its line and column, and
      that column as the preferred one. */
  function SetCursorPosition(e: Editor, pos: nat): (r: Editor)
    requires Valid(e)
    ensures Valid(r) && Synced(r) && OnlyCursorMoved(e, r)
    ensures pos <= |Text(e)| ==> r.cursor.position == pos
    ensures pos > |Text(e)| ==> r.cursor.position == |Text(e)|
    ensures r.cursor.preferred == r.cursor.column
  {
    Settle(ClampCursor(e.(cursor := e.cursor.(position := pos))))
  }

  /** The (line, column) set_cursor_position stores lead back to the position
      through buffer_line_col_to_pos. */
  lemma SetCursorRoundTrip(e: Editor, pos: nat)
    requires Valid(e)
    ensures var c := SetCursorPosition(e, pos).cursor;
            LineColToPos(Text(e), c.line, c.column) == c.position
  {
    PosRoundTrip(Text(e), SetCursorPosition(e, pos).cursor.position);
  }

  // ---------------------------------------------------------------------------
  // Modes and selection
  // ---------------------------------------------------------------------------

  /** set_mode: VISUAL anchors a selection at the cursor, NORMAL drops the
      selection, the other modes leave it as it is. */
  function SetMode(e: Editor, m: Mode): (r: Editor)
    ensures r.mode == m && r.buffer == e.buffer && r.cursor == e.cursor && r.pattern == e.pattern
    ensures m == Visual ==> r.hasSelection && r.anchor == e.cursor.position
    ensures m == Normal ==> !r.hasSelection && r.anchor == e.anchor
    ensures m != Visual && m != Normal ==> r.hasSelection == e.hasSelection && r.anchor == e.anchor
  {
    if m == Visual then e.(mode := m, anchor := e.cursor.position, hasSelection := true)
    else if m == Normal then e.(mode := m, hasSelection := false)
    else e.(mode := m)
  }

  /** get_mode_name: the status-line label, an upper-case word. */
  function ModeName(m: Mode): (r: string)
    ensures 0 < |r| <= 7
    ensures forall i :: 0 <= i < |r| ==> 'A' <= r[i] <= 'Z'
  {
    match m
    case Normal => "NORMAL"
    case Insert => "INSERT"
    case Visual => "VISUAL"
    case Command => "COMMAND"
    case Search => "SEARCH"
  }

  /** Every mode has its own name. */
  lemma ModeNamesDistinct(m: Mode, n: Mode)
    ensures ModeName(m) == ModeName(n) <==> m == n
  {
  }

  /** get_selection_start: the cursor without a selection, otherwise the
      lesser of anchor and cursor. */
  function SelectionStart(e: Editor): (r: nat)
    ensures r <= e.cursor.position
    ensures !e.hasSelection ==> r == e.cursor.position
    ensures e.hasSelection ==> r <= e.anchor && (r == e.anchor || r == e.cursor.position)
  {
    if !e.hasSelection then e.cursor.position
    else if e.anchor < e.cursor.position then e.anchor else e.cursor.position
  }

  /** get_selection_end: the cursor without a selection, otherwise the
      greater of anchor and cursor. */
  function SelectionEnd(e: Editor): (r: nat)
    ensures e.cursor.position <= r
    ensures !e.hasSelection ==> r == e.cursor.position
    ensures e.hasSelection ==> e.anchor <= r && (r == e.anchor || r == e.cursor.position)
  {
    if !e.hasSelection then e.cursor.position
    else if e.anchor > e.cursor.position then e.anchor else e.cursor.position
  }

  /** After entering VISUAL and moving the cursor, the selection runs between
      the old and the new cursor position, whichever way the cursor moved. */
  lemma VisualSelection(e: Editor, pos: nat)
    ensures var v := SetMode(e, Visual);
            var moved := v.(cursor := v.cursor.(position := pos));
            && SelectionStart(moved) + SelectionEnd(moved) == e.cursor.position + pos
            && SelectionStart(moved) <= SelectionEnd(moved)
  {
  }

  // ---------------------------------------------------------------------------
  // Motions h, l, j, k
  // ---------------------------------------------------------------------------

  /** motion_h: one left, unless at offset 0, where nothing changes. */
  function MotionH(e: Editor): (r: Editor)
    requires Valid(e)
    ensures Valid(r) && OnlyCursorMoved(e, r)
    ensures e.cursor.position == 0 ==> r == e
    ensures e.cursor.position > 0 ==>
              r.cursor.position + 1 == e.cursor.position && r.cursor.preferred == r.cursor.column
    ensures 0 < e.cursor.position <= |Text(e)| + 1 ==> Synced(r)
  {
    if e.cursor.position > 0 then Settle(MoveTo(e, e.cursor.position - 1)) else e
  }

  /** motion_l: one right, unless at or past the end, where nothing changes. */
  function MotionL(e: Editor): (r: Editor)
    requires Valid(e)
    ensures Valid(r) && OnlyCursorMoved(e, r)
    ensures e.cursor.position >= |Text(e)| ==> r == e
    ensures e.cursor.position < |Text(e)| ==>
              && r.cursor.position == e.cursor.position + 1
              && r.cursor.preferred == r.cursor.column && Synced(r)
  {
    if e.cursor.position < e.buffer.totalLength then Settle(MoveTo(e, e.cursor.position + 1)) else e
  }

  /** l undoes h on a synced cursor whose preferred column is its column. */
  lemma RightUndoesLeft(e: Editor)
    requires Valid(e) && Synced(e) && e.cursor.preferred == e.cursor.column && e.cursor.position > 0
    ensures MotionL(MotionH(e)) == e
  {
  }

  /** h undoes l on a synced cursor whose preferred column is its column. */
  lemma LeftUndoesRight(e: Editor)
    requires Valid(e) && Synced(e) && e.cursor.preferred == e.cursor.column
    requires e.cursor.position < |Text(e)|
    ensures MotionH(MotionL(e)) == e
  {
  }

  /** The length of line `n` less a final '\n', read through buffer_char_at
      as motion_j, motion_k and motion_line_end do: it is `LineWidth`, which
      those motions use below. */
  function VisibleLength(e: Editor, n: nat): (r: nat)
    requires Valid(e)
    ensures r == LineWidth(Text(e), n)
  {
    var start := LineStart(Text(e), n);
    var len := LineLength(Text(e), n);
    if len > 0 && PieceTable.CharAt(e.buffer, start + len - 1) == '\n' then len - 1 else len
  }

  /** The cursor moved to column `col` of line `n`, `col` being at most the
      line's visible length. */
  lemma MoveToLineCol(e: Editor, n: nat, col: nat)
    requires Valid(e) && n < LineCount(Text(e)) && col <= LineWidth(Text(e), n)
    ensures var r := MoveTo(e, LineStart(Text(e), n) + col);
            && Synced(r) && r.cursor.line == n && r.cursor.column == col
  {
    LineColRoundTrip(Text(e), n, col);
  }

  /** The common tail of motion_j and motion_k: the cursor on line `n`, at
      the preferred column or the line's end if the line is shorter, keeping
      the preferred column. A line past the last puts it at the end. */
  function ToLine(e: Editor, n: nat): (r: Editor)
    requires Valid(e)
    ensures Valid(r) && OnlyCursorMoved(e, r) && Synced(r)
    ensures r.cursor.preferred == e.cursor.preferred
    ensures n < LineCount(Text(e)) ==>
              r.cursor.line == n && r.cursor.column == Min(e.cursor.preferred, LineWidth(Text(e), n))
    ensures n >= LineCount(Text(e)) ==> r.cursor.position == |Text(e)|
  {
    var T := Text(e);
    var col := Min(e.cursor.preferred, LineWidth(T, n));
    var r := MoveTo(e, LineStart(T, n) + col);
    if n < LineCount(T) then MoveToLineCol(e, n, col); r else r
  }

  /** motion_j: nothing on the last line; otherwise the next line, at the
      preferred column or that line's end if it is shorter, keeping the
      preferred column. */
  function MotionJ(e: Editor): (r: Editor)
    requires Valid(e)
    ensures Valid(r) && OnlyCursorMoved(e, r)
    ensures e.cursor.line + 1 >= LineCount(Text(e)) ==> r == e
    ensures e.cursor.line + 1 < LineCount(Text(e)) ==>
              && Synced(r) && r.cursor.line == e.cursor.line + 1
              && r.cursor.column == Min(e.cursor.preferred, LineWidth(Text(e), e.cursor.line + 1))
              && r.cursor.preferred == e.cursor.preferred
  {
    if e.cursor.line + 1 >= LineCount(Text(e)) then e else ToLine(e, e.cursor.line + 1)
  }

  /** motion_k: nothing on line 0; otherwise the previous line, at the
      preferred column or that line's end if it is shorter, keeping the
      preferred column. A stored line past the last lands at the end. */
  function MotionK(e: Editor): (r: Editor)
    requires Valid(e)
    ensures Valid(r) && OnlyCursorMoved(e, r)
    ensures e.cursor.line == 0 ==> r == e
    ensures 0 < e.cursor.line <= LineCount(Text(e)) ==>
              && Synced(r) && r.cursor.line == e.cursor.line - 1
              && r.cursor.column == Min(e.cursor.preferred, LineWidth(Text(e), e.cursor.line - 1))
              && r.cursor.preferred == e.cursor.preferred
    ensures e.cursor.line > LineCount(Text(e)) ==> Synced(r) && r.cursor.position == |Text(e)|
  {
    if e.cursor.line == 0 then e else ToLine(e, e.cursor.line - 1)
  }

  function Min(a: nat, b: nat): nat
  {
    if a < b then a else b
  }

  /** k after j comes back to the line, and to the very cursor when it was
      synced at its preferred column. */
  lemma UpUndoesDown(e: Editor)
    requires Valid(e) && e.cursor.line + 1 < LineCount(Text(e))
    ensures MotionK(MotionJ(e)).cursor.line == e.cursor.line
    ensures Synced(e) && e.cursor.preferred == e.cursor.column ==> MotionK(MotionJ(e)) == e
  {
    if Synced(e) && e.cursor.preferred == e.cursor.column {
      SyncedColumn(e);
      var up := MotionK(MotionJ(e));
      assert up.cursor.column == e.cursor.column;
      SyncedColumn(up);
    }
  }

  // ---------------------------------------------------------------------------
  // Word motions w, b, e
  // ---------------------------------------------------------------------------

  /** motion_w: past the rest of the word and the separators after it. */
  function MotionW(e: Editor): (r: Editor)
    requires Valid(e)
    ensures Valid(r) && OnlyCursorMoved(e, r)
    ensures e.cursor.position <= r.cursor.position
    ensures e.cursor.position <= |Text(e)| ==> r.cursor.position <= |Text(e)| && Synced(r)
    ensures e.cursor.position < |Text(e)| ==> e.cursor.position < r.cursor.position
    ensures e.cursor.position >= |Text(e)| ==> r.cursor.position == e.cursor.position
    ensures r.cursor.position < |Text(e)| ==> WordStartAt(Text(e), r.cursor.position)
    ensures forall k: nat :: e.cursor.position < k < r.cursor.position ==> !WordStartAt(Text(e), k)
    ensures r.cursor.preferred == r.cursor.column
  {
    Settle(MoveTo(e, WordForward(Text(e), e.cursor.position)))
  }

  /** motion_b: nothing at offset 0; otherwise back to the start of the word
      before the cursor. */
  function MotionB(e: Editor): (r: Editor)
    requires Valid(e)
    ensures Valid(r) && OnlyCursorMoved(e, r)
    ensures e.cursor.position == 0 ==> r == e
    ensures e.cursor.position > 0 ==>
              r.cursor.position < e.cursor.position && r.cursor.preferred == r.cursor.column
    ensures e.cursor.position > 0 && r.cursor.position > 0 ==>
              IsBlank(PieceTable.CharOf(Text(e), r.cursor.position - 1))
    ensures e.cursor.position > 0 && 0 < r.cursor.position < |Text(e)| ==> WordStartAt(Text(e), r.cursor.position)
    ensures forall k: nat :: r.cursor.position < k < e.cursor.position ==> !WordStartAt(Text(e), k)
    ensures 0 < e.cursor.position <= |Text(e)| + 1 ==> Synced(r)
  {
    if e.cursor.position == 0 then e
    else Settle(MoveTo(e, WordBackward(Text(e), e.cursor.position)))
  }

  /** The bound of motion_e's last loop as the evidently intended code has it:
      one less than the length, and 0 for an empty document. */
  function LastOffset(len: nat): nat
  {
    if len > 0 then len - 1 else 0
  }

  /** motion_e, with its last loop bounded by the last offset: one step
      forward unless at the end, over separators, then to the last character
      of the word. */
  function MotionE(e: Editor): (r: Editor)
    requires Valid(e)
    ensures Valid(r) && OnlyCursorMoved(e, r)
    ensures e.cursor.position <= |Text(e)| ==> r.cursor.position <= |Text(e)| && Synced(r)
    ensures e.cursor.position < |Text(e)| ==> e.cursor.position < r.cursor.position
    ensures e.cursor.position >= |Text(e)| ==> r.cursor.position == e.cursor.position
    ensures r.cursor.position < |Text(e)| ==> WordEndAt(Text(e), r.cursor.position)
    ensures forall k: nat :: e.cursor.position < k < r.cursor.position ==> !WordEndAt(Text(e), k)
    ensures r.cursor.preferred == r.cursor.column
  {
    var T := Text(e);
    Settle(MoveTo(e, WordEnd(T, e.cursor.position, LastOffset(|T|))))
  }

  /** size_t on wasm32 has 32 bits. */
  const SizeModulus: nat := 0x1_0000_0000

  /** Unsigned subtraction on size_t: wraps around below zero. */
  function SizeSub(a: nat, b: nat): nat
  {
    (a - b) % SizeModulus
  }

  /** motion_e as written: the bound of its last loop is `len - 1` in size_t,
      which wraps to SIZE_MAX on an empty document. */
  function MotionEAsWritten(e: Editor): (r: Editor)
    requires Valid(e)
    ensures Valid(r) && OnlyCursorMoved(e, r)
    ensures r.cursor.preferred == r.cursor.column
    ensures 0 < |Text(e)| <= SizeModulus ==> r == MotionE(e)
  {
    var T := Text(e);
    Settle(MoveTo(e, WordEnd(T, e.cursor.position, SizeSub(|T|, 1))))
  }

  /** On an empty document motion_e as written runs its last loop all the way
      to SIZE_MAX, leaving the cursor there, far past the end. */
  lemma MotionEOnEmptyDocument(e: Editor)
    requires Valid(e) && |Text(e)| == 0 && e.cursor.position == 0
    ensures MotionEAsWritten(e).cursor.position == SizeModulus - 1
    ensures MotionEAsWritten(e).cursor.position > |Text(e)|
    ensures MotionE(e).cursor.position == 0
  {
    var p := SkipBlanks(Text(e), 0);
    assert p == 0;
    var r := ForwardToWordEnd(Text(e), p, SizeSub(0, 1));
    assert !IsBlank(PieceTable.CharOf(Text(e), r + 1));
  }

  // ---------------------------------------------------------------------------
  // Line and file motions 0, $, gg, G
  // ---------------------------------------------------------------------------

  /** motion_line_start: the start of the stored line (the end of the
      document for a line past the last), with preferred column 0. */
  function MotionLineStart(e: Editor): (r: Editor)
    requires Valid(e)
    ensures Valid(r) && OnlyCursorMoved(e, r) && Synced(r)
    ensures r.cursor.preferred == 0
    ensures e.cursor.line < LineCount(Text(e)) ==> r.cursor.line == e.cursor.line && r.cursor.column == 0
    ensures e.cursor.line >= LineCount(Text(e)) ==> r.cursor.position == |Text(e)|
  {
    var T := Text(e);
    var r := MoveTo(e, LineStart(T, e.cursor.line));
    var r := r.(cursor := r.cursor.(preferred := 0));
    if e.cursor.line < LineCount(T) then MoveToLineCol(e, e.cursor.line, 0); r else r
  }

  /** motion_line_end: just past the stored line's last visible character,
      which is the offset of its '\n' when it has one. */
  function MotionLineEnd(e: Editor): (r: Editor)
    requires Valid(e)
    ensures Valid(r) && OnlyCursorMoved(e, r) && Synced(r)
    ensures r.cursor.preferred == r.cursor.column
    ensures e.cursor.line < LineCount(Text(e)) ==>
              r.cursor.line == e.cursor.line && r.cursor.column == LineWidth(Text(e), e.cursor.line)
    ensures e.cursor.line + 1 < LineCount(Text(e)) ==> Text(e)[r.cursor.position] == '\n'
    ensures e.cursor.line + 1 >= LineCount(Text(e)) ==> r.cursor.position == |Text(e)|
  {
    var T := Text(e);
    var width := LineWidth(T, e.cursor.line);
    var r := Settle(MoveTo(e, LineStart(T, e.cursor.line) + width));
    if e.cursor.line < LineCount(T) then
      MoveToLineCol(e, e.cursor.line, width);
      LineShape(T, e.cursor.line);
      r
    else r
  }

  /** motion_file_start: offset 0, preferred column 0. */
  function MotionFileStart(e: Editor): (r: Editor)
    requires Valid(e)
    ensures Valid(r) && OnlyCursorMoved(e, r) && Synced(r)
    ensures r.cursor.line == 0 && r.cursor.column == 0 && r.cursor.preferred == 0
  {
    var r := MoveTo(e, 0);
    r.(cursor := r.cursor.(preferred := 0))
  }

  /** motion_file_end: the start of the last line. */
  function MotionFileEnd(e: Editor): (r: Editor)
    requires Valid(e)
    ensures Valid(r) && OnlyCursorMoved(e, r) && Synced(r)
    ensures r.cursor.line + 1 == LineCount(Text(e)) && r.cursor.column == 0 && r.cursor.preferred == 0
  {
    var T := Text(e);
    var last := LineCount(T) - 1;
    MoveToLineCol(e, last, 0);
    Settle(MoveTo(e, LineStart(T, last)))
  }

  // ---------------------------------------------------------------------------
  // Editing at the cursor
  // ---------------------------------------------------------------------------

  /** insert_char: the character goes in at the cursor, which moves past it;
      fails, changing nothing, when the cursor lies past the end. */
  function InsertChar(e: Editor, c: char): (r: (Editor, bool))
    requires Valid(e)
    ensures Valid(r.0)
    ensures r.1 <==> e.cursor.position <= |Text(e)|
    ensures r.1 ==> Text(r.0) == Text(e)[..e.cursor.position] + [c] + Text(e)[e.cursor.position..]
    ensures r.1 ==> && r.0.cursor.position == e.cursor.position + 1 && Synced(r.0)
                    && r.0.cursor.preferred == e.cursor.preferred
    ensures OnlyCursorMoved(e, r.0.(buffer := e.buffer))
    ensures !r.1 ==> r.0 == e
  {
    match PieceTable.Insert(e.buffer, e.cursor.position, [c])
    case None => (e, false)
    case Some(b) => (MoveTo(e.(buffer := b), e.cursor.position + 1), true)
  }

  /** insert_string: the string goes in at the cursor, which moves past it;
      fails, changing nothing, for an empty string or a cursor past the end. */
  function InsertString(e: Editor, s: string): (r: (Editor, bool))
    requires Valid(e)
    ensures Valid(r.0)
    ensures r.1 <==> |s| > 0 && e.cursor.position <= |Text(e)|
    ensures r.1 ==> Text(r.0) == Text(e)[..e.cursor.position] + s + Text(e)[e.cursor.position..]
    ensures r.1 ==> && r.0.cursor.position == e.cursor.position + |s| && Synced(r.0)
                    && r.0.cursor.preferred == e.cursor.preferred
    ensures OnlyCursorMoved(e, r.0.(buffer := e.buffer))
    ensures !r.1 ==> r.0 == e
  {
    match PieceTable.Insert(e.buffer, e.cursor.position, s)
    case None => (e, false)
    case Some(b) => (MoveTo(e.(buffer := b), e.cursor.position + |s|), true)
  }

  /** delete_char_before (backspace): fails at offset 0 or past the end;
      otherwise the character before the cursor goes and the cursor follows. */
  function DeleteCharBefore(e: Editor): (r: (Editor, bool))
    requires Valid(e)
    ensures Valid(r.0)
    ensures r.1 <==> 0 < e.cursor.position <= |Text(e)|
    ensures r.1 ==> Text(r.0) == Text(e)[..e.cursor.position - 1] + Text(e)[e.cursor.position..]
    ensures r.1 ==> && r.0.cursor.position == e.cursor.position - 1 && Synced(r.0)
                    && r.0.cursor.preferred == e.cursor.preferred
    ensures OnlyCursorMoved(e, r.0.(buffer := e.buffer))
    ensures !r.1 ==> r.0 == e
  {
    if e.cursor.position == 0 then (e, false)
    else
      match PieceTable.Delete(e.buffer, e.cursor.position - 1, 1)
      case None => (e, false)
      case Some(b) => (MoveTo(e.(buffer := b), e.cursor.position - 1), true)
  }

  /** delete_char_after (x): the character under the cursor goes when there is
      one; the cursor is left exactly as it was. */
  function DeleteCharAfter(e: Editor): (r: (Editor, bool))
    requires Valid(e)
    ensures Valid(r.0)
    ensures r.1 <==> e.cursor.position < |Text(e)|
    ensures r.1 ==> Text(r.0) == Text(e)[..e.cursor.position] + Text(e)[e.cursor.position + 1..]
    ensures r.1 ==> r.0.cursor == e.cursor
    ensures OnlyCursorMoved(e, r.0.(buffer := e.buffer))
    ensures !r.1 ==> r.0 == e
  {
    if e.cursor.position < e.buffer.totalLength then
      DeleteText(e, e.cursor.position, 1)
    else (e, false)
  }

  /** Backspace after typing a character restores the document and the cursor
      position. */
  lemma BackspaceUndoesInsertChar(e: Editor, c: char)
    requires Valid(e) && e.cursor.position <= |Text(e)|
    ensures var typed := InsertChar(e, c).0;
            && DeleteCharBefore(typed).1
            && Text(DeleteCharBefore(typed).0) == Text(e)
            && DeleteCharBefore(typed).0.cursor.position == e.cursor.position
  {
    var typed := InsertChar(e, c).0;
    PieceTable.CutInserted(Text(e), e.cursor.position, [c], Text(typed), Text(DeleteCharBefore(typed).0));
  }

  /** delete_line (dd): the stored line, '\n' included, goes, and the cursor
      moves to where it began; fails, changing nothing, when that line is empty
      or past the last. */
  function DeleteLine(e: Editor): (r: (Editor, bool))
    requires Valid(e)
    ensures Valid(r.0)
    ensures r.1 <==> LineLength(Text(e), e.cursor.line) > 0
    ensures r.1 ==> var start := LineStart(Text(e), e.cursor.line);
                    && Text(r.0) == Text(e)[..start] + Text(e)[start + LineLength(Text(e), e.cursor.line)..]
                    && r.0.cursor.position == start && Synced(r.0)
                    && r.0.cursor.preferred == e.cursor.preferred
    ensures OnlyCursorMoved(e, r.0.(buffer := e.buffer))
    ensures !r.1 ==> r.0 == e
  {
    var T := Text(e);
    var start := LineStart(T, e.cursor.line);
    var len := LineLength(T, e.cursor.line);
    match PieceTable.Delete(e.buffer, start, len)
    case None => (e, false)
    case Some(b) => (ClampCursor(e.(buffer := b, cursor := e.cursor.(position := start))), true)
  }

  /** dd removes one line from the count, except on the last line, which it
      empties instead. */
  lemma DeleteLineCount(e: Editor)
    requires Valid(e) && DeleteLine(e).1
    ensures e.cursor.line + 1 < LineCount(Text(e)) ==> LineCount(Text(DeleteLine(e).0)) + 1 == LineCount(Text(e))
    ensures e.cursor.line + 1 == LineCount(Text(e)) ==> LineCount(Text(DeleteLine(e).0)) == LineCount(Text(e))
  {
    RemoveLineCount(Text(e), e.cursor.line);
  }

  // ---------------------------------------------------------------------------
  // Search
  // ---------------------------------------------------------------------------

  /** set_search_pattern: the pattern, cut to the 255 characters the buffer
      holds. */
  function SetSearchPattern(e: Editor, p: string): (r: Editor)
    ensures |r.pattern| <= PatternCapacity && |r.pattern| <= |p| && r.pattern == p[..|r.pattern|]
    ensures |p| <= PatternCapacity ==> r.pattern == p
    ensures |p| > PatternCapacity ==> |r.pattern| == PatternCapacity
    ensures r == e.(pattern := r.pattern)
  {
    e.(pattern := if |p| > PatternCapacity then p[..PatternCapacity] else p)
  }

  /** Move to a found match, as search_next and search_prev do. */
  function MoveToMatch(e: Editor, found: nat): Editor
    requires Valid(e)
  {
    Settle(MoveTo(e, found))
  }

  /** search_next: the first match after the cursor, else the first match in
      the document; fails, changing nothing, for an empty pattern or when there
      is no match. A match at the cursor itself is found only by wrapping. */
  function SearchNext(e: Editor): (r: (Editor, bool))
    requires Valid(e)
    ensures Valid(r.0)
    ensures r.1 <==> |e.pattern| > 0 && exists k: nat :: MatchAt(Text(e), e.pattern, k)
    ensures r.1 ==> && OnlyCursorMoved(e, r.0) && Synced(r.0)
                    && MatchAt(Text(e), e.pattern, r.0.cursor.position)
                    && r.0.cursor.preferred == r.0.cursor.column
    ensures r.1 && (exists k: nat :: e.cursor.position < k && MatchAt(Text(e), e.pattern, k)) ==>
              && e.cursor.position < r.0.cursor.position
              && forall k: nat :: e.cursor.position < k < r.0.cursor.position ==> !MatchAt(Text(e), e.pattern, k)
    ensures r.1 && !(exists k: nat :: e.cursor.position < k && MatchAt(Text(e), e.pattern, k)) ==>
              forall k: nat :: k < r.0.cursor.position ==> !MatchAt(Text(e), e.pattern, k)
    ensures !r.1 ==> r.0 == e
  {
    var T := Text(e);
    if |e.pattern| == 0 then (e, false)
    else
      var found := FindNext(T, e.cursor.position + 1, e.pattern);
      if found >= 0 then (MoveToMatch(e, found as nat), true)
      else
        var found := FindNext(T, 0, e.pattern);
        if found >= 0 then (MoveToMatch(e, found as nat), true)
        else (e, false)
  }

  /** search_prev: the last match ending at or before the cursor, else the
      last match in the document; fails, changing nothing, for an empty
      pattern or when there is no match. */
  function SearchPrev(e: Editor): (r: (Editor, bool))
    requires Valid(e)
    ensures Valid(r.0)
    ensures r.1 <==> |e.pattern| > 0 && exists k: nat :: MatchAt(Text(e), e.pattern, k)
    ensures r.1 ==> && OnlyCursorMoved(e, r.0) && Synced(r.0)
                    && MatchAt(Text(e), e.pattern, r.0.cursor.position)
                    && r.0.cursor.preferred == r.0.cursor.column
    ensures r.1 && (exists k: nat :: k + |e.pattern| <= e.cursor.position && MatchAt(Text(e), e.pattern, k)) ==>
              && r.0.cursor.position + |e.pattern| <= e.cursor.position
              && forall k: nat :: r.0.cursor.position < k && k + |e.pattern| <= e.cursor.position ==>
                   !MatchAt(Text(e), e.pattern, k)
    ensures r.1 && !(exists k: nat :: k + |e.pattern| <= e.cursor.position && MatchAt(Text(e), e.pattern, k)) ==>
              forall k: nat :: r.0.cursor.position < k ==> !MatchAt(Text(e), e.pattern, k)
    ensures !r.1 ==> r.0 == e
  {
    var T := Text(e);
    if |e.pattern| == 0 then (e, false)
    else
      var found := FindPrev(T, e.cursor.position, e.pattern);
      if found >= 0 then (MoveToMatch(e, found as nat), true)
      else
        var found := FindPrev(T, |T|, e.pattern);
        if found >= 0 then (MoveToMatch(e, found as nat), true)
        else (e, false)
  }
}
