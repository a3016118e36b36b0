# Piece-table editor core, modelled in Dafny

This project models the core of a small modal text editor that is compiled to
WebAssembly. The core has three parts.

- **The piece-table text buffer** (`mix/core/src/buffer.c`, `buffer.h`).
  - A document is an ordered list of pieces `(source, start, length)`.
  - Each piece names a slice of one of two backing arrays: the ORIGINAL text
    given at creation, or the append-only ADD area.
  - The operations are create, insert, delete, replace, char-at, get-text and
    get-all.
- **The line index and literal search over the same buffer.**
  - The index gives line count, line start, line length and get-line, and
    converts between a position and a (line, column) pair.
  - buffer_find_next and buffer_find_prev are bounded substring scans.
- **The editor session** (`mix/core/src/main.c`).
  - The session holds one buffer, a cursor `(position, line, column,
    preferred column)`, five modes, a VISUAL selection anchor and a search
    pattern.
  - It provides the vim motions `h l j k w b e 0 $ gg G`, insertion and
    deletion at the cursor, `dd`, and wrap-around search.

## Modules

| file | module | models |
|---|---|---|
| `optional.dfy` | `Optional` | NULL / not-found returns, as `Option` |
| `piece_table.dfy` | `PieceTable` | the piece table of buffer.c and buffer.h |
| `capacity.dfy` | `Capacity` | the piece-array growth of buffer_insert |
| `line_index.dfy` | `LineIndex` | the line cache, get-line, position ↔ (line, column) |
| `text_search.dfy` | `TextSearch` | buffer_find_next and buffer_find_prev |
| `word_scan.dfy` | `WordScan` | the character scans of motions w, b and e |
| `session.dfy` | `Session` | the editor state and operations of main.c |
| `scenarios.dfy` | `Scenarios` | the worked example in buffer.h |

## How the model is built

**Abstraction function.**
- `PieceTable.Text(b)` is the concatenation of every piece's slice.
- The buffer invariant `PieceTable.Valid` has three parts:
  - every piece fits in its backing array;
  - no piece has length 0;
  - the lengths sum to the cached `totalLength`.
- Every buffer operation is proved to keep `Valid` and to refine the
  corresponding splice of `Text`.

**The line cache is a pure function of the text** (`LineIndex.LineStarts`).
- Line 0 starts at offset 0.
- Each '\n' at offset `i` starts a line at `i + 1`.

**The C globals become one immutable `Session.Editor` value.**
- Each exported function maps one editor value to the next.
- A function that returns a success flag returns it next to the new editor.

**The cursor's line and column are stored, as in C.**
- insert_text, delete_text and delete_char_after leave the cursor exactly as
  it was, so a cursor can be stale or lie past the end.
- The motions therefore accept any cursor.
- Their contracts say what happens when the cursor is in range. They also say
  what happens when it is not, wherever the C code defines it.

**Where the model follows the code rather than the comments or the
documentation:**
- **search_next** starts at `position + 1`. A match at the cursor itself is
  found only by wrapping around.
- **motion_line_end** lands on the offset of the line's '\n', one past its
  last visible character.
- **buffer_line_start** returns the document length for a line past the
  last, and buffer_line_length returns 0 there. Only buffer_line_col_to_pos
  clamps the line.
- **Stale lines in motion_k and motion_line_start.** A stored line can lie
  past the last line after an edit.
  - motion_line_start with a stored line at or past the line count reaches
    the end of the document.
  - motion_k with a stored line equal to the line count moves to the last
    line, at the preferred column capped by that line's width.
  - motion_k with a stored line greater than the line count reaches the end
    of the document.
- **editor_init** resets buffer, cursor, mode and selection flag, but leaves
  the selection anchor and the search pattern as they were.
- **editor_load_text** replaces only the buffer and the cursor. Mode,
  selection and pattern stay.
- **motion_j and motion_k** keep the preferred column. Every other motion
  that moves the cursor sets the preferred column to the new column, except
  that `0` and `gg` set it to 0. h at offset 0, l at or past the end and b at
  offset 0 change nothing, so the preferred column stays as it was.

**Reads through buffer_char_at.**
- motion_j, motion_k and motion_line_end read the last character of a line
  through buffer_char_at. The model uses `LineIndex.LineWidth` instead.
- `Session.VisibleLength` performs the buffer_char_at computation on the
  buffer and proves it equal to `LineWidth`.
- The word scans read through `PieceTable.CharOf`, which is `CharAt`'s
  specification: NUL at or past the end.

## Model

| member | source | states |
|---|---|---|
| `PieceTable.Text` | mix/core/src/buffer.h:52-53 | the cached total length is the length of the text the pieces stand for |
| `PieceTable.FindPieceAt` | mix/core/src/buffer.c:82-102 | a position is found exactly when it is at most the length; then it is that character of that piece, or one past the last piece at the end of the document |
| `PieceTable.Create` | mix/core/src/buffer.c:108-158 | an empty content gives no pieces and length 0; otherwise one ORIGINAL piece (0, length); the text is the content, the ADD area empty |
| `PieceTable.InsertCorrect` | mix/core/src/buffer.c:199-230 | each of the three placements (after the last piece, before the located piece, splitting it) keeps the invariant and yields the text spliced at the position |
| `PieceTable.Insert` | mix/core/src/buffer.c:179-235 | fails iff the text is empty or the position is past the end; otherwise the invariant holds, the text is `old[..pos] + t + old[pos..]`, the length grows by the length of `t`, ORIGINAL is untouched and ADD only gains `t` at its end |
| `PieceTable.RemoveEmpty` | mix/core/src/buffer.c:298-307 | the final pass of a multi-piece delete leaves no empty piece and keeps the total length |
| `PieceTable.RemoveEmptySpan` | mix/core/src/buffer.c:298-307 | dropping the empty pieces keeps the text |
| `PieceTable.DeleteCorrect` | mix/core/src/buffer.c:247-307 | the single-piece and multi-piece paths keep the invariant and yield the text with the range cut out; the located end lies inside the end piece |
| `PieceTable.Delete` | mix/core/src/buffer.c:237-313 | fails iff the length is 0 or the range runs past the end; otherwise the invariant holds, the text is `old[..pos] + old[pos+len..]`, the length shrinks by len and both backing arrays are unchanged |
| `PieceTable.CharAt` | mix/core/src/buffer.c:315-327 | the character of the text at the position, NUL at or past the end |
| `PieceTable.GetText` | mix/core/src/buffer.c:329-362 | no result iff the range runs past the end; otherwise exactly the text of the range, gathered piece by piece |
| `PieceTable.GetAll` | mix/core/src/buffer.c:364-366 | the whole text |
| `PieceTable.Replace` | mix/core/src/buffer.c:494-501 | fails iff the delete fails (zero old length or range past the end); otherwise the range's place takes the new text and ADD gains it |
| `PieceTable.DeleteUndoesInsert` | mix/core/src/buffer.c:179-313 | deleting the text just inserted gives back the document |
| `PieceTable.InsertUndoesDelete` | mix/core/src/buffer.c:179-313 | inserting back the characters just deleted gives back the document |
| `PieceTable.ReplaceUndone` | mix/core/src/buffer.c:494-501 | replacing the new text by the old characters gives back the document |
| `Scenarios.HelloBeautifulWorld` | mix/core/src/buffer.h:19-24 | "Beautiful " inserted at 6 into "Hello World" gives pieces (ORIG,0,6), (ADD,0,10), (ORIG,6,5), ADD "Beautiful " and text "Hello Beautiful World" |
| `Capacity.EnsurePieceCapacity` | mix/core/src/buffer.c:31-41 | a full array doubles; one with a free slot is left as it is; afterwards one more piece fits |
| `Capacity.SplitGrowthAsWritten` | mix/core/src/buffer.c:218-220 | the loop as written, run for a given number of rounds: when it ends, two more pieces fit |
| `Capacity.SplitLoopSpins` | mix/core/src/buffer.c:218-220 | with exactly one free slot, the split path's growth loop has not ended after any number of rounds |
| `Capacity.SplitGrowth` | mix/core/src/buffer.c:218-220 | the loop as intended: the capacity doubles until two more pieces fit, and stays below twice what is needed |
| `Capacity.SplitGrowthFromOneFreeSlot` | mix/core/src/buffer.c:218-220 | from 63 pieces in 64 slots the loop as written is still running after five rounds, while the intended loop stops at 128 |
| `LineIndex.LineStarts` | mix/core/src/buffer.c:69-75 | the first start is 0 and every start lies within the text |
| `LineIndex.StartsIncreasing` | mix/core/src/buffer.c:69-75 | the line starts increase strictly |
| `LineIndex.StartsAfterNewlines` | mix/core/src/buffer.c:69-75 | every start but the first follows a '\n' |
| `LineIndex.NewlinesAreStarts` | mix/core/src/buffer.c:69-75 | every '\n' is followed by a line start |
| `LineIndex.StartsCount` | mix/core/src/buffer.c:50-54 | there is one line plus one per '\n' |
| `LineIndex.RebuildLineCache` | mix/core/src/buffer.c:43-79 | the counting loop and the recording loop agree: count = starts = 1 + number of '\n'; starts begin at 0, increase, and are exactly the offsets after the '\n's |
| `LineIndex.LineCount` | mix/core/src/buffer.c:173-177 | the line count is 1 + the number of '\n' |
| `LineIndex.LineStart` | mix/core/src/buffer.c:393-402 | the start of a line within the text, after a '\n' for every line but the first; the document length for a line past the last |
| `LineIndex.LineLength` | mix/core/src/buffer.c:404-416 | 0 for a line past the last; otherwise the line fits in the text from its start |
| `LineIndex.LineShape` | mix/core/src/buffer.c:404-416 | a line's length includes its '\n', which is its last character exactly when another line follows; no other '\n' lies in it |
| `LineIndex.TrailingNewline` | mix/core/src/buffer.c:69-75 | a '\n' at the end leaves an empty last line starting at the end |
| `LineIndex.LineWidth` | mix/core/src/main.c:224-226 | the line's length less its '\n': one less than the length when another line follows, reaching the end of the text on the last line |
| `LineIndex.GetLine` | mix/core/src/buffer.c:368-391 | no line past the last; otherwise the text from the line's start up to its '\n' or the end, containing no '\n' |
| `LineIndex.GetLineWidth` | mix/core/src/buffer.c:368-416 | get-line leaves out the '\n' that line-length counts |
| `LineIndex.RemoveLineCount` | mix/core/src/main.c:444-456 | cutting a line with its '\n' removes one line from the count; cutting the last line leaves the count unchanged |
| `LineIndex.ScanFindsLast` | mix/core/src/buffer.c:425-434 | the conversion loop stops on the last line starting at or before the position |
| `LineIndex.PosToLineCol` | mix/core/src/buffer.c:418-435 | the line is the last one starting at or before the position, the column the distance from its start |
| `LineIndex.LineOfPos` | mix/core/src/buffer.c:418-435 | any line starting at or before the position, with the next starting after it, is the one the conversion returns |
| `LineIndex.LineColToPos` | mix/core/src/buffer.c:437-451 | a line past the last means the last; on that line a column within its length maps to start + column, and a longer column to start + length, its '\n' included |
| `LineIndex.PosRoundTrip` | mix/core/src/buffer.c:418-451 | a position in the text goes to (line, column) and back unchanged |
| `LineIndex.LineColRoundTrip` | mix/core/src/buffer.c:418-451 | a (line, column) up to the line's visible end goes to a position and back unchanged |
| `TextSearch.ScanForwardFinds` | mix/core/src/buffer.c:462-467 | the forward loop returns the first match at or after its start, and -1 exactly when there is none |
| `TextSearch.FindNext` | mix/core/src/buffer.c:453-471 | -1 for an empty needle or no match at or after the start; otherwise the least such match |
| `TextSearch.ScanBackwardFinds` | mix/core/src/buffer.c:482-488 | the backward loop returns the last match at or before its start, and -1 exactly when there is none |
| `TextSearch.FindPrev` | mix/core/src/buffer.c:473-492 | -1 for an empty needle or no match ending at or before the start; otherwise the greatest such match |
| `TextSearch.FirstAndLast` | mix/core/src/buffer.c:453-492 | over the whole text both searches succeed together and the first match is no later than the last |
| `WordScan.SkipWord` | mix/core/src/main.c:263-268 | stops at the first separator after the position, or at the end |
| `WordScan.SkipBlanks` | mix/core/src/main.c:270-275 | stops at the first non-separator after the position, or at the end |
| `WordScan.BackOverBlanks` | mix/core/src/main.c:289-294 | stops at offset 0 or on a non-separator, having passed only separators |
| `WordScan.BackToWordStart` | mix/core/src/main.c:296-301 | stops at offset 0 or after a separator, having passed only non-separators |
| `WordScan.ForwardToWordEnd` | mix/core/src/main.c:326-331 | stops at the bound or before a separator, having passed only non-separators |
| `WordScan.WordForward` | mix/core/src/main.c:257-280 | motion_w's scans move strictly forward inside the text and end at the next word start after the position (a non-blank after a blank or at 0), or at the end when there is none |
| `WordScan.WordBackward` | mix/core/src/main.c:284-306 | motion_b's scans end strictly before the position, at the nearest word start before it, or at 0 when there is none |
| `WordScan.WordEnd` | mix/core/src/main.c:316-331 | motion_e's scans, bounded by the last offset, move strictly forward inside the text and end at the nearest word end after the position (a non-blank before a blank or the end), or at the end of the document when there is none |
| `Session.ModeName` | mix/core/src/main.c:177-186 | each of the five modes is named by a non-empty upper-case word of at most seven letters |
| `Session.ModeNamesDistinct` | mix/core/src/main.c:177-186 | two modes have the same name iff they are the same mode |
| `Session.Text` | mix/core/src/main.c:83-85 | the document length is the buffer's cached length |
| `Session.SyncedColumn` | mix/core/src/main.c:118-121 | a cursor whose line and column were derived from its position sits on a real line, within or just after its visible characters |
| `Session.Init` | mix/core/src/main.c:44-58 | an empty buffer, cursor (0,0,0,0), NORMAL mode and no selection; anchor and pattern are kept |
| `Session.LoadText` | mix/core/src/main.c:61-68 | the buffer holds the text, the cursor is (0,0,0,0); mode, selection and pattern are kept |
| `Session.InsertText` | mix/core/src/main.c:103-106 | succeeds iff the text is non-empty and the offset within the document; then the text is spliced in and the cursor is untouched; on failure nothing changes |
| `Session.DeleteText` | mix/core/src/main.c:109-112 | succeeds iff the range is non-empty and within the document; then it is cut and the cursor is untouched; on failure nothing changes |
| `Session.ClampCursor` | mix/core/src/main.c:123-131 | a position past the end becomes the end, any other stays; line and column are re-derived; nothing else changes |
| `Session.SetCursorPosition` | mix/core/src/main.c:149-153 | the clamped position with its line and column, and the preferred column equal to the column |
| `Session.SetCursorRoundTrip` | mix/core/src/main.c:149-153 | the stored line and column lead back to the stored position |
| `Session.SetMode` | mix/core/src/main.c:165-174 | VISUAL anchors a selection at the cursor, NORMAL drops the selection, other modes keep it; buffer, cursor and pattern are kept |
| `Session.SelectionStart` | mix/core/src/main.c:468-471 | the cursor without a selection; otherwise the lesser of anchor and cursor |
| `Session.SelectionEnd` | mix/core/src/main.c:474-477 | the cursor without a selection; otherwise the greater of anchor and cursor |
| `Session.VisualSelection` | mix/core/src/main.c:165-174 | after entering VISUAL and moving, the selection spans the old and new cursor positions in order |
| `Session.MotionH` | mix/core/src/main.c:194-200 | at 0 nothing changes; otherwise one step left, preferred column = column |
| `Session.MotionL` | mix/core/src/main.c:204-210 | at or past the end nothing changes; otherwise one step right, preferred column = column |
| `Session.RightUndoesLeft` | mix/core/src/main.c:194-210 | l undoes h on a synced cursor at its preferred column |
| `Session.LeftUndoesRight` | mix/core/src/main.c:194-210 | h undoes l on a synced cursor at its preferred column |
| `Session.VisibleLength` | mix/core/src/main.c:224-226 | dropping a final '\n' read through buffer_char_at gives the line's visible width |
| `Session.MoveToLineCol` | mix/core/src/main.c:118-121 | moving to a column within a line's visible width derives that line and column |
| `Session.ToLine` | mix/core/src/main.c:220-232 | the cursor lands on the given line at min(preferred column, visible width), keeping the preferred column; a line past the last lands at the end |
| `Session.MotionJ` | mix/core/src/main.c:214-233 | on the last line nothing changes; otherwise the next line at min(preferred column, its visible width), preferred column kept |
| `Session.MotionK` | mix/core/src/main.c:237-253 | on line 0 nothing changes; otherwise the previous line at min(preferred column, its visible width), preferred column kept |
| `Session.UpUndoesDown` | mix/core/src/main.c:214-253 | k after j returns to the line, and to the very cursor when it was synced at its preferred column |
| `Session.MotionW` | mix/core/src/main.c:257-280 | the cursor moves to the next word start after it, or to the end of the document when there is none; preferred column = column |
| `Session.MotionB` | mix/core/src/main.c:284-306 | at 0 nothing changes; otherwise the cursor moves to the nearest word start before it, or to 0 when there is none; preferred column = column |
| `Session.MotionE` | mix/core/src/main.c:310-336 | with the last loop bounded by the last offset: the cursor moves to the nearest word end after it, or to the end of the document when there is none; preferred column = column |
| `Session.MotionEAsWritten` | mix/core/src/main.c:310-336 | with the bound computed as size_t `len - 1`, the result is MotionE's on any non-empty document |
| `Session.MotionEOnEmptyDocument` | mix/core/src/main.c:327 | on an empty document the code as written leaves the cursor at 2^32 - 1, while MotionE leaves it at 0 |
| `Session.MotionLineStart` | mix/core/src/main.c:340-345 | the start of the stored line (the end for a line past the last), column 0, preferred column 0 |
| `Session.MotionLineEnd` | mix/core/src/main.c:349-363 | the stored line's visible end, which is its '\n' when another line follows and the end of the document otherwise |
| `Session.MotionFileStart` | mix/core/src/main.c:367-371 | offset 0, line 0, column 0, preferred column 0 |
| `Session.MotionFileEnd` | mix/core/src/main.c:375-384 | the start of the last line, preferred column 0 |
| `Session.InsertChar` | mix/core/src/main.c:391-401 | succeeds iff the cursor is within the document; then the character goes in at the cursor, which moves one past it; mode, selection and pattern never change |
| `Session.InsertString` | mix/core/src/main.c:404-414 | succeeds iff the string is non-empty and the cursor within the document; then the string goes in and the cursor moves past it; mode, selection and pattern never change |
| `Session.DeleteCharBefore` | mix/core/src/main.c:417-426 | fails at 0 or past the end; otherwise the character before the cursor goes and the cursor moves back one; mode, selection and pattern never change |
| `Session.DeleteCharAfter` | mix/core/src/main.c:429-436 | succeeds iff a character lies under the cursor; it goes and the cursor is untouched; mode, selection and pattern never change |
| `Session.BackspaceUndoesInsertChar` | mix/core/src/main.c:391-426 | backspace after typing a character restores the document and the cursor position |
| `Session.DeleteLine` | mix/core/src/main.c:444-456 | succeeds iff the stored line is non-empty; then the line and its '\n' go and the cursor moves to where the line began; mode, selection and pattern never change |
| `Session.DeleteLineCount` | mix/core/src/main.c:444-456 | dd removes one line from the count, except on the last line, which it empties |
| `Session.SetSearchPattern` | mix/core/src/main.c:486-489 | the pattern is kept whole up to 255 characters and cut to its first 255 otherwise; nothing else changes |
| `Session.SearchNext` | mix/core/src/main.c:492-513 | succeeds iff the pattern is non-empty and occurs; then the cursor moves to the first match after it, or else to the first match in the document |
| `Session.SearchPrev` | mix/core/src/main.c:516-537 | succeeds iff the pattern is non-empty and occurs; then the cursor moves to the last match ending at or before it, or else to the last match in the document |

## Left out

- **Memory management.** malloc/realloc, the add-area capacity
  (ensure_add_capacity), buffer_destroy, editor_destroy, free_string and every
  allocation-failure return are left out. Storage is a Dafny `seq` that always
  has room.
- **Piece-array capacity.** The piece-array capacity is modelled only in
  `Capacity`, apart from the buffer. `PieceTable.Insert` behaves as if the
  split path had made room; the stall is recorded under Findings.
- **The lazy line cache.** The `lines_dirty` flag and the in-place reuse of
  `line_starts` are left out. The index is recomputed from the text, which is
  what the cache holds whenever it is read.
- **NUL-terminated strings.**
  - Texts, needles and patterns are modelled as strings without NUL.
    strlen and strncmp become sequence length and slice comparison.
  - insert_string and insert_text given NULL instead of a string are left out.
  - set_search_pattern's NUL padding is left out.
- TextSearch.FindPrev: a start past the end of the document makes the C loop
  compare past the end of the copied text; the model treats those offsets as
  non-matches. search_prev passes the cursor position, so this arises only
  with a stale cursor.
- **Emscripten glue.** EM_ASM logging and the EMSCRIPTEN_KEEPALIVE exports are
  left out, and so are the NULL-g_buffer guards: the session always holds a
  buffer.
- **get_mode_name's "UNKNOWN" branch.** `Mode` has only the five valid modes,
  so set_mode's cast of an arbitrary int to EditorMode is left out.
  `Session.ModeName` maps the five modes to their names, and
  `Session.ModeNamesDistinct` shows no two modes share one.
- **Trivial getters.** get_buffer_length, get_line_count, get_all_text,
  get_line, get_cursor_position, get_cursor_line, get_cursor_column,
  get_mode and has_selection read a field or call a modelled buffer function
  (`Session.Text`, `LineIndex.LineCount`, `PieceTable.GetAll`,
  `LineIndex.GetLine`).
- **Bytes, not characters.** A Dafny `char` stands for one byte of the C
  text. Offsets, lengths and columns are byte counts, and so is the 255-byte
  limit of set_search_pattern. Neither the C code nor the model knows UTF-8:
  h, l, x, w, b and e can stop inside a multi-byte sequence, and a "column"
  is a byte column.
- **Fixed-width counters.**
  - size_t is modelled as an unbounded `nat`, except in motion_e's `len - 1`
    (see Findings).
  - search_next's `position + 1` cannot wrap for a cursor within a
    document that fits in memory.
- PieceTable.Delete: the guard `position + length > total_length` at
  buffer.c:239 is a 32-bit size_t sum on wasm32 and can wrap. On an 8-byte
  document, position 5 with length 2^32 - 2 sums to 3 and passes. The C code
  then duplicates text or hands memmove a huge size. The model adds without
  wrap-around and reports failure there, so it does not describe what the C
  code does for such a length.
- Session.DeleteText: delete_text passes its arguments unchanged to
  buffer_delete, so the same wrapped guard applies to its callers. The model
  promises failure where the C code can corrupt the buffer. The other
  callers in the core pass ranges inside the document.
- PieceTable.GetText: the guard `start + length > total_length` at
  buffer.c:330 can wrap the same way. The model adds without wrap-around;
  the core's own callers pass ranges inside the document.
- **Files outside the core.** tools/wasm-cli.py (process, network and file
  I/O) and learn/04-c-wasm/src/main.c (an unrelated tutorial sample) are not
  part of this model.

## Findings

| source | as written | input that shows it | evidently intended | confidence | as-written member | corrected member |
|---|---|---|---|---|---|---|
| mix/core/src/main.c:327 | motion_e bounds its last loop by `len - 1` in size_t, which wraps to 2^32 - 1 on wasm32 when the document is empty | an empty document with the cursor at 0; the loop reads NUL, which is not a separator, and walks the cursor to 2^32 - 1 | the loop stops at the last offset, 0 for an empty document, so the cursor stays at 0 | not executed | `Session.MotionEAsWritten` (shown by `Session.MotionEOnEmptyDocument`) | `Session.MotionE` |
| mix/core/src/buffer.c:218-220 | the split path of buffer_insert calls ensure_piece_capacity until `piece_count + 2` fits, but that call grows the array only when it is full | 63 pieces in the initial 64 slots (one content piece and 31 inserts that split a piece), then an insert that splits a piece: the loop never ends | grow until two more pieces fit | not executed | `Capacity.SplitGrowthAsWritten` (shown by `Capacity.SplitLoopSpins`) | `Capacity.SplitGrowth` |
