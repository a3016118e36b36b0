/** The line index of mix/core/src/buffer.c.

    The C buffer caches the offsets at which lines begin and rebuilds the
    cache lazily. Here the index is a pure function of the document text:
    line 0 begins at offset 0 and every '\n' at offset `i` begins a line at
    `i + 1`, so a text ending in '\n' has a final empty line. */
module LineIndex {
  import opened Optional

  /** The line starts, built from the back so that the starts of a prefix of
      the text are a prefix of the starts. `LineStarts` and `StartsStep`
      define one concept twice only to control unfolding. */
  function LineStarts(text: string): (r: seq<nat>)
    ensures |r| >= 1 && r[0] == 0
    ensures forall k :: 0 <= k < |r| ==> r[k] <= |text|
    decreases |text|, 1
  {
    StartsStep(text)
  }

  /** One step of `LineStarts`: the starts of the text without its last
      character, and one more after that character if it is a '\n'. The
      recursion goes through `LineStarts`, so a mention of `LineStarts`
      unfolds only where a proof names this step. */
  function StartsStep(text: string): seq<nat>
    decreases |text|, 0
  {
    if |text| == 0 then [0]
    else
      var init := LineStarts(text[..|text| - 1]);
      if text[|text| - 1] == '\n' then init + [|text|] else init
  }

  // The properties that pin the line starts down.

  predicate Increasing(s: seq<nat>)
  {
    forall i, j :: 0 <= i < j < |s| ==> s[i] < s[j]
  }

  /** Every start but the first follows a '\n'. */
  predicate AfterNewlines(text: string, s: seq<nat>)
  {
    forall k :: 1 <= k < |s| ==> 1 <= s[k] <= |text| && text[s[k] - 1] == '\n'
  }

  /** Every '\n' is followed by a start. */
  predicate NewlinesStart(text: string, s: seq<nat>)
  {
    forall i :: 0 <= i < |text| && text[i] == '\n' ==> i + 1 in s
  }

  /** In an increasing sequence the order of two elements is that of their
      indices. */
  lemma Order(s: seq<nat>, j: nat, k: nat)
    requires Increasing(s) && j < |s| && k < |s|
    ensures s[j] < s[k] <==> j < k
    ensures s[j] <= s[k] <==> j <= k
  {
  }

  lemma {:induction false} StartsIncreasing(text: string)
    ensures Increasing(LineStarts(text))
    decreases |text|
  {
    assert LineStarts(text) == StartsStep(text);
    if |text| > 0 {
      StartsIncreasing(text[..|text| - 1]);
    }
  }

  lemma {:induction false} StartsAfterNewlines(text: string)
    ensures AfterNewlines(text, LineStarts(text))
    decreases |text|
  {
    assert LineStarts(text) == StartsStep(text);
    if |text| > 0 {
      var init := text[..|text| - 1];
      StartsAfterNewlines(init);
      var s := LineStarts(init);
      forall k | 1 <= k < |s|
        ensures text[s[k] - 1] == '\n'
      {
        assert text[s[k] - 1] == init[s[k] - 1];
      }
    }
  }

  lemma {:induction false} NewlinesAreStarts(text: string)
    ensures NewlinesStart(text, LineStarts(text))
    decreases |text|
  {
    assert LineStarts(text) == StartsStep(text);
    if |text| > 0 {
      var init := text[..|text| - 1];
      NewlinesAreStarts(init);
      forall i | 0 <= i < |text| && text[i] == '\n'
        ensures i + 1 in LineStarts(text)
      {
        if i < |init| {
          assert init[i] == text[i];
        }
      }
    }
  }

  /** rebuild_line_cache's first loop: one line plus one per '\n'. */
  lemma {:induction false} StartsCount(text: string)
    ensures |LineStarts(text)| == 1 + multiset(text)['\n']
    decreases |text|
  {
    assert LineStarts(text) == StartsStep(text);
    if |text| > 0 {
      var init := text[..|text| - 1];
      StartsCount(init);
      assert text == init + [text[|text| - 1]];
      assert multiset(text) == multiset(init) + multiset{text[|text| - 1]};
    }
  }

  /** rebuild_line_cache: count the lines, then record 0 and the offset after
      every '\n'. */
  method RebuildLineCache(text: string) returns (starts: seq<nat>, count: nat)
    ensures count == |starts| == 1 + multiset(text)['\n']
    ensures starts[0] == 0 && Increasing(starts)
    ensures AfterNewlines(text, starts) && NewlinesStart(text, starts)
  {
    count := 1;
    var i := 0;
    while i < |text|
      invariant i <= |text|
      invariant count == 1 + multiset(text[..i])['\n']
    {
      assert text[..i + 1] == text[..i] + [text[i]];
      if text[i] == '\n' {
        count := count + 1;
      }
      i := i + 1;
    }
    starts := [0];
    i := 0;
    while i < |text|
      invariant i <= |text|
      invariant starts == LineStarts(text[..i])
    {
      assert text[..i + 1][..i] == text[..i];
      if text[i] == '\n' && i + 1 <= |text| {
        starts := starts + [i + 1];
      }
      i := i + 1;
    }
    assert text[..i] == text;
    assert text[..|text|] == text;
    StartsCount(text);
    StartsIncreasing(text);
    StartsAfterNewlines(text);
    NewlinesAreStarts(text);
  }

  /** buffer_line_count. */
  function LineCount(text: string): (r: nat)
    ensures r == 1 + multiset(text)['\n']
  {
    StartsCount(text);
    |LineStarts(text)|
  }

  /** buffer_line_start: the start of line `n`, or the end of the text for a
      line past the last. */
  function LineStart(text: string, n: nat): (r: nat)
    ensures r <= |text|
    ensures n >= LineCount(text) ==> r == |text|
    ensures n == 0 ==> r == 0
    ensures 0 < n < LineCount(text) ==> 1 <= r && text[r - 1] == '\n'
  {
    StartsAfterNewlines(text);
    if n >= LineCount(text) then |text| else LineStarts(text)[n]
  }

  /** Where line `n` ends: the next line's start, or the end of the text. */
  function LineEnd(text: string, n: nat): nat
    requires n < LineCount(text)
  {
    if n + 1 < LineCount(text) then LineStarts(text)[n + 1] else |text|
  }

  /** buffer_line_length: the line's characters with its '\n'; 0 past the
      last line. */
  function LineLength(text: string, n: nat): (r: nat)
    ensures n >= LineCount(text) ==> r == 0
    ensures n < LineCount(text) ==> LineStart(text, n) + r <= |text|
  {
    if n >= LineCount(text) then 0
    else
      StartsIncreasing(text);
      LineEnd(text, n) - LineStart(text, n)
  }

  /** The shape of line `n`: no '\n' before its last character, and that one
      is a '\n' exactly when a further line follows. */
  lemma LineShape(text: string, n: nat)
    requires n < LineCount(text)
    ensures LineStart(text, n) + LineLength(text, n) == LineEnd(text, n) <= |text|
    ensures forall i :: LineStart(text, n) <= i < LineEnd(text, n) - 1 ==> text[i] != '\n'
    ensures n + 1 < LineCount(text) ==> LineLength(text, n) > 0 && text[LineEnd(text, n) - 1] == '\n'
    ensures n + 1 == LineCount(text) ==> LineEnd(text, n) == |text|
    ensures n + 1 == LineCount(text) ==> forall i :: LineStart(text, n) <= i < |text| ==> text[i] != '\n'
  {
    var s := LineStarts(text);
    StartsIncreasing(text);
    StartsAfterNewlines(text);
    NewlinesAreStarts(text);
    forall i | s[n] <= i < |text| && text[i] == '\n'
      ensures n + 1 < |s| && s[n + 1] <= i + 1
    {
      assert i + 1 in s;
      var k :| 0 <= k < |s| && s[k] == i + 1;
      Order(s, n, k);
      Order(s, n + 1, k);
    }
  }

  /** A text with no '\n' counts none. */
  lemma NoNewline(x: string)
    requires forall i :: 0 <= i < |x| ==> x[i] != '\n'
    ensures multiset(x)['\n'] == 0
  {
    assert '\n' !in x;
  }

  /** The '\n's of a text are those outside a stretch plus those inside. */
  lemma NewlinesOfCut(text: string, i: nat, j: nat)
    requires i <= j <= |text|
    ensures multiset(text)['\n'] == multiset(text[..i] + text[j..])['\n'] + multiset(text[i..j])['\n']
  {
    assert text == text[..i] + text[i..j] + text[j..];
  }

  /** A line holds one '\n' when a further line follows, and none otherwise. */
  lemma NewlinesOfLine(text: string, n: nat)
    requires n < LineCount(text)
    ensures var start := LineStart(text, n);
            multiset(text[start..start + LineLength(text, n)])['\n'] == if n + 1 < LineCount(text) then 1 else 0
  {
    var start := LineStart(text, n);
    var len := LineLength(text, n);
    LineShape(text, n);
    var L := text[start..start + len];
    if n + 1 < LineCount(text) {
      var body := L[..len - 1];
      NoNewline(body);
      assert L == body + [L[len - 1]];
    } else {
      NoNewline(L);
    }
  }

  /** Cutting line `n` out of the text, its '\n' included, leaves one line
      fewer when a further line follows; the last line, having no '\n',
      leaves an empty last line instead. */
  lemma RemoveLineCount(text: string, n: nat)
    requires n < LineCount(text)
    ensures var start := LineStart(text, n);
            var rest := text[..start] + text[start + LineLength(text, n)..];
            && (n + 1 < LineCount(text) ==> LineCount(rest) + 1 == LineCount(text))
            && (n + 1 == LineCount(text) ==> LineCount(rest) == LineCount(text))
  {
    NewlinesOfCut(text, LineStart(text, n), LineStart(text, n) + LineLength(text, n));
    NewlinesOfLine(text, n);
  }

  /** The length of line `n` without its '\n', as motion_j, motion_k and
      motion_line_end compute it from the character before the line's end. */
  function LineWidth(text: string, n: nat): (r: nat)
    ensures r <= LineLength(text, n)
    ensures n < LineCount(text) ==> forall i :: LineStart(text, n) <= i < LineStart(text, n) + r ==> text[i] != '\n'
    ensures n + 1 < LineCount(text) ==> r + 1 == LineLength(text, n)
    ensures n + 1 == LineCount(text) ==> LineStart(text, n) + r == |text|
  {
    var start := LineStart(text, n);
    var len := LineLength(text, n);
    if n >= LineCount(text) then len
    else
      LineShape(text, n);
      if len > 0 && text[start + len - 1] == '\n' then len - 1 else len
  }

  /** buffer_get_line: NULL past the last line; otherwise the line without its
      '\n', that is, the longest stretch without '\n' from the line's start. */
  function GetLine(text: string, n: nat): (r: Option<string>)
    ensures r.None? <==> n >= LineCount(text)
    ensures r.Some? ==> LineStart(text, n) + |r.value| <= |text|
    ensures r.Some? ==> r.value == text[LineStart(text, n)..LineStart(text, n) + |r.value|]
    ensures r.Some? ==> forall i :: 0 <= i < |r.value| ==> r.value[i] != '\n'
    ensures r.Some? ==> var e := LineStart(text, n) + |r.value|; e == |text| || text[e] == '\n'
  {
    if n >= LineCount(text) then None
    else
      LineShape(text, n);
      var start := LineStart(text, n);
      var end := LineEnd(text, n);
      var length := end - start;
      var length := if length > 0 && text[end - 1] == '\n' then length - 1 else length;
      Some(text[start..start + length])
  }

  /** buffer_line_length counts the '\n' that buffer_get_line leaves out. */
  lemma GetLineWidth(text: string, n: nat)
    requires n < LineCount(text)
    ensures |GetLine(text, n).value| == LineWidth(text, n)
    ensures n + 1 < LineCount(text) ==> |GetLine(text, n).value| + 1 == LineLength(text, n)
    ensures n + 1 == LineCount(text) ==> |GetLine(text, n).value| == LineLength(text, n)
  {
    LineShape(text, n);
  }

  /** A '\n' at the end of the text leaves an empty last line after it. */
  lemma TrailingNewline(text: string)
    requires |text| > 0 && text[|text| - 1] == '\n'
    ensures LineStart(text, LineCount(text) - 1) == |text|
    ensures LineLength(text, LineCount(text) - 1) == 0
    ensures GetLine(text, LineCount(text) - 1) == Some([])
  {
    var n := LineCount(text) - 1;
    LineShape(text, n);
    NewlinesAreStarts(text);
    var s := LineStarts(text);
    assert |text| in s;
    var k :| 0 <= k < |s| && s[k] == |text|;
    StartsIncreasing(text);
    Order(s, n, k);
  }

  // ---------------------------------------------------------------------------
  // buffer_pos_to_line_col and buffer_line_col_to_pos
  // ---------------------------------------------------------------------------

  /** The loop of buffer_pos_to_line_col from line `i`, `(line, col)` being
      what it has found so far. */
  function Scan(starts: seq<nat>, pos: nat, i: nat, line: nat, col: nat): (nat, nat)
    decreases |starts| - i
  {
    if i >= |starts| then (line, col)
    else if i + 1 < |starts| && starts[i + 1] <= pos then Scan(starts, pos, i + 1, i + 1, pos - starts[i + 1])
    else if starts[i] <= pos then (i, pos - starts[i])
    else Scan(starts, pos, i + 1, line, col)
  }

  /** From a line that starts at or before `pos`, the scan stops at the last
      such line. */
  lemma {:induction false} ScanFindsLast(starts: seq<nat>, pos: nat, i: nat, line: nat, col: nat)
    requires Increasing(starts) && i < |starts| && starts[i] <= pos
    ensures var (l, c) := Scan(starts, pos, i, line, col);
            && i <= l < |starts| && starts[l] <= pos && c == pos - starts[l]
            && (l + 1 < |starts| ==> pos < starts[l + 1])
    decreases |starts| - i
  {
    if i + 1 < |starts| && starts[i + 1] <= pos {
      ScanFindsLast(starts, pos, i + 1, i + 1, pos - starts[i + 1]);
    }
  }

  /** buffer_pos_to_line_col: the last line starting at or before `pos`, and
      the distance from its start (a position past the end lands on the last
      line, the column running past it). */
  function PosToLineCol(text: string, pos: nat): (r: (nat, nat))
    ensures r.0 < LineCount(text)
    ensures LineStart(text, r.0) <= pos && r.1 == pos - LineStart(text, r.0)
    ensures r.0 + 1 < LineCount(text) ==> pos < LineStart(text, r.0 + 1)
  {
    StartsIncreasing(text);
    ScanFindsLast(LineStarts(text), pos, 0, 0, pos);
    Scan(LineStarts(text), pos, 0, 0, pos)
  }

  /** Only one line starts at or before `pos` with the next line starting
      after it. */
  lemma LineOfPos(text: string, pos: nat, n: nat)
    requires n < LineCount(text) && LineStart(text, n) <= pos
    requires n + 1 < LineCount(text) ==> pos < LineStart(text, n + 1)
    ensures PosToLineCol(text, pos) == (n, pos - LineStart(text, n))
  {
    var s := LineStarts(text);
    var l := PosToLineCol(text, pos).0;
    StartsIncreasing(text);
    if l + 1 < |s| {
      Order(s, n, l + 1);
    }
    if n + 1 < |s| {
      Order(s, l, n + 1);
    }
  }

  /** buffer_line_col_to_pos: a line past the last means the last line, and a
      column past the line's length (its '\n' included) means that length. */
  function LineColToPos(text: string, line: nat, col: nat): (r: nat)
    ensures var n := if line >= LineCount(text) then LineCount(text) - 1 else line;
            && LineStart(text, n) <= r <= LineStart(text, n) + LineLength(text, n) <= |text|
            && (col <= LineLength(text, n) ==> r == LineStart(text, n) + col)
            && (col >= LineLength(text, n) ==> r == LineStart(text, n) + LineLength(text, n))
  {
    var line := if line >= LineCount(text) then LineCount(text) - 1 else line;
    var start := LineStart(text, line);
    var len := LineLength(text, line);
    var col := if col > len then len else col;
    start + col
  }

  /** A position in the text goes to (line, column) and back unchanged. */
  lemma PosRoundTrip(text: string, pos: nat)
    requires pos <= |text|
    ensures var (l, c) := PosToLineCol(text, pos); LineColToPos(text, l, c) == pos
  {
    var (l, c) := PosToLineCol(text, pos);
    LineShape(text, l);
  }

  /** A (line, column) within the line's characters, or just after them, goes
      to a position and back unchanged. */
  lemma LineColRoundTrip(text: string, line: nat, col: nat)
    requires line < LineCount(text) && col <= LineWidth(text, line)
    ensures PosToLineCol(text, LineColToPos(text, line, col)) == (line, col)
  {
    LineShape(text, line);
    LineOfPos(text, LineStart(text, line) + col, line);
  }
}
