/** The character scans behind the word motions of mix/core/src/main.c
    (motion_w, motion_b, motion_e). Each loop reads the document through
    buffer_char_at, which yields NUL at or past the end, so each scan here
    reads through `PieceTable.CharOf`. */
module WordScan {
  import PieceTable

  /** The separators of the word motions: space, tab and newline. */
  predicate IsBlank(c: char)
  {
    c == ' ' || c == '\t' || c == '\n'
  }

  /** Forward over the current word: stops at the first separator or the end. */
  function SkipWord(text: string, pos: nat): (r: nat)
    ensures pos <= r
    ensures r == pos || r <= |text|
    ensures forall i :: pos <= i < r ==> i < |text| && !IsBlank(text[i])
    ensures r < |text| ==> IsBlank(text[r])
    decreases |text| - pos
  {
    if pos < |text| && !IsBlank(PieceTable.CharOf(text, pos)) then SkipWord(text, pos + 1) else pos
  }

  /** Forward over separators: stops at the first other character or the end. */
  function SkipBlanks(text: string, pos: nat): (r: nat)
    ensures pos <= r
    ensures r == pos || r <= |text|
    ensures forall i :: pos <= i < r ==> i < |text| && IsBlank(text[i])
    ensures r < |text| ==> !IsBlank(text[r])
    decreases |text| - pos
  {
    if pos < |text| && IsBlank(PieceTable.CharOf(text, pos)) then SkipBlanks(text, pos + 1) else pos
  }

  /** Backward over separators from `p`, stopping at offset 0. */
  function BackOverBlanks(text: string, p: nat): (r: nat)
    ensures r <= p
    ensures forall i :: r < i <= p ==> IsBlank(PieceTable.CharOf(text, i))
    ensures r == 0 || !IsBlank(PieceTable.CharOf(text, r))
  {
    if p > 0 && IsBlank(PieceTable.CharOf(text, p)) then BackOverBlanks(text, p - 1) else p
  }

  /** Backward while the character before is not a separator: the start of
      the word, or offset 0. */
  function BackToWordStart(text: string, p: nat): (r: nat)
    ensures r <= p
    ensures forall i :: r <= i < p ==> !IsBlank(PieceTable.CharOf(text, i))
    ensures r == 0 || IsBlank(PieceTable.CharOf(text, r - 1))
  {
    if p > 0 && !IsBlank(PieceTable.CharOf(text, p - 1)) then BackToWordStart(text, p - 1) else p
  }

  /** Forward while below `bound` and the next character is not a separator:
      the last character of the word. */
  function ForwardToWordEnd(text: string, p: nat, bound: nat): (r: nat)
    ensures p <= r
    ensures r == p || r <= bound
    ensures forall i :: p < i <= r ==> !IsBlank(PieceTable.CharOf(text, i))
    ensures r < bound ==> IsBlank(PieceTable.CharOf(text, r + 1))
    decreases bound - p
  {
    if p < bound && !IsBlank(PieceTable.CharOf(text, p + 1)) then ForwardToWordEnd(text, p + 1, bound) else p
  }

  /** A word begins at `i`: a non-separator at the start of the text or
      after a separator. */
  predicate WordStartAt(text: string, i: nat)
  {
    i < |text| && !IsBlank(text[i]) && (i == 0 || IsBlank(text[i - 1]))
  }

  /** A word ends at `i`: a non-separator at the end of the text or before a
      separator. */
  predicate WordEndAt(text: string, i: nat)
  {
    i < |text| && !IsBlank(text[i]) && (i + 1 == |text| || IsBlank(text[i + 1]))
  }

  /** motion_w's scan: past the rest of the current word, then past the
      separators after it. From within the text this is the next word start
      after `pos`, or the end when no word starts after it. */
  function WordForward(text: string, pos: nat): (r: nat)
    ensures pos <= r
    ensures pos < |text| ==> pos < r
    ensures pos <= |text| ==> r <= |text|
    ensures pos >= |text| ==> r == pos
    ensures r < |text| ==> WordStartAt(text, r)
    ensures forall k: nat :: pos < k < r ==> !WordStartAt(text, k)
  {
    var q := SkipWord(text, pos);
    var r := SkipBlanks(text, q);
    assert r < |text| ==> q < r;
    r
  }

  /** motion_b's scan from `pos - 1`: back over separators, then to the start
      of the word reached. This is the nearest word start before `pos`, or 0
      when no word starts before it. */
  function WordBackward(text: string, pos: nat): (r: nat)
    requires pos > 0
    ensures r < pos
    ensures r == 0 || IsBlank(PieceTable.CharOf(text, r - 1))
    ensures r == 0 || !IsBlank(PieceTable.CharOf(text, r))
    ensures r < |text| ==> r == 0 || WordStartAt(text, r)
    ensures forall k: nat :: r < k < pos ==> !WordStartAt(text, k)
  {
    var p := BackOverBlanks(text, pos - 1);
    var r := BackToWordStart(text, p);
    assert r < p ==> !IsBlank(PieceTable.CharOf(text, r));
    NoStartBetween(text, pos, p, r);
    r
  }

  /** No word starts after the start reached by motion_b and before `pos`:
      up to `p` the character before is a word character, and past `p` the
      character itself is a separator. */
  lemma NoStartBetween(text: string, pos: nat, p: nat, r: nat)
    requires r <= p < pos
    requires forall i :: p < i <= pos - 1 ==> IsBlank(PieceTable.CharOf(text, i))
    requires forall i :: r <= i < p ==> !IsBlank(PieceTable.CharOf(text, i))
    ensures forall k: nat :: r < k < pos ==> !WordStartAt(text, k)
  {
    forall k: nat | r < k < pos && k < |text|
      ensures !WordStartAt(text, k)
    {
      if k <= p {
        assert !IsBlank(PieceTable.CharOf(text, k - 1));
      } else {
        assert IsBlank(PieceTable.CharOf(text, k));
      }
    }
  }

  /** motion_e's scan with the bound of its last loop given: one step if not at
      the end, over separators, then to the end of the word. With the bound
      below the length, this is the nearest word end after `pos`, or the end
      of the text when only separators follow. */
  function WordEnd(text: string, pos: nat, bound: nat): (r: nat)
    ensures pos < |text| ==> pos < r
    ensures bound < |text| && pos <= |text| ==> r <= |text|
    ensures bound + 1 == |text| && r < |text| ==> WordEndAt(text, r)
    ensures bound < |text| ==> forall k: nat :: pos < k < r ==> !WordEndAt(text, k)
  {
    var p := if pos < |text| then pos + 1 else pos;
    var q := SkipBlanks(text, p);
    var r := ForwardToWordEnd(text, q, bound);
    if bound < |text| then
      assert r < |text| && q < r ==> !IsBlank(PieceTable.CharOf(text, r));
      assert r < bound ==> IsBlank(PieceTable.CharOf(text, r + 1));
      NoEndBetween(text, pos, q, r);
      r
    else r
  }

  /** No word ends after `pos` and before the end reached by motion_e: up to
      `q` the characters are separators, and from `q` on the next character
      is a word character. */
  lemma NoEndBetween(text: string, pos: nat, q: nat, r: nat)
    requires forall i :: pos < i < q ==> i < |text| && IsBlank(text[i])
    requires forall i :: q < i <= r ==> !IsBlank(PieceTable.CharOf(text, i))
    requires r <= q || r < |text|
    ensures forall k: nat :: pos < k < r ==> !WordEndAt(text, k)
  {
    forall k: nat | pos < k < r && k < |text|
      ensures !WordEndAt(text, k)
    {
      if k < q {
        assert IsBlank(text[k]);
      } else {
        assert !IsBlank(PieceTable.CharOf(text, k + 1));
      }
    }
  }
}
