/** Literal search of mix/core/src/buffer.c: buffer_find_next and
    buffer_find_prev scan the document text for a needle and signal "not
    found" with -1. */
module TextSearch {

  /** `needle` occurs in `text` at offset `i`. */
  predicate MatchAt(text: string, needle: string, i: nat)
  {
    i + |needle| <= |text| && text[i..i + |needle|] == needle
  }

  /** The loop of buffer_find_next from offset `i` on. */
  function ScanForward(text: string, needle: string, i: nat): int
    decreases |text| - i
  {
    if i + |needle| > |text| then -1
    else if MatchAt(text, needle, i) then i
    else ScanForward(text, needle, i + 1)
  }

  lemma {:induction false} ScanForwardFinds(text: string, needle: string, i: nat)
    ensures var r := ScanForward(text, needle, i);
            && (r == -1 <==> forall k: nat :: i <= k ==> !MatchAt(text, needle, k))
            && (r != -1 ==> i <= r && MatchAt(text, needle, r as nat))
            && (r != -1 ==> forall k: nat :: i <= k < r ==> !MatchAt(text, needle, k))
    decreases |text| - i
  {
    if i + |needle| <= |text| && !MatchAt(text, needle, i) {
      ScanForwardFinds(text, needle, i + 1);
    }
  }

  /** buffer_find_next: -1 for an empty needle; otherwise the first offset at
      or after `start` where the needle occurs, or -1 when there is none. */
  function FindNext(text: string, start: nat, needle: string): (r: int)
    ensures r == -1 <==> |needle| == 0 || forall k: nat :: start <= k ==> !MatchAt(text, needle, k)
    ensures r != -1 ==> start <= r && MatchAt(text, needle, r as nat)
    ensures r != -1 ==> forall k: nat :: start <= k < r ==> !MatchAt(text, needle, k)
  {
    if |needle| == 0 then -1
    else
      ScanForwardFinds(text, needle, start);
      ScanForward(text, needle, start)
  }

  /** The loop of buffer_find_prev from offset `i` down to 0. */
  function ScanBackward(text: string, needle: string, i: nat): int
  {
    if MatchAt(text, needle, i) then i
    else if i == 0 then -1
    else ScanBackward(text, needle, i - 1)
  }

  lemma {:induction false} ScanBackwardFinds(text: string, needle: string, i: nat)
    ensures var r := ScanBackward(text, needle, i);
            && (r == -1 <==> forall k: nat :: k <= i ==> !MatchAt(text, needle, k))
            && (r != -1 ==> 0 <= r <= i && MatchAt(text, needle, r as nat))
            && (r != -1 ==> forall k: nat :: r < k <= i ==> !MatchAt(text, needle, k))
  {
    if !MatchAt(text, needle, i) && i > 0 {
      ScanBackwardFinds(text, needle, i - 1);
    }
  }

  /** buffer_find_prev: -1 for an empty needle or when `start` is shorter than
      the needle; otherwise the last offset at which the needle occurs and
      ends at or before `start`, or -1 when there is none. */
  function FindPrev(text: string, start: nat, needle: string): (r: int)
    ensures r == -1 <==> |needle| == 0 || forall k: nat :: k + |needle| <= start ==> !MatchAt(text, needle, k)
    ensures r != -1 ==> 0 <= r && r + |needle| <= start && MatchAt(text, needle, r as nat)
    ensures r != -1 ==> forall k: nat :: r < k && k + |needle| <= start ==> !MatchAt(text, needle, k)
  {
    if |needle| == 0 || start < |needle| then -1
    else
      ScanBackwardFinds(text, needle, start - |needle|);
      ScanBackward(text, needle, start - |needle|)
  }

  /** Searching forward from an occurrence finds that occurrence. */
  lemma FindNextAtMatch(text: string, needle: string, i: nat)
    requires |needle| > 0 && MatchAt(text, needle, i)
    ensures FindNext(text, i, needle) == i
  {
  }

  /** Searching backward from the end of an occurrence finds that occurrence. */
  lemma FindPrevAtMatch(text: string, needle: string, i: nat)
    requires |needle| > 0 && MatchAt(text, needle, i)
    ensures FindPrev(text, i + |needle|, needle) == i
  {
  }

  /** Over the whole text both searches succeed together, and the first
      occurrence comes no later than the last. */
  lemma FirstAndLast(text: string, needle: string)
    ensures FindNext(text, 0, needle) == -1 <==> FindPrev(text, |text|, needle) == -1
    ensures FindNext(text, 0, needle) <= FindPrev(text, |text|, needle)
  {
    var first := FindNext(text, 0, needle);
    var last := FindPrev(text, |text|, needle);
    if first != -1 {
      assert MatchAt(text, needle, first as nat);
    }
    if last != -1 {
      assert MatchAt(text, needle, last as nat);
    }
  }
}
