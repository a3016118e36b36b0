/** The piece-table text buffer of mix/core/src/buffer.c.

    The document is an ordered list of pieces, each naming a slice of one of two
    backing arrays: the ORIGINAL text given at creation and the append-only ADD
    area. `Text` concatenates the slices; every edit is proved to refine the
    corresponding splice of `Text` and to keep the piece invariants. */
module PieceTable {
  import opened Optional

  /** Which backing array a piece draws its characters from. */
  datatype Source = Original | Added

  datatype Piece = Piece(source: Source, start: nat, length: nat)

  /** `totalLength` is the cached document length; the line cache is not stored,
      it is a pure function of the text (module LineIndex). */
  datatype Buffer = Buffer(original: string, add: string, pieces: seq<Piece>, totalLength: nat)

  function Backing(original: string, add: string, s: Source): string
  {
    match s
    case Original => original
    case Added => add
  }

  /** The piece's slice lies within its backing array. */
  predicate Fits(original: string, add: string, p: Piece)
  {
    p.start + p.length <= |Backing(original, add, p.source)|
  }

  predicate AllFit(original: string, add: string, ps: seq<Piece>)
  {
    forall i {:trigger Fits(original, add, ps[i])} :: 0 <= i < |ps| ==> Fits(original, add, ps[i])
  }

  /** No zero-length piece. */
  predicate Positive(ps: seq<Piece>)
  {
    forall i :: 0 <= i < |ps| ==> ps[i].length > 0
  }

  /** The characters a piece stands for. */
  function Slice(original: string, add: string, p: Piece): (r: string)
    requires Fits(original, add, p)
    ensures |r| == p.length
  {
    Backing(original, add, p.source)[p.start .. p.start + p.length]
  }

  /** The concatenation of the pieces' slices, built left to right. The
      recursion goes through `Span`, so a mention of `Span` or `Text` unfolds
      by one step only where a proof asks for it. */
  function Joined(original: string, add: string, ps: seq<Piece>): string
    requires AllFit(original, add, ps)
    decreases |ps|, 0
  {
    if |ps| == 0 then []
    else Span(original, add, ps[..|ps| - 1]) + Slice(original, add, ps[|ps| - 1])
  }

  /** The text the pieces stand for. `Span` and `Joined` define one concept
      twice only to control unfolding: contracts speak of `Span`; only the
      inductive lemmas look inside it at `Joined`. */
  function Span(original: string, add: string, ps: seq<Piece>): string
    requires AllFit(original, add, ps)
    decreases |ps|, 1
  {
    Joined(original, add, ps)
  }

  /** Sum of the piece lengths. */
  function Summed(ps: seq<Piece>): nat
  {
    if |ps| == 0 then 0 else Summed(ps[..|ps| - 1]) + ps[|ps| - 1].length
  }

  /** The document length the pieces add up to. Like `Span` and `Joined`,
      `Total` and `Summed` are one definition written twice only to control
      unfolding. */
  function Total(ps: seq<Piece>): nat
  {
    Summed(ps)
  }

  /** The representation invariant every operation keeps. */
  predicate Valid(b: Buffer)
  {
    && AllFit(b.original, b.add, b.pieces)
    && Positive(b.pieces)
    && Total(b.pieces) == b.totalLength
  }

  /** The document the buffer represents. */
  function Text(b: Buffer): (r: string)
    requires Valid(b)
    ensures |r| == b.totalLength
  {
    SpanLength(b.original, b.add, b.pieces);
    Span(b.original, b.add, b.pieces)
  }

  /** The character at `i`, or NUL at or past the end (C strings end in NUL). */
  function CharOf(text: string, i: nat): char
  {
    if i < |text| then text[i] else '\0'
  }

  // ---------------------------------------------------------------------------
  // Facts about Span and Total
  // ---------------------------------------------------------------------------

  lemma {:induction false} SpanLength(o: string, a: string, ps: seq<Piece>)
    requires AllFit(o, a, ps)
    ensures |Span(o, a, ps)| == Total(ps)
  {
    if |ps| > 0 {
      SpanLength(o, a, ps[..|ps| - 1]);
    }
  }

  lemma {:induction false} SpanConcat(o: string, a: string, xs: seq<Piece>, ys: seq<Piece>)
    requires AllFit(o, a, xs) && AllFit(o, a, ys)
    ensures AllFit(o, a, xs + ys)
    ensures Span(o, a, xs + ys) == Span(o, a, xs) + Span(o, a, ys)
    decreases |ys|
  {
    FitConcat(o, a, xs, ys);
    if |ys| == 0 {
      assert xs + ys == xs;
    } else {
      var n := |ys| - 1;
      var zs := xs + ys;
      assert zs[..|zs| - 1] == xs + ys[..n];
      assert zs[|zs| - 1] == ys[n];
      SpanConcat(o, a, xs, ys[..n]);
    }
  }

  lemma SpanConcat3(o: string, a: string, xs: seq<Piece>, ys: seq<Piece>, zs: seq<Piece>)
    requires AllFit(o, a, xs) && AllFit(o, a, ys) && AllFit(o, a, zs)
    ensures AllFit(o, a, xs + ys + zs)
    ensures Span(o, a, xs + ys + zs) == Span(o, a, xs) + Span(o, a, ys) + Span(o, a, zs)
  {
    SpanConcat(o, a, xs, ys);
    SpanConcat(o, a, xs + ys, zs);
  }

  lemma {:induction false} TotalConcat(xs: seq<Piece>, ys: seq<Piece>)
    ensures Total(xs + ys) == Total(xs) + Total(ys)
    decreases |ys|
  {
    if |ys| == 0 {
      assert xs + ys == xs;
    } else {
      var n := |ys| - 1;
      assert (xs + ys)[..|xs + ys| - 1] == xs + ys[..n];
      TotalConcat(xs, ys[..n]);
    }
  }

  lemma SpanSingle(o: string, a: string, p: Piece)
    requires Fits(o, a, p)
    ensures AllFit(o, a, [p])
    ensures Span(o, a, [p]) == Slice(o, a, p)
  {
    assert [p][..0] == [];
    assert Span(o, a, [p][..0]) == [];
  }

  /** Appending to the ADD area leaves every fitting piece's text alone. */
  lemma {:induction false} SpanGrow(o: string, a: string, t: string, ps: seq<Piece>)
    requires AllFit(o, a, ps)
    ensures AllFit(o, a + t, ps)
    ensures Span(o, a + t, ps) == Span(o, a, ps)
  {
    if |ps| > 0 {
      var last := ps[|ps| - 1];
      assert Fits(o, a, last);
      assert Slice(o, a + t, last) == Slice(o, a, last);
      SpanGrow(o, a, t, ps[..|ps| - 1]);
    }
  }

  lemma TotalStep(ps: seq<Piece>, i: nat)
    requires i < |ps|
    ensures Total(ps[..i + 1]) == Total(ps[..i]) + ps[i].length
  {
    assert ps[..i + 1][..i] == ps[..i];
  }

  lemma {:induction false} TotalMonotone(ps: seq<Piece>, i: nat, j: nat)
    requires i <= j <= |ps|
    ensures Total(ps[..i]) <= Total(ps[..j])
    decreases j - i
  {
    if i < j {
      TotalStep(ps, i);
      TotalMonotone(ps, i + 1, j);
    }
  }

  lemma FitConcat(o: string, a: string, xs: seq<Piece>, ys: seq<Piece>)
    requires AllFit(o, a, xs) && AllFit(o, a, ys)
    ensures AllFit(o, a, xs + ys)
  {
    forall i | 0 <= i < |xs + ys|
      ensures Fits(o, a, (xs + ys)[i])
    {
      if i < |xs| {
        assert (xs + ys)[i] == xs[i];
      } else {
        assert (xs + ys)[i] == ys[i - |xs|];
      }
    }
  }

  lemma PositiveConcat(xs: seq<Piece>, ys: seq<Piece>)
    requires Positive(xs) && Positive(ys)
    ensures Positive(xs + ys)
  {
    forall i | 0 <= i < |xs + ys|
      ensures (xs + ys)[i].length > 0
    {
      if i < |xs| {
        assert (xs + ys)[i] == xs[i];
      } else {
        assert (xs + ys)[i] == ys[i - |xs|];
      }
    }
  }

  /** The pieces around position `i`, with `x` put in place of `ps[i..j]`, keep
      fitting and stay non-empty when `x`'s pieces do. */
  lemma Surround(o: string, a: string, ps: seq<Piece>, i: nat, j: nat, x: seq<Piece>)
    requires i <= j <= |ps|
    requires AllFit(o, a, ps) && AllFit(o, a, x)
    ensures AllFit(o, a, ps[..i] + x + ps[j..])
    ensures Positive(ps) && Positive(x) ==> Positive(ps[..i] + x + ps[j..])
  {
    assert AllFit(o, a, ps[..i]) && AllFit(o, a, ps[j..]);
    FitConcat(o, a, ps[..i], x);
    FitConcat(o, a, ps[..i] + x, ps[j..]);
    if Positive(ps) && Positive(x) {
      assert Positive(ps[..i]) && Positive(ps[j..]);
      PositiveConcat(ps[..i], x);
      PositiveConcat(ps[..i] + x, ps[j..]);
    }
  }

  // ---------------------------------------------------------------------------
  // Sub-pieces and the text around them
  // ---------------------------------------------------------------------------

  /** The first `n` characters of piece `p`. */
  function TakeFront(p: Piece, n: nat): Piece
    requires n <= p.length
  {
    Piece(p.source, p.start, n)
  }

  /** Piece `p` less its first `n` characters. */
  function DropFront(p: Piece, n: nat): Piece
    requires n <= p.length
  {
    Piece(p.source, p.start + n, p.length - n)
  }

  lemma TakeSlice(o: string, a: string, p: Piece, n: nat)
    requires Fits(o, a, p) && n <= p.length
    ensures Fits(o, a, TakeFront(p, n))
    ensures Slice(o, a, TakeFront(p, n)) == Slice(o, a, p)[..n]
  {
  }

  lemma DropSlice(o: string, a: string, p: Piece, n: nat)
    requires Fits(o, a, p) && n <= p.length
    ensures Fits(o, a, DropFront(p, n))
    ensures Slice(o, a, DropFront(p, n)) == Slice(o, a, p)[n..]
  {
  }

  lemma SpanPair(o: string, a: string, x: Piece, y: Piece)
    requires Fits(o, a, x) && Fits(o, a, y)
    ensures AllFit(o, a, [x, y])
    ensures Span(o, a, [x, y]) == Slice(o, a, x) + Slice(o, a, y)
  {
    assert [x, y] == [x] + [y];
    SpanSingle(o, a, x);
    SpanSingle(o, a, y);
    SpanConcat(o, a, [x], [y]);
  }

  lemma SpanTriple(o: string, a: string, x: Piece, y: Piece, z: Piece)
    requires Fits(o, a, x) && Fits(o, a, y) && Fits(o, a, z)
    ensures AllFit(o, a, [x, y, z])
    ensures Span(o, a, [x, y, z]) == Slice(o, a, x) + Slice(o, a, y) + Slice(o, a, z)
  {
    assert [x, y, z] == [x, y] + [z];
    SpanPair(o, a, x, y);
    SpanSingle(o, a, z);
    SpanConcat(o, a, [x, y], [z]);
  }

  /** The text of the pieces `L`, then `p`, then `R`. */
  lemma SpanAroundPiece(o: string, a: string, L: seq<Piece>, p: Piece, R: seq<Piece>)
    requires AllFit(o, a, L) && Fits(o, a, p) && AllFit(o, a, R)
    ensures AllFit(o, a, L + [p] + R)
    ensures Span(o, a, L + [p] + R) == Span(o, a, L) + Slice(o, a, p) + Span(o, a, R)
    ensures |Span(o, a, L)| == Total(L)
  {
    SpanSingle(o, a, p);
    SpanConcat3(o, a, L, [p], R);
    SpanLength(o, a, L);
  }

  /** Piece `p` between `L` and `R`, and the pieces `x` put in its place. */
  lemma Respan(o: string, a: string, L: seq<Piece>, p: Piece, R: seq<Piece>, x: seq<Piece>)
    requires AllFit(o, a, L) && Fits(o, a, p) && AllFit(o, a, R) && AllFit(o, a, x)
    ensures AllFit(o, a, L + [p] + R) && AllFit(o, a, L + x + R)
    ensures Span(o, a, L + [p] + R) == Span(o, a, L) + Slice(o, a, p) + Span(o, a, R)
    ensures Span(o, a, L + x + R) == Span(o, a, L) + Span(o, a, x) + Span(o, a, R)
    ensures |Span(o, a, L)| == Total(L)
  {
    SpanAroundPiece(o, a, L, p, R);
    SpanConcat3(o, a, L, x, R);
  }

  /** Pieces `p` and `q` with `M` between them and `L` and `R` around them, and
      the pieces `x` put in place of `p`, `M` and `q`. */
  lemma Respan2(o: string, a: string, L: seq<Piece>, p: Piece, M: seq<Piece>, q: Piece, R: seq<Piece>, x: seq<Piece>)
    requires AllFit(o, a, L) && Fits(o, a, p) && AllFit(o, a, M) && Fits(o, a, q) && AllFit(o, a, R)
    requires AllFit(o, a, x)
    ensures AllFit(o, a, L + [p] + M + [q] + R) && AllFit(o, a, L + x + R)
    ensures Span(o, a, L + [p] + M + [q] + R)
         == Span(o, a, L) + Slice(o, a, p) + Span(o, a, M) + Slice(o, a, q) + Span(o, a, R)
    ensures Span(o, a, L + x + R) == Span(o, a, L) + Span(o, a, x) + Span(o, a, R)
    ensures |Span(o, a, L)| == Total(L)
    ensures Total(L + [p] + M) == |Span(o, a, L)| + p.length + |Span(o, a, M)|
  {
    SpanAroundPiece(o, a, L, p, M);
    SpanLength(o, a, L + [p] + M);
    SpanAroundPiece(o, a, L + [p] + M, q, R);
    SpanConcat3(o, a, L, x, R);
  }

  /** `ps` cut around its piece `i`. */
  lemma CutAt(o: string, a: string, ps: seq<Piece>, i: nat)
    requires AllFit(o, a, ps) && i < |ps|
    ensures ps == ps[..i] + [ps[i]] + ps[i + 1..]
    ensures AllFit(o, a, ps[..i]) && Fits(o, a, ps[i]) && AllFit(o, a, ps[i + 1..])
  {
  }

  /** `ps` cut around its pieces `i` and `j`. */
  lemma CutAt2(o: string, a: string, ps: seq<Piece>, i: nat, j: nat)
    requires AllFit(o, a, ps) && i < j < |ps|
    ensures ps == ps[..i] + [ps[i]] + ps[i + 1..j] + [ps[j]] + ps[j + 1..]
    ensures ps[..j] == ps[..i] + [ps[i]] + ps[i + 1..j]
    ensures && AllFit(o, a, ps[..i]) && Fits(o, a, ps[i]) && AllFit(o, a, ps[i + 1..j])
            && Fits(o, a, ps[j]) && AllFit(o, a, ps[j + 1..])
  {
    assert ps[..j] == ps[..i] + [ps[i]] + ps[i + 1..j];
    assert ps == ps[..j] + [ps[j]] + ps[j + 1..];
  }

  // The pieces each edit puts in place of the pieces it touches.

  /** Piece `p` split at `off` around the new piece `np`. */
  lemma SplitPieces(o: string, a: string, p: Piece, off: nat, np: Piece)
    requires Fits(o, a, p) && Fits(o, a, np) && off <= p.length
    ensures AllFit(o, a, [TakeFront(p, off), np, DropFront(p, off)])
    ensures Span(o, a, [TakeFront(p, off), np, DropFront(p, off)])
         == Slice(o, a, p)[..off] + Slice(o, a, np) + Slice(o, a, p)[off..]
  {
    TakeSlice(o, a, p, off);
    DropSlice(o, a, p, off);
    SpanTriple(o, a, TakeFront(p, off), np, DropFront(p, off));
  }

  /** Piece `p` less its first `n` characters. */
  lemma FrontPieces(o: string, a: string, p: Piece, n: nat)
    requires Fits(o, a, p) && n <= p.length
    ensures AllFit(o, a, [DropFront(p, n)])
    ensures Span(o, a, [DropFront(p, n)]) == Slice(o, a, p)[n..]
  {
    DropSlice(o, a, p, n);
    SpanSingle(o, a, DropFront(p, n));
  }

  /** Piece `p` less its characters from `so` to `eo`, as two pieces. */
  lemma MiddlePieces(o: string, a: string, p: Piece, so: nat, eo: nat)
    requires Fits(o, a, p) && so <= eo <= p.length
    ensures AllFit(o, a, [TakeFront(p, so), DropFront(p, eo)])
    ensures Span(o, a, [TakeFront(p, so), DropFront(p, eo)]) == Slice(o, a, p)[..so] + Slice(o, a, p)[eo..]
  {
    TakeSlice(o, a, p, so);
    DropSlice(o, a, p, eo);
    SpanPair(o, a, TakeFront(p, so), DropFront(p, eo));
  }

  /** The first `so` characters of `p` and `q` less its first `eo`. */
  lemma JoinPieces(o: string, a: string, p: Piece, q: Piece, so: nat, eo: nat)
    requires Fits(o, a, p) && Fits(o, a, q) && so <= p.length && eo <= q.length
    ensures AllFit(o, a, [TakeFront(p, so), DropFront(q, eo)])
    ensures Span(o, a, [TakeFront(p, so), DropFront(q, eo)]) == Slice(o, a, p)[..so] + Slice(o, a, q)[eo..]
  {
    TakeSlice(o, a, p, so);
    DropSlice(o, a, q, eo);
    SpanPair(o, a, TakeFront(p, so), DropFront(q, eo));
  }

  /** The first `so` characters of `p`. */
  lemma TruncatePieces(o: string, a: string, p: Piece, so: nat)
    requires Fits(o, a, p) && so <= p.length
    ensures AllFit(o, a, [TakeFront(p, so)])
    ensures Span(o, a, [TakeFront(p, so)]) == Slice(o, a, p)[..so]
  {
    TakeSlice(o, a, p, so);
    SpanSingle(o, a, TakeFront(p, so));
  }

  // ---------------------------------------------------------------------------
  // Cutting and splicing one string
  // ---------------------------------------------------------------------------

  // Each lemma below sees a text `T` as `A + S + C`, where `S` is the stretch
  // the edit touches, and an edited text `N` that keeps `A` and `C` around the
  // edited stretch `X`; `i` and `j` are the cut points in `T`.

  /** `M` spliced in at offset `off` of the stretch. */
  lemma SpliceText(T: string, N: string, A: string, S: string, C: string, X: string, M: string, i: nat, off: nat)
    requires T == A + S + C && N == A + X + C && i == |A| + off && off <= |S|
    requires X == S[..off] + M + S[off..]
    ensures N == T[..i] + M + T[i..]
  {
    assert T[..i] == A + S[..off];
    assert T[i..] == S[off..] + C;
  }

  /** `M` spliced in between `A` and `C`. */
  lemma PutText(T: string, N: string, A: string, C: string, M: string, i: nat)
    requires T == A + C && N == A + M + C && i == |A|
    ensures N == T[..i] + M + T[i..]
  {
    assert T[..i] == A;
    assert T[i..] == C;
  }

  /** The first `n` characters of the stretch cut. */
  lemma FrontText(T: string, N: string, A: string, S: string, C: string, X: string, i: nat, j: nat, n: nat)
    requires T == A + S + C && N == A + X + C && i == |A| && j == |A| + n && n <= |S|
    requires X == S[n..]
    ensures N == T[..i] + T[j..]
  {
    assert T[..i] == A;
    assert T[j..] == S[n..] + C;
  }

  /** The characters from `so` to `eo` of the stretch cut. */
  lemma MiddleText(T: string, N: string, A: string, S: string, C: string, X: string, i: nat, j: nat, so: nat, eo: nat)
    requires T == A + S + C && N == A + X + C && i == |A| + so && j == |A| + eo && so <= eo <= |S|
    requires X == S[..so] + S[eo..]
    ensures N == T[..i] + T[j..]
  {
    assert T[..i] == A + S[..so];
    assert T[j..] == S[eo..] + C;
  }

  /** Everything from offset `so` of the stretch `P` to offset `eo` of the
      later stretch `Q` cut, `B` lying between them. */
  lemma JoinText(T: string, N: string, A: string, P: string, B: string, Q: string, C: string, X: string,
                 i: nat, j: nat, so: nat, eo: nat)
    requires T == A + P + B + Q + C && N == A + X + C
    requires i == |A| + so && j == |A| + |P| + |B| + eo && so <= |P| && eo <= |Q|
    requires X == P[..so] + Q[eo..]
    ensures i <= j <= |T|
    ensures N == T[..i] + T[j..]
  {
    assert T[..i] == A + P[..so];
    assert T[j..] == Q[eo..] + C;
  }

  /** Everything from offset `so` of the stretch on cut. */
  lemma TruncateText(T: string, N: string, A: string, S: string, C: string, X: string, i: nat, so: nat)
    requires T == A + S + C && N == A + X && i == |A| + so && so <= |S|
    requires X == S[..so]
    ensures N == T[..i]
  {
    assert T[..i] == A + S[..so];
  }

  // ---------------------------------------------------------------------------
  // find_piece_at
  // ---------------------------------------------------------------------------

  /** Position `pos` is character `off` of piece `idx`, or `idx` is one past the
      last piece and `pos` is the end of the document. */
  predicate Locates(ps: seq<Piece>, pos: nat, idx: nat, off: nat)
  {
    && idx <= |ps|
    && (idx < |ps| ==> Total(ps[..idx]) + off == pos && off < ps[idx].length)
    && (idx == |ps| ==> off == 0 && pos == Total(ps))
  }

  /** The scan of find_piece_at from piece `i`, `cur` being the offset where it starts. */
  function Locate(ps: seq<Piece>, total: nat, pos: nat, i: nat, cur: nat): Option<(nat, nat)>
    requires i <= |ps| && cur <= pos
    decreases |ps| - i
  {
    if i == |ps| then
      if pos == total then Some((|ps|, 0)) else None
    else if pos < cur + ps[i].length then Some((i, pos - cur))
    else Locate(ps, total, pos, i + 1, cur + ps[i].length)
  }

  lemma {:induction false} LocateCorrect(ps: seq<Piece>, total: nat, pos: nat, i: nat, cur: nat)
    requires i <= |ps| && cur <= pos
    requires cur == Total(ps[..i]) && total == Total(ps)
    ensures var r := Locate(ps, total, pos, i, cur);
            && (r.Some? <==> pos <= total)
            && (r.Some? ==> i <= r.value.0 && Locates(ps, pos, r.value.0, r.value.1))
    decreases |ps| - i
  {
    if i == |ps| {
      assert ps[..i] == ps;
    } else {
      TotalStep(ps, i);
      if pos >= cur + ps[i].length {
        TotalMonotone(ps, i + 1, |ps|);
        assert ps[..|ps|] == ps;
        LocateCorrect(ps, total, pos, i + 1, cur + ps[i].length);
      } else {
        TotalMonotone(ps, i + 1, |ps|);
        assert ps[..|ps|] == ps;
      }
    }
  }

  function FindPieceAt(b: Buffer, pos: nat): (r: Option<(nat, nat)>)
    requires Valid(b)
    ensures r.Some? <==> pos <= b.totalLength
    ensures r.Some? ==> Locates(b.pieces, pos, r.value.0, r.value.1)
  {
    LocateCorrect(b.pieces, b.totalLength, pos, 0, 0);
    Locate(b.pieces, b.totalLength, pos, 0, 0)
  }

  // ---------------------------------------------------------------------------
  // buffer_create
  // ---------------------------------------------------------------------------

  /** An empty (or NULL) content gives no pieces; otherwise one ORIGINAL piece
      covering the whole content. */
  function Create(content: string): (b: Buffer)
    ensures Valid(b) && Text(b) == content
    ensures b.original == content && b.add == []
    ensures |content| == 0 ==> b.pieces == []
    ensures |content| > 0 ==> b.pieces == [Piece(Original, 0, |content|)]
  {
    if |content| > 0 then
      var b := Buffer(content, [], [Piece(Original, 0, |content|)], |content|);
      assert [Piece(Original, 0, |content|)][..0] == [];
      assert Summed([Piece(Original, 0, |content|)][..0]) == 0;
      assert content[0..|content|] == content;
      SpanSingle(content, [], Piece(Original, 0, |content|));
      b
    else Buffer([], [], [], 0)
  }

  // ---------------------------------------------------------------------------
  // buffer_insert
  // ---------------------------------------------------------------------------

  /** The three placements of buffer_insert: after the last piece, before the
      located piece, or splitting it around the new piece. */
  function PlaceInsert(ps: seq<Piece>, idx: nat, off: nat, np: Piece): seq<Piece>
    requires idx <= |ps|
    requires idx < |ps| ==> off <= ps[idx].length
  {
    if idx == |ps| then ps + [np]
    else if off == 0 then ps[..idx] + [np] + ps[idx..]
    else ps[..idx] + [TakeFront(ps[idx], off), np, DropFront(ps[idx], off)] + ps[idx + 1..]
  }

  /** The pieces buffer_insert builds keep fitting and stay non-empty. */
  lemma PlaceInsertValid(o: string, a: string, ps: seq<Piece>, idx: nat, off: nat, np: Piece)
    requires AllFit(o, a, ps) && Positive(ps) && Fits(o, a, np) && np.length > 0
    requires idx <= |ps| && (idx < |ps| ==> off < ps[idx].length)
    ensures AllFit(o, a, PlaceInsert(ps, idx, off, np))
    ensures Positive(PlaceInsert(ps, idx, off, np))
  {
    SpanSingle(o, a, np);
    if idx == |ps| {
      Surround(o, a, ps, idx, idx, [np]);
      assert ps[..idx] + [np] + ps[idx..] == ps + [np];
    } else if off == 0 {
      Surround(o, a, ps, idx, idx, [np]);
    } else {
      var hit := ps[idx];
      assert Fits(o, a, hit);
      SpanTriple(o, a, TakeFront(hit, off), np, DropFront(hit, off));
      Surround(o, a, ps, idx, idx + 1, [TakeFront(hit, off), np, DropFront(hit, off)]);
    }
  }

  /** Inserting after the last piece; `T` is the text before. */
  lemma InsertAtEnd(o: string, a: string, ps: seq<Piece>, np: Piece, T: string)
    requires AllFit(o, a, ps) && Fits(o, a, np) && T == Span(o, a, ps)
    ensures AllFit(o, a, ps + [np])
    ensures Total(ps) <= |T|
    ensures Span(o, a, ps + [np]) == T[..Total(ps)] + Slice(o, a, np) + T[Total(ps)..]
  {
    SpanSingle(o, a, np);
    SpanConcat(o, a, ps, [np]);
    SpanLength(o, a, ps);
    assert T[..|T|] == T;
  }

  /** Inserting between the pieces `L` and `R`. */
  lemma InsertBefore(o: string, a: string, L: seq<Piece>, R: seq<Piece>, np: Piece, T: string)
    requires AllFit(o, a, L) && AllFit(o, a, R) && Fits(o, a, np) && T == Span(o, a, L + R)
    ensures AllFit(o, a, L + [np] + R)
    ensures Total(L) <= |T|
    ensures Span(o, a, L + [np] + R) == T[..Total(L)] + Slice(o, a, np) + T[Total(L)..]
  {
    SpanConcat(o, a, L, R);
    SpanAroundPiece(o, a, L, np, R);
    PutText(T, Span(o, a, L + [np] + R), Span(o, a, L), Span(o, a, R), Slice(o, a, np), Total(L));
  }

  /** Splitting piece `p` at `off` around the new piece. */
  lemma InsertSplit(o: string, a: string, L: seq<Piece>, p: Piece, R: seq<Piece>, off: nat, np: Piece, T: string)
    requires AllFit(o, a, L) && Fits(o, a, p) && AllFit(o, a, R) && Fits(o, a, np) && off <= p.length
    requires T == Span(o, a, L + [p] + R)
    ensures AllFit(o, a, L + [TakeFront(p, off), np, DropFront(p, off)] + R)
    ensures Total(L) + off <= |T|
    ensures Span(o, a, L + [TakeFront(p, off), np, DropFront(p, off)] + R)
         == T[..Total(L) + off] + Slice(o, a, np) + T[Total(L) + off..]
  {
    var x := [TakeFront(p, off), np, DropFront(p, off)];
    SplitPieces(o, a, p, off, np);
    Respan(o, a, L, p, R, x);
    SpliceText(T, Span(o, a, L + x + R), Span(o, a, L), Slice(o, a, p), Span(o, a, R), Span(o, a, x),
               Slice(o, a, np), Total(L) + off, off);
  }

  // The three cases of buffer_insert's placement, each for the pieces as a whole.

  lemma PlaceAtEndSpan(o: string, a: string, ps: seq<Piece>, idx: nat, off: nat, np: Piece, T: string)
    requires AllFit(o, a, ps) && Fits(o, a, np) && T == Span(o, a, ps)
    requires idx == |ps| && off == 0
    ensures AllFit(o, a, PlaceInsert(ps, idx, off, np))
    ensures Total(ps[..idx]) + off <= |T|
    ensures Span(o, a, PlaceInsert(ps, idx, off, np))
         == T[..Total(ps[..idx]) + off] + Slice(o, a, np) + T[Total(ps[..idx]) + off..]
  {
    assert ps[..idx] == ps;
    InsertAtEnd(o, a, ps, np, T);
  }

  lemma PlaceBeforeSpan(o: string, a: string, ps: seq<Piece>, idx: nat, off: nat, np: Piece, T: string)
    requires AllFit(o, a, ps) && Fits(o, a, np) && T == Span(o, a, ps)
    requires idx < |ps| && off == 0
    ensures AllFit(o, a, PlaceInsert(ps, idx, off, np))
    ensures Total(ps[..idx]) + off <= |T|
    ensures Span(o, a, PlaceInsert(ps, idx, off, np))
         == T[..Total(ps[..idx]) + off] + Slice(o, a, np) + T[Total(ps[..idx]) + off..]
  {
    assert ps == ps[..idx] + ps[idx..];
    InsertBefore(o, a, ps[..idx], ps[idx..], np, T);
  }

  lemma PlaceSplitSpan(o: string, a: string, ps: seq<Piece>, idx: nat, off: nat, np: Piece, T: string)
    requires AllFit(o, a, ps) && Fits(o, a, np) && T == Span(o, a, ps)
    requires idx < |ps| && 0 < off < ps[idx].length
    ensures AllFit(o, a, PlaceInsert(ps, idx, off, np))
    ensures Total(ps[..idx]) + off <= |T|
    ensures Span(o, a, PlaceInsert(ps, idx, off, np))
         == T[..Total(ps[..idx]) + off] + Slice(o, a, np) + T[Total(ps[..idx]) + off..]
  {
    CutAt(o, a, ps, idx);
    InsertSplit(o, a, ps[..idx], ps[idx], ps[idx + 1..], off, np, T);
  }

  /** What buffer_insert's placement does to the text. */
  lemma PlaceInsertSpan(o: string, a: string, ps: seq<Piece>, idx: nat, off: nat, np: Piece, T: string)
    requires AllFit(o, a, ps) && Fits(o, a, np) && T == Span(o, a, ps)
    requires idx <= |ps| && (idx < |ps| ==> off < ps[idx].length) && (idx == |ps| ==> off == 0)
    ensures AllFit(o, a, PlaceInsert(ps, idx, off, np))
    ensures Total(ps[..idx]) + off <= |T|
    ensures Span(o, a, PlaceInsert(ps, idx, off, np))
         == T[..Total(ps[..idx]) + off] + Slice(o, a, np) + T[Total(ps[..idx]) + off..]
  {
    if idx == |ps| {
      PlaceAtEndSpan(o, a, ps, idx, off, np, T);
    } else if off == 0 {
      PlaceBeforeSpan(o, a, ps, idx, off, np, T);
    } else {
      PlaceSplitSpan(o, a, ps, idx, off, np, T);
    }
  }

  lemma InsertCorrect(b: Buffer, pos: nat, t: string, idx: nat, off: nat)
    requires Valid(b) && |t| > 0 && pos <= b.totalLength && Locates(b.pieces, pos, idx, off)
    ensures Valid(Buffer(b.original, b.add + t, PlaceInsert(b.pieces, idx, off, Piece(Added, |b.add|, |t|)), b.totalLength + |t|))
    ensures Text(Buffer(b.original, b.add + t, PlaceInsert(b.pieces, idx, off, Piece(Added, |b.add|, |t|)), b.totalLength + |t|))
         == Text(b)[..pos] + t + Text(b)[pos..]
  {
    var o, a, ps := b.original, b.add, b.pieces;
    var np := Piece(Added, |a|, |t|);
    var ps' := PlaceInsert(ps, idx, off, np);
    var T := Text(b);
    assert AllFit(o, a + t, ps) && Span(o, a + t, ps) == T by {
      SpanGrow(o, a, t, ps);
    }
    assert Fits(o, a + t, np) && Slice(o, a + t, np) == t;
    assert Total(ps[..idx]) + off == pos by {
      if idx == |ps| {
        assert ps[..idx] == ps;
      }
    }
    assert AllFit(o, a + t, ps') && Span(o, a + t, ps') == T[..pos] + t + T[pos..] by {
      PlaceInsertSpan(o, a + t, ps, idx, off, np, T);
    }
    assert Positive(ps') by {
      PlaceInsertValid(o, a + t, ps, idx, off, np);
    }
    assert Total(ps') == b.totalLength + |t| by {
      SpanLength(o, a + t, ps');
    }
  }

  /** buffer_insert: fails, changing nothing, on empty text or a position past
      the end; otherwise splices `t` in at `pos`, appending only to ADD. */
  function Insert(b: Buffer, pos: nat, t: string): (r: Option<Buffer>)
    requires Valid(b)
    ensures r.None? <==> |t| == 0 || pos > b.totalLength
    ensures r.Some? ==> && Valid(r.value)
                        && Text(r.value) == Text(b)[..pos] + t + Text(b)[pos..]
                        && r.value.totalLength == b.totalLength + |t|
                        && r.value.original == b.original
                        && r.value.add == b.add + t
  {
    if |t| == 0 || pos > b.totalLength then None
    else
      var (idx, off) := FindPieceAt(b, pos).value;
      var np := Piece(Added, |b.add|, |t|);
      InsertCorrect(b, pos, t, idx, off);
      Some(Buffer(b.original, b.add + t, PlaceInsert(b.pieces, idx, off, np), b.totalLength + |t|))
  }

  // ---------------------------------------------------------------------------
  // buffer_delete
  // ---------------------------------------------------------------------------

  /** The final pass of the multi-piece path: drop every zero-length piece. */
  function RemoveEmpty(ps: seq<Piece>): (r: seq<Piece>)
    ensures Positive(r)
    ensures Total(r) == Total(ps)
    ensures |r| <= |ps|
  {
    if |ps| == 0 then []
    else
      var init := RemoveEmpty(ps[..|ps| - 1]);
      var last := ps[|ps| - 1];
      if last.length == 0 then init
      else
        assert (init + [last])[..|init|] == init;
        init + [last]
  }

  lemma {:induction false} RemoveEmptySpan(o: string, a: string, ps: seq<Piece>)
    requires AllFit(o, a, ps)
    ensures AllFit(o, a, RemoveEmpty(ps))
    ensures Span(o, a, RemoveEmpty(ps)) == Span(o, a, ps)
  {
    if |ps| > 0 {
      var init := ps[..|ps| - 1];
      var last := ps[|ps| - 1];
      RemoveEmptySpan(o, a, init);
      if last.length > 0 {
        SpanSingle(o, a, last);
        SpanConcat(o, a, RemoveEmpty(init), [last]);
      }
    }
  }

  /** The pieces after buffer_delete of `len` characters starting at piece
      `si` offset `so` and ending at piece `ei` offset `eo`. Within one piece
      the piece is shortened from the front or split in two; across pieces the
      first piece keeps its first `so` characters, the last loses its first `eo`,
      the pieces in between go, and so does any piece left empty. */
  function DeletePieces(ps: seq<Piece>, si: nat, so: nat, ei: nat, eo: nat, len: nat): seq<Piece>
    requires si <= ei <= |ps| && si < |ps| && so < ps[si].length
    requires ei < |ps| ==> eo < ps[ei].length
    requires si == ei ==> eo == so + len
  {
    var p := ps[si];
    if si == ei then
      if so == 0 && eo == p.length then
        // deleting the whole piece: unreachable, the end offset lies inside the piece
        assert false; []
      else if so == 0 then
        ps[..si] + [DropFront(p, len)] + ps[si + 1..]
      else if eo == p.length then
        // deleting up to the end of the piece: unreachable for the same reason
        assert false; []
      else
        ps[..si] + [TakeFront(p, so), DropFront(p, eo)] + ps[si + 1..]
    else if ei < |ps| then
      RemoveEmpty(ps[..si] + [TakeFront(p, so), DropFront(ps[ei], eo)] + ps[ei + 1..])
    else
      RemoveEmpty(ps[..si] + [TakeFront(p, so)])
  }

  /** The pieces buffer_delete leaves stay non-empty. */
  lemma DeletePositive(ps: seq<Piece>, si: nat, so: nat, ei: nat, eo: nat, len: nat)
    requires Positive(ps)
    requires si <= ei <= |ps| && si < |ps| && so < ps[si].length
    requires ei < |ps| ==> eo < ps[ei].length
    requires si == ei ==> eo == so + len && len > 0
    ensures Positive(DeletePieces(ps, si, so, ei, eo, len))
  {
    var p := ps[si];
    if si == ei && so == 0 {
      var x := [DropFront(p, len)];
      assert Positive(ps[..si]) && Positive(x) && Positive(ps[si + 1..]);
      PositiveConcat(ps[..si], x);
      PositiveConcat(ps[..si] + x, ps[si + 1..]);
    } else if si == ei {
      var x := [TakeFront(p, so), DropFront(p, eo)];
      assert Positive(ps[..si]) && Positive(x) && Positive(ps[si + 1..]);
      PositiveConcat(ps[..si], x);
      PositiveConcat(ps[..si] + x, ps[si + 1..]);
    }
  }

  /** Cutting the first `n` characters of piece `p`; `T` is the text before. */
  lemma DeleteFront(o: string, a: string, L: seq<Piece>, p: Piece, R: seq<Piece>, n: nat, T: string)
    requires AllFit(o, a, L) && Fits(o, a, p) && AllFit(o, a, R) && n <= p.length
    requires T == Span(o, a, L + [p] + R)
    ensures AllFit(o, a, L + [DropFront(p, n)] + R)
    ensures Total(L) + n <= |T|
    ensures Span(o, a, L + [DropFront(p, n)] + R) == T[..Total(L)] + T[Total(L) + n..]
  {
    var x := [DropFront(p, n)];
    FrontPieces(o, a, p, n);
    Respan(o, a, L, p, R, x);
    FrontText(T, Span(o, a, L + x + R), Span(o, a, L), Slice(o, a, p), Span(o, a, R), Span(o, a, x),
              Total(L), Total(L) + n, n);
  }

  /** Cutting the characters from `so` to `eo` of piece `p`, which is split in two. */
  lemma DeleteMiddle(o: string, a: string, L: seq<Piece>, p: Piece, R: seq<Piece>, so: nat, eo: nat, T: string)
    requires AllFit(o, a, L) && Fits(o, a, p) && AllFit(o, a, R) && so <= eo <= p.length
    requires T == Span(o, a, L + [p] + R)
    ensures AllFit(o, a, L + [TakeFront(p, so), DropFront(p, eo)] + R)
    ensures Total(L) + eo <= |T|
    ensures Span(o, a, L + [TakeFront(p, so), DropFront(p, eo)] + R) == T[..Total(L) + so] + T[Total(L) + eo..]
  {
    var x := [TakeFront(p, so), DropFront(p, eo)];
    MiddlePieces(o, a, p, so, eo);
    Respan(o, a, L, p, R, x);
    MiddleText(T, Span(o, a, L + x + R), Span(o, a, L), Slice(o, a, p), Span(o, a, R), Span(o, a, x),
               Total(L) + so, Total(L) + eo, so, eo);
  }

  /** Cutting from offset `so` of piece `p` to offset `eo` of the later piece
      `q`, dropping the pieces `M` between them. */
  lemma DeleteJoin(o: string, a: string, L: seq<Piece>, p: Piece, M: seq<Piece>, q: Piece, R: seq<Piece>,
                   so: nat, eo: nat, T: string)
    requires AllFit(o, a, L) && Fits(o, a, p) && AllFit(o, a, M) && Fits(o, a, q) && AllFit(o, a, R)
    requires so <= p.length && eo <= q.length
    requires T == Span(o, a, L + [p] + M + [q] + R)
    ensures AllFit(o, a, L + [TakeFront(p, so), DropFront(q, eo)] + R)
    ensures Total(L) + so <= Total(L + [p] + M) + eo <= |T|
    ensures Span(o, a, L + [TakeFront(p, so), DropFront(q, eo)] + R)
         == T[..Total(L) + so] + T[Total(L + [p] + M) + eo..]
  {
    var x := [TakeFront(p, so), DropFront(q, eo)];
    JoinPieces(o, a, p, q, so, eo);
    Respan2(o, a, L, p, M, q, R, x);
    JoinText(T, Span(o, a, L + x + R), Span(o, a, L), Slice(o, a, p), Span(o, a, M), Slice(o, a, q), Span(o, a, R),
             Span(o, a, x), Total(L) + so, Total(L + [p] + M) + eo, so, eo);
  }

  /** Cutting everything from offset `so` of piece `p` on. */
  lemma DeleteTruncate(o: string, a: string, L: seq<Piece>, p: Piece, R: seq<Piece>, so: nat, T: string)
    requires AllFit(o, a, L) && Fits(o, a, p) && AllFit(o, a, R) && so <= p.length
    requires T == Span(o, a, L + [p] + R)
    ensures AllFit(o, a, L + [TakeFront(p, so)])
    ensures Total(L) + so <= |T|
    ensures Span(o, a, L + [TakeFront(p, so)]) == T[..Total(L) + so]
  {
    var x := [TakeFront(p, so)];
    TruncatePieces(o, a, p, so);
    SpanAroundPiece(o, a, L, p, R);
    SpanConcat(o, a, L, x);
    TruncateText(T, Span(o, a, L + x), Span(o, a, L), Slice(o, a, p), Span(o, a, R), Span(o, a, x), Total(L) + so, so);
  }

  // The four cases of buffer_delete's rearrangement, each for the pieces as a whole.

  lemma DeleteJoinAt(o: string, a: string, ps: seq<Piece>, si: nat, so: nat, ei: nat, eo: nat, T: string)
    requires AllFit(o, a, ps) && T == Span(o, a, ps)
    requires si < ei < |ps| && so < ps[si].length && eo < ps[ei].length
    ensures AllFit(o, a, ps[..si] + [TakeFront(ps[si], so), DropFront(ps[ei], eo)] + ps[ei + 1..])
    ensures Total(ps[..si]) + so <= Total(ps[..ei]) + eo <= |T|
    ensures Span(o, a, ps[..si] + [TakeFront(ps[si], so), DropFront(ps[ei], eo)] + ps[ei + 1..])
         == T[..Total(ps[..si]) + so] + T[Total(ps[..ei]) + eo..]
  {
    CutAt2(o, a, ps, si, ei);
    DeleteJoin(o, a, ps[..si], ps[si], ps[si + 1..ei], ps[ei], ps[ei + 1..], so, eo, T);
  }

  lemma DeleteSpanFront(o: string, a: string, ps: seq<Piece>, si: nat, so: nat, ei: nat, eo: nat, len: nat, T: string)
    requires AllFit(o, a, ps) && T == Span(o, a, ps)
    requires si == ei < |ps| && so == 0 && eo == len < ps[si].length
    ensures AllFit(o, a, DeletePieces(ps, si, so, ei, eo, len))
    ensures Total(ps[..si]) + so <= Total(ps[..ei]) + eo <= |T|
    ensures Span(o, a, DeletePieces(ps, si, so, ei, eo, len)) == T[..Total(ps[..si]) + so] + T[Total(ps[..ei]) + eo..]
  {
    CutAt(o, a, ps, si);
    DeleteFront(o, a, ps[..si], ps[si], ps[si + 1..], len, T);
  }

  lemma DeleteSpanMiddle(o: string, a: string, ps: seq<Piece>, si: nat, so: nat, ei: nat, eo: nat, len: nat, T: string)
    requires AllFit(o, a, ps) && T == Span(o, a, ps)
    requires si == ei < |ps| && 0 < so && eo == so + len < ps[si].length
    ensures AllFit(o, a, DeletePieces(ps, si, so, ei, eo, len))
    ensures Total(ps[..si]) + so <= Total(ps[..ei]) + eo <= |T|
    ensures Span(o, a, DeletePieces(ps, si, so, ei, eo, len)) == T[..Total(ps[..si]) + so] + T[Total(ps[..ei]) + eo..]
  {
    CutAt(o, a, ps, si);
    DeleteMiddle(o, a, ps[..si], ps[si], ps[si + 1..], so, eo, T);
  }

  lemma DeleteSpanJoin(o: string, a: string, ps: seq<Piece>, si: nat, so: nat, ei: nat, eo: nat, len: nat, T: string)
    requires AllFit(o, a, ps) && T == Span(o, a, ps)
    requires si < ei < |ps| && so < ps[si].length && eo < ps[ei].length
    ensures AllFit(o, a, DeletePieces(ps, si, so, ei, eo, len))
    ensures Total(ps[..si]) + so <= Total(ps[..ei]) + eo <= |T|
    ensures Span(o, a, DeletePieces(ps, si, so, ei, eo, len)) == T[..Total(ps[..si]) + so] + T[Total(ps[..ei]) + eo..]
  {
    DeleteJoinAt(o, a, ps, si, so, ei, eo, T);
    RemoveEmptySpan(o, a, ps[..si] + [TakeFront(ps[si], so), DropFront(ps[ei], eo)] + ps[ei + 1..]);
  }

  lemma DeleteSpanTruncate(o: string, a: string, ps: seq<Piece>, si: nat, so: nat, ei: nat, eo: nat, len: nat, T: string)
    requires AllFit(o, a, ps) && T == Span(o, a, ps)
    requires si < ei == |ps| && so < ps[si].length && eo == 0
    ensures AllFit(o, a, DeletePieces(ps, si, so, ei, eo, len))
    ensures Total(ps[..si]) + so <= Total(ps[..ei]) + eo <= |T|
    ensures Span(o, a, DeletePieces(ps, si, so, ei, eo, len)) == T[..Total(ps[..si]) + so] + T[Total(ps[..ei]) + eo..]
  {
    CutAt(o, a, ps, si);
    DeleteTruncate(o, a, ps[..si], ps[si], ps[si + 1..], so, T);
    RemoveEmptySpan(o, a, ps[..si] + [TakeFront(ps[si], so)]);
    assert ps[..ei] == ps;
    SpanLength(o, a, ps);
    assert T[|T|..] == [];
  }

  /** What buffer_delete's rearrangement does to the text. */
  lemma DeleteSpan(o: string, a: string, ps: seq<Piece>, si: nat, so: nat, ei: nat, eo: nat, len: nat, T: string)
    requires AllFit(o, a, ps) && T == Span(o, a, ps)
    requires si <= ei <= |ps| && si < |ps| && so < ps[si].length
    requires ei < |ps| ==> eo < ps[ei].length
    requires ei == |ps| ==> eo == 0
    requires si == ei ==> eo == so + len
    ensures AllFit(o, a, DeletePieces(ps, si, so, ei, eo, len))
    ensures Total(ps[..si]) + so <= Total(ps[..ei]) + eo <= |T|
    ensures Span(o, a, DeletePieces(ps, si, so, ei, eo, len)) == T[..Total(ps[..si]) + so] + T[Total(ps[..ei]) + eo..]
  {
    if si == ei && so == 0 {
      DeleteSpanFront(o, a, ps, si, so, ei, eo, len, T);
    } else if si == ei {
      DeleteSpanMiddle(o, a, ps, si, so, ei, eo, len, T);
    } else if ei < |ps| {
      DeleteSpanJoin(o, a, ps, si, so, ei, eo, len, T);
    } else {
      DeleteSpanTruncate(o, a, ps, si, so, ei, eo, len, T);
    }
  }

  /** Where the two located ends of a deletion lie. */
  lemma DeleteEnds(ps: seq<Piece>, pos: nat, len: nat, si: nat, so: nat, ei: nat, eo: nat)
    requires Positive(ps) && len > 0 && pos + len <= Total(ps)
    requires Locates(ps, pos, si, so) && Locates(ps, pos + len, ei, eo)
    ensures si <= ei <= |ps| && si < |ps| && so < ps[si].length
    ensures ei < |ps| ==> eo < ps[ei].length
    ensures ei == |ps| ==> eo == 0
    ensures si == ei ==> eo == so + len
    ensures Total(ps[..si]) + so == pos && Total(ps[..ei]) + eo == pos + len
  {
    assert ps[..|ps|] == ps;
    if ei < si {
      TotalStep(ps, ei);
      TotalMonotone(ps, ei + 1, si);
    }
  }

  lemma DeleteCorrect(b: Buffer, pos: nat, len: nat, si: nat, so: nat, ei: nat, eo: nat)
    requires Valid(b) && len > 0 && pos + len <= b.totalLength
    requires Locates(b.pieces, pos, si, so) && Locates(b.pieces, pos + len, ei, eo)
    ensures si <= ei <= |b.pieces| && si < |b.pieces| && so < b.pieces[si].length
    ensures ei < |b.pieces| ==> eo < b.pieces[ei].length
    ensures si == ei ==> eo == so + len
    ensures Valid(Buffer(b.original, b.add, DeletePieces(b.pieces, si, so, ei, eo, len), b.totalLength - len))
    ensures Text(Buffer(b.original, b.add, DeletePieces(b.pieces, si, so, ei, eo, len), b.totalLength - len))
         == Text(b)[..pos] + Text(b)[pos + len..]
  {
    var o, a, ps := b.original, b.add, b.pieces;
    DeleteEnds(ps, pos, len, si, so, ei, eo);
    var ps' := DeletePieces(ps, si, so, ei, eo, len);
    var T := Text(b);
    assert AllFit(o, a, ps') && Span(o, a, ps') == T[..pos] + T[pos + len..] by {
      DeleteSpan(o, a, ps, si, so, ei, eo, len, T);
    }
    assert Positive(ps') by {
      DeletePositive(ps, si, so, ei, eo, len);
    }
    assert Total(ps') == b.totalLength - len by {
      SpanLength(o, a, ps');
    }
  }

  /** buffer_delete: fails, changing nothing, on a zero length or a range past
      the end; otherwise removes exactly `len` characters at `pos`. */
  function Delete(b: Buffer, pos: nat, len: nat): (r: Option<Buffer>)
    requires Valid(b)
    ensures r.None? <==> len == 0 || pos + len > b.totalLength
    ensures r.Some? ==> Valid(r.value)
    ensures r.Some? ==> Text(r.value) == Text(b)[..pos] + Text(b)[pos + len..]
    ensures r.Some? ==> && r.value.totalLength == b.totalLength - len
                        && r.value.original == b.original
                        && r.value.add == b.add
  {
    if len == 0 || pos + len > b.totalLength then None
    else
      var (si, so) := FindPieceAt(b, pos).value;
      var (ei, eo) := FindPieceAt(b, pos + len).value;
      DeleteCorrect(b, pos, len, si, so, ei, eo);
      Some(Buffer(b.original, b.add, DeletePieces(b.pieces, si, so, ei, eo, len), b.totalLength - len))
  }

  // ---------------------------------------------------------------------------
  // buffer_char_at, buffer_get_text, buffer_get_all
  // ---------------------------------------------------------------------------

  /** The stretch `S` between `A` and `C`. */
  lemma MiddleOf(T: string, A: string, S: string, C: string)
    requires T == A + S + C
    ensures |A| + |S| <= |T|
    ensures T[|A|..|A| + |S|] == S
  {
    assert T[|A|..|A| + |S|] == (A + S + C)[|A|..|A| + |S|];
  }

  /** Piece `i` supplies the characters of the text from the sum of the
      lengths before it. */
  lemma PieceInSpan(o: string, a: string, ps: seq<Piece>, i: nat)
    requires AllFit(o, a, ps) && i < |ps|
    ensures Fits(o, a, ps[i])
    ensures Total(ps[..i]) + ps[i].length <= |Span(o, a, ps)|
    ensures Span(o, a, ps)[Total(ps[..i])..Total(ps[..i]) + ps[i].length] == Slice(o, a, ps[i])
  {
    CutAt(o, a, ps, i);
    SpanAroundPiece(o, a, ps[..i], ps[i], ps[i + 1..]);
    MiddleOf(Span(o, a, ps), Span(o, a, ps[..i]), Slice(o, a, ps[i]), Span(o, a, ps[i + 1..]));
  }

  lemma CharAtCorrect(b: Buffer, pos: nat, idx: nat, off: nat)
    requires Valid(b) && pos < b.totalLength && Locates(b.pieces, pos, idx, off)
    ensures idx < |b.pieces| && off < b.pieces[idx].length
    ensures b.pieces[idx].start + off < |Backing(b.original, b.add, b.pieces[idx].source)|
    ensures Text(b)[pos] == Backing(b.original, b.add, b.pieces[idx].source)[b.pieces[idx].start + off]
  {
    var o, a, ps := b.original, b.add, b.pieces;
    PieceInSpan(o, a, ps, idx);
    var T := Span(o, a, ps);
    var k := Total(ps[..idx]);
    assert T[pos] == T[k..k + ps[idx].length][off];
  }

  /** buffer_char_at: NUL at or past the end; otherwise the character the
      located piece holds at the located offset. */
  function CharAt(b: Buffer, pos: nat): (r: char)
    requires Valid(b)
    ensures r == CharOf(Text(b), pos)
  {
    if pos >= b.totalLength then '\0'
    else
      var (idx, off) := FindPieceAt(b, pos).value;
      CharAtCorrect(b, pos, idx, off);
      var p := b.pieces[idx];
      Backing(b.original, b.add, p.source)[p.start + off]
  }

  /** `x` brought into `[lo, hi]`. */
  function Clip(x: nat, lo: nat, hi: nat): nat
    requires lo <= hi
  {
    if x < lo then lo else if x > hi then hi else x
  }

  /** What buffer_get_text copies out of piece `p`, which begins at document
      offset `cur`, for the range `[start, end)`; nothing when `p` ends at or
      before `start`. */
  function Overlap(o: string, a: string, p: Piece, cur: nat, start: nat, end: nat): string
    requires Fits(o, a, p) && start < end && cur < end
  {
    var pieceEnd := cur + p.length;
    if pieceEnd > start then
      var copyStart := if start > cur then start - cur else 0;
      var copyEnd := if end < pieceEnd then end - cur else p.length;
      Backing(o, a, p.source)[p.start + copyStart .. p.start + copyEnd]
    else []
  }

  /** A slice of a slice of `T` is a slice of `T`. */
  lemma SliceOfSlice(T: string, i: nat, j: nat, x: nat, y: nat)
    requires i <= j <= |T| && x <= y <= j - i
    ensures T[i..j][x..y] == T[i + x..i + y]
  {
    forall k | 0 <= k < y - x
      ensures T[i..j][x..y][k] == T[i + x..i + y][k]
    {
    }
  }

  /** `T[i..j]` followed by `T[j..k]`. */
  lemma SliceJoin(T: string, i: nat, j: nat, k: nat)
    requires i <= j <= k <= |T|
    ensures T[i..j] + T[j..k] == T[i..k]
  {
  }

  /** Copying piece `p`, whose text is `T` from `cur` on, extends the copied
      prefix of the range `[start, end)` to the end of `p`. */
  lemma CopyPiece(o: string, a: string, p: Piece, T: string, cur: nat, start: nat, end: nat)
    requires Fits(o, a, p) && cur + p.length <= |T| && T[cur..cur + p.length] == Slice(o, a, p)
    requires start < end <= |T| && cur < end
    ensures T[start..Clip(cur, start, end)] + Overlap(o, a, p, cur, start, end)
         == T[start..Clip(cur + p.length, start, end)]
  {
    if cur + p.length > start {
      var copyStart := if start > cur then start - cur else 0;
      var copyEnd := if end < cur + p.length then end - cur else p.length;
      assert Overlap(o, a, p, cur, start, end) == Slice(o, a, p)[copyStart..copyEnd];
      SliceOfSlice(T, cur, cur + p.length, copyStart, copyEnd);
      SliceJoin(T, start, cur + copyStart, cur + copyEnd);
    }
  }

  /** Copying piece `ps[i]` extends the copied prefix of the range to the end
      of that piece. */
  lemma CopyStep(o: string, a: string, ps: seq<Piece>, i: nat, T: string, start: nat, end: nat)
    requires AllFit(o, a, ps) && T == Span(o, a, ps) && i < |ps|
    requires start < end <= |T| && Total(ps[..i]) < end
    ensures Total(ps[..i + 1]) == Total(ps[..i]) + ps[i].length
    ensures Total(ps[..i + 1]) <= |T|
    ensures T[start..Clip(Total(ps[..i]), start, end)] + Overlap(o, a, ps[i], Total(ps[..i]), start, end)
         == T[start..Clip(Total(ps[..i + 1]), start, end)]
  {
    TotalStep(ps, i);
    PieceInSpan(o, a, ps, i);
    CopyPiece(o, a, ps[i], T, Total(ps[..i]), start, end);
  }

  /** buffer_get_text: NULL when the range runs past the end; otherwise the
      overlap of each piece with the range, piece by piece, until `length`
      characters are copied. */
  method GetText(b: Buffer, start: nat, length: nat) returns (r: Option<string>)
    requires Valid(b)
    ensures r.None? <==> start + length > b.totalLength
    ensures r.Some? ==> r.value == Text(b)[start..start + length]
  {
    if start + length > b.totalLength {
      return None;
    }
    ghost var T := Text(b);
    var result: string := [];
    var cur := 0;
    var i := 0;
    while i < |b.pieces| && |result| < length
      invariant i <= |b.pieces|
      invariant cur == Total(b.pieces[..i]) && cur <= |T|
      invariant result == T[start..Clip(cur, start, start + length)]
      decreases |b.pieces| - i
    {
      CopyStep(b.original, b.add, b.pieces, i, T, start, start + length);
      result := result + Overlap(b.original, b.add, b.pieces[i], cur, start, start + length);
      cur := cur + b.pieces[i].length;
      i := i + 1;
    }
    if i == |b.pieces| {
      assert b.pieces[..i] == b.pieces;
    }
    return Some(result);
  }

  /** buffer_get_all: the whole document. */
  method GetAll(b: Buffer) returns (r: string)
    requires Valid(b)
    ensures r == Text(b)
  {
    var s := GetText(b, 0, b.totalLength);
    r := s.value;
  }

  // ---------------------------------------------------------------------------
  // buffer_replace
  // ---------------------------------------------------------------------------

  /** A text with `n` characters cut at `pos`, then `t` put in there. */
  lemma ReplaceText(T: string, D: string, N: string, pos: nat, n: nat, t: string)
    requires pos + n <= |T| && D == T[..pos] + T[pos + n..]
    requires N == D[..pos] + t + D[pos..]
    ensures N == T[..pos] + t + T[pos + n..]
  {
    assert D[..pos] == T[..pos];
    assert D[pos..] == T[pos + n..];
  }

  /** buffer_replace: a failed delete fails, changing nothing; otherwise the
      deleted range's place takes `t` (nothing is inserted when `t` is empty). */
  function Replace(b: Buffer, pos: nat, oldLength: nat, t: string): (r: Option<Buffer>)
    requires Valid(b)
    ensures r.None? <==> oldLength == 0 || pos + oldLength > b.totalLength
    ensures r.Some? ==> Valid(r.value)
    ensures r.Some? ==> Text(r.value) == Text(b)[..pos] + t + Text(b)[pos + oldLength..]
    ensures r.Some? ==> && r.value.totalLength == b.totalLength - oldLength + |t|
                        && r.value.original == b.original
                        && r.value.add == b.add + t
  {
    match Delete(b, pos, oldLength)
    case None => None
    case Some(d) =>
      if |t| > 0 then
        var r := Insert(d, pos, t);
        ReplaceText(Text(b), Text(d), Text(r.value), pos, oldLength, t);
        r
      else
        assert Text(b)[..pos] + t == Text(b)[..pos];
        Some(d)
  }

  // ---------------------------------------------------------------------------
  // Edits undone
  // ---------------------------------------------------------------------------

  /** `T` with `X` put in place of its `n` characters at `pos`, then those
      characters put back in place of `X`. */
  lemma RestoreText(T: string, pos: nat, n: nat, X: string, N: string, R: string)
    requires pos + n <= |T| && N == T[..pos] + X + T[pos + n..]
    requires R == N[..pos] + T[pos..pos + n] + N[pos + |X|..]
    ensures R == T
  {
    assert N[..pos] == T[..pos];
    assert N[pos + |X|..] == T[pos + n..];
    assert T == T[..pos] + T[pos..pos + n] + T[pos + n..];
  }

  /** `X` put in at `pos`, then cut again. */
  lemma CutInserted(T: string, pos: nat, X: string, N: string, R: string)
    requires pos <= |T| && N == T[..pos] + X + T[pos..]
    requires R == N[..pos] + N[pos + |X|..]
    ensures R == T
  {
    assert N[..pos] == T[..pos];
    assert N[pos + |X|..] == T[pos..];
  }

  /** `n` characters cut at `pos`, then put back. */
  lemma PutBack(T: string, pos: nat, n: nat, D: string, R: string)
    requires pos + n <= |T| && D == T[..pos] + T[pos + n..]
    requires R == D[..pos] + T[pos..pos + n] + D[pos..]
    ensures R == T
  {
    assert D[..pos] == T[..pos];
    assert D[pos..] == T[pos + n..];
    assert T == T[..pos] + T[pos..pos + n] + T[pos + n..];
  }

  /** Deleting what was just inserted gives back the document. */
  lemma DeleteUndoesInsert(b: Buffer, pos: nat, t: string)
    requires Valid(b) && |t| > 0 && pos <= b.totalLength
    ensures Insert(b, pos, t).Some?
    ensures Delete(Insert(b, pos, t).value, pos, |t|).Some?
    ensures Text(Delete(Insert(b, pos, t).value, pos, |t|).value) == Text(b)
  {
    var inserted := Insert(b, pos, t).value;
    var deleted := Delete(inserted, pos, |t|).value;
    CutInserted(Text(b), pos, t, Text(inserted), Text(deleted));
  }

  /** Inserting back what was just deleted gives back the document. */
  lemma InsertUndoesDelete(b: Buffer, pos: nat, len: nat)
    requires Valid(b) && len > 0 && pos + len <= b.totalLength
    ensures Delete(b, pos, len).Some?
    ensures Insert(Delete(b, pos, len).value, pos, Text(b)[pos..pos + len]).Some?
    ensures Text(Insert(Delete(b, pos, len).value, pos, Text(b)[pos..pos + len]).value) == Text(b)
  {
    var deleted := Delete(b, pos, len).value;
    var inserted := Insert(deleted, pos, Text(b)[pos..pos + len]).value;
    PutBack(Text(b), pos, len, Text(deleted), Text(inserted));
  }

  /** Replacing the new text by the old one gives back the document. */
  lemma ReplaceUndone(b: Buffer, pos: nat, oldLength: nat, t: string)
    requires Valid(b) && oldLength > 0 && |t| > 0 && pos + oldLength <= b.totalLength
    ensures Replace(b, pos, oldLength, t).Some?
    ensures Replace(Replace(b, pos, oldLength, t).value, pos, |t|, Text(b)[pos..pos + oldLength]).Some?
    ensures Text(Replace(Replace(b, pos, oldLength, t).value, pos, |t|, Text(b)[pos..pos + oldLength]).value)
         == Text(b)
  {
    var T := Text(b);
    var once := Replace(b, pos, oldLength, t).value;
    var twice := Replace(once, pos, |t|, T[pos..pos + oldLength]).value;
    RestoreText(T, pos, oldLength, t, Text(once), Text(twice));
  }
}
