/** The worked example of mix/core/src/buffer.h, stated against the model. */
module Scenarios {
  import opened Optional
  import opened PieceTable

  /** Offset 6 of "Hello World" is character 6 of its one piece. */
  lemma LocateInHelloWorld()
    ensures FindPieceAt(Create("Hello World"), 6) == Some((0, 6))
  {
    var b := Create("Hello World");
    var (idx, off) := FindPieceAt(b, 6).value;
    assert Total(b.pieces) == 11;
    assert b.pieces[..0] == [];
  }

  /** "Beautiful " inserted at offset 6 of "Hello World" splits the one
      ORIGINAL piece around a new ADD piece, and the document reads
      "Hello Beautiful World". */
  lemma HelloBeautifulWorld()
    ensures var r := Insert(Create("Hello World"), 6, "Beautiful ");
            && r.Some?
            && r.value.original == "Hello World"
            && r.value.add == "Beautiful "
            && r.value.pieces == [Piece(Original, 0, 6), Piece(Added, 0, 10), Piece(Original, 6, 5)]
            && Text(r.value) == "Hello Beautiful World"
  {
    var b := Create("Hello World");
    LocateInHelloWorld();
    var r := Insert(b, 6, "Beautiful ");
    assert r.value.pieces == PlaceInsert(b.pieces, 0, 6, Piece(Added, 0, 10));
    assert "Hello World"[..6] == "Hello " && "Hello World"[6..] == "World";
    assert "Hello " + "Beautiful " + "World" == "Hello Beautiful World";
  }
}
