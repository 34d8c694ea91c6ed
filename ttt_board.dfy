// The Board of tic-tac-toe-menace/board.py: `bitfield` holds the nine pieces,
// two bits each. The class keeps them as a Grid; the int is Encode(cells),
// and every operation is stated against the functions of TicTacToe.

module MenaceBoard {
  import opened Bits
  import opened TicTacToe

  class Board {
    /** The pieces of bitfield: position pos is the 2-bit field at 2 * pos. */
    var cells: Grid

    /** Board(bitfield) for the bitfield Encode(s); Board() is Board(EmptyGrid()). */
    constructor (s: Grid)
      ensures cells == s && Hash() == Encode(s)
    {
      cells := s;
    }

    /** hash(): the bitfield itself, which fits in 18 bits. */
    function Hash(): (h: nat)
      reads this
      ensures h < Pow4(9)
    {
      EncodeBound(cells);
      Encode(cells)
    }

    /** piece_at(pos): the 2-bit field at 2 * pos, EMPTY past position 8. */
    function PieceAt(pos: nat): (p: Piece)
      reads this
      ensures p == Hash() / Pow4(pos) % 4
    {
      FieldAt(cells, pos);
      if pos < 9 then cells[pos] else Empty
    }

    /** possible_plays(): the EMPTY positions, ascending, one per EMPTY piece. */
    function PossiblePlays(): (r: seq<nat>)
      reads this
      ensures forall x: nat :: x in r <==> x < 9 && cells[x] == Empty
      ensures Ascending(r)
      ensures |r| == multiset(cells)[Empty]
    {
      PossiblePlaysExact(cells);
      TicTacToe.PossiblePlays(cells)
    }

    /** clone(): a new board with the same bitfield. */
    method Clone() returns (b: Board)
      ensures fresh(b) && b.cells == cells
    {
      b := new Board(cells);
    }

    /** place_piece_at(piece, pos): ORs the piece into its field; on an EMPTY
        position, the only kind its callers use, that is adding piece * 4^pos. */
    method PlacePieceAt(piece: Piece, pos: nat)
      modifies this
      requires pos < 9 && cells[pos] == Empty
      ensures cells == old(cells)[pos := piece]
      ensures Hash() == old(Hash()) + piece * Pow4(pos)
    {
      EncodeSet(cells, pos, piece);
      cells := cells[pos := piece];
    }

    /** with_play(piece, pos): the board after the play, as a new object; the
        receiver is not modified. */
    method WithPlay(piece: Piece, pos: nat) returns (b: Board)
      requires pos < 9 && cells[pos] == Empty
      ensures fresh(b) && b.cells == After(cells, pos, piece)
    {
      b := Clone();
      b.PlacePieceAt(piece, pos);
    }

    /** clear(): bitfield = 0. */
    method Clear()
      modifies this
      ensures cells == EmptyGrid() && Hash() == 0
    {
      cells := EmptyGrid();
    }

    /** rotate(): reads the pieces in the order of RotateIdx, then refills. */
    method Rotate()
      modifies this
      ensures cells == Rotated(old(cells))
    {
      var pieces := Pieces(RotateIdx);
      Refill(pieces);
    }

    /** flip(): the same with FlipIdx. */
    method Flip()
      modifies this
      ensures cells == Flipped(old(cells))
    {
      var pieces := Pieces(FlipIdx);
      Refill(pieces);
    }

    /** `[self.piece_at(i) for i in indices]` */
    function Pieces(idx: seq<nat>): (pieces: Grid)
      reads this
      requires IsIndexTable(idx)
      ensures pieces == Gather(cells, idx)
    {
      seq(9, i requires 0 <= i < 9 reads this => PieceAt(idx[i]))
    }

    /** The second half of rotate() and flip(): the board is cleared and the
        pieces are placed back position by position. */
    method Refill(pieces: Grid)
      modifies this
      ensures cells == pieces
    {
      Clear();
      var pos: nat := 0;
      while pos < 9
        invariant pos <= 9
        invariant forall i :: 0 <= i < 9 ==> cells[i] == if i < pos then pieces[i] else Empty
      {
        PlacePieceAt(pieces[pos], pos);
        pos := pos + 1;
      }
    }

    /** board_filled(): no position is EMPTY, which is no play being possible. */
    function BoardFilled(): (r: bool)
      reads this
      ensures r <==> |PossiblePlays()| == 0
    {
      FilledIffNoPlays(cells);
      assert forall pos :: 0 <= pos < 9 ==> PieceAt(pos) == cells[pos];
      forall pos :: 0 <= pos < 9 ==> PieceAt(pos) != Empty
    }

    /** piece_has_won(piece): the loop over the eight patterns. */
    function PieceHasWon(piece: Piece): (r: bool)
      reads this
      ensures r <==> Won(cells, piece)
    {
      AnyLineFrom(cells, piece, 0)
    }
  }
}
