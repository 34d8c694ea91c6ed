// The Board of tic-tac-toe-menace/raw_board.py: the same 2-bit packing as
// board.py, in the field `board`, with pieces passed as raw ints.

module RawBoard {
  import opened Bits
  import opened TicTacToe

  class Board {
    /** The pieces of `board`: position pos is the 2-bit field at 2 * pos. */
    var cells: Grid

    /** Board(val) for the val Encode(s). */
    constructor (s: Grid)
      ensures cells == s && AsKey() == Encode(s)
    {
      cells := s;
    }

    /** as_key(): the packed int itself, which fits in 18 bits. */
    function AsKey(): (k: nat)
      reads this
      ensures k < Pow4(9)
    {
      EncodeBound(cells);
      Encode(cells)
    }

    /** raw_piece_at(pos): `(board >> pos * 2) & 0b11`, EMPTY past position 8. */
    function RawPieceAt(pos: nat): (p: Piece)
      reads this
      ensures p == AsKey() / Pow4(pos) % 4
    {
      FieldAt(cells, pos);
      if pos < 9 then cells[pos] else Empty
    }

    /** possible_plays(): the positions whose field is 0, ascending. */
    function PossiblePlays(): (r: seq<nat>)
      reads this
      ensures forall x: nat :: x in r <==> x < 9 && cells[x] == Empty
      ensures Ascending(r)
      ensures |r| == multiset(cells)[Empty]
    {
      PossiblePlaysExact(cells);
      TicTacToe.PossiblePlays(cells)
    }

    /** clone(): a new board with the same value. */
    method Clone() returns (b: Board)
      ensures fresh(b) && b.cells == cells
    {
      b := new Board(cells);
    }

    /** place_raw_piece_at(piece, pos): ORs the piece into its field, which on an
        EMPTY position sets that field alone. */
    method PlaceRawPieceAt(piece: Piece, pos: nat)
      modifies this
      requires pos < 9 && cells[pos] == Empty
      ensures cells == old(cells)[pos := piece]
      ensures AsKey() == old(AsKey()) + piece * Pow4(pos)
    {
      EncodeSet(cells, pos, piece);
      cells := cells[pos := piece];
    }

    /** with_raw_play(piece, pos): the board after the play, as a new object. */
    method WithRawPlay(piece: Piece, pos: nat) returns (b: Board)
      requires pos < 9 && cells[pos] == Empty
      ensures fresh(b) && b.cells == After(cells, pos, piece)
    {
      b := Clone();
      b.PlaceRawPieceAt(piece, pos);
    }

    /** clear(): the all-EMPTY board, whose key is 0. */
    method Clear()
      modifies this
      ensures cells == EmptyGrid() && AsKey() == 0
    {
      cells := EmptyGrid();
    }

    /** rotate(): reads the pieces in the order of RotateIdx, then refills. */
    method Rotate()
      modifies this
      ensures cells == Rotated(old(cells))
    {
      var pieces := Pieces(RotateIdx);
      Refill(pieces);
    }

    /** flip(): the same with FlipIdx. */
    method Flip()
      modifies this
      ensures cells == Flipped(old(cells))
    {
      var pieces := Pieces(FlipIdx);
      Refill(pieces);
    }

    /** `[self.raw_piece_at(i) for i in indices]` */
    function Pieces(idx: seq<nat>): (pieces: Grid)
      reads this
      requires IsIndexTable(idx)
      ensures pieces == Gather(cells, idx)
    {
      seq(9, i requires 0 <= i < 9 reads this => RawPieceAt(idx[i]))
    }

    /** The second half of rotate() and flip(): the board is cleared and the
        pieces are placed back position by position. */
    method Refill(pieces: Grid)
      modifies this
      ensures cells == pieces
    {
      Clear();
      var pos: nat := 0;
      while pos < 9
        invariant pos <= 9
        invariant forall i :: 0 <= i < 9 ==> cells[i] == if i < pos then pieces[i] else Empty
      {
        PlaceRawPieceAt(pieces[pos], pos);
        pos := pos + 1;
      }
    }

    /** piece_has_won(piece): the loop over the eight combos. */
    function PieceHasWon(piece: Piece): (r: bool)
      reads this
      ensures r <==> Won(cells, piece)
    {
      AnyLineFrom(cells, piece, 0)
    }

    /** board_filled(): no possible play is left, which is no EMPTY position. */
    function BoardFilled(): (r: bool)
      reads this
      ensures r <==> Filled(cells)
    {
      FilledIffNoPlays(cells);
      |PossiblePlays()| == 0
    }
  }
}
