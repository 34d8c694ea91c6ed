// The Connect Four board of src/board.hpp and src/board.cpp as a class whose
// state is the 64 two-bit slots of m_val; every operation is proved against
// the functions of BoardSpec.

module ConnectFour {
  import opened Wrappers
  import opened Bits
  import opened BoardTypes
  import opened BoardSpec

  class Board {
    /** The slots of m_val: slot col * 6 + row holds the tile at (col, row). */
    var cells: seq<Tile>

    ghost predicate Valid()
      reads this
    {
      WellFormed(cells)
    }

    /** Board(): m_val starts at 0, every slot Empty. */
    constructor ()
      ensures Valid() && cells == EmptySlots()
      ensures Packed(cells) == 0
    {
      cells := EmptySlots();
      PackedEmpty(SlotCount);
    }

    /** Board is a value type: `auto clone = board;` copies m_val. */
    constructor Copy(other: Board)
      requires other.Valid()
      ensures Valid() && cells == other.cells
    {
      cells := other.cells;
    }

    /** tile(pos): the two bits of m_val at 2 * offset(pos), which is
        slot offset(pos) (SlotOfPacked). */
    function TileAt(p: Pos): (t: Tile)
      reads this
      requires |cells| == SlotCount && Offset(p) < SlotCount
      ensures p.col * 6 + p.row < SlotCount ==> t == Cell(cells, p.col, p.row)
    {
      cells[Offset(p)]
    }

    /** set_tile(pos, tile): ORs the tile's code into its field; insert calls
        it only on an Empty cell, where OR-ing is adding. */
    method SetTile(p: Pos, t: Tile)
      modifies this
      requires Valid() && p.col < Width && p.row < Height && TileAt(p) == Empty
      ensures Valid()
      ensures cells == old(cells)[Offset(p) := t]
      ensures Packed(cells) == old(Packed(cells)) + TileCode(t) * Pow4(Offset(p))
    {
      PackedSet(cells, Offset(p), t);
      cells := cells[Offset(p) := t];
    }

    /** possible_moves(): bit x is set exactly for the columns x < 7 whose top
        cell is Empty. */
    method PossibleMovesMask() returns (m: PossibleMoves)
      requires Valid()
      ensures m.raw == MovesMask(cells, Width)
      ensures forall x: nat :: x < 64 ==> (m.At(x) <==> Legal(cells, x))
    {
      var res: SizeT := 0;
      var x: nat := 0;
      while x < Width
        invariant x <= Width
        invariant res == MovesMask(cells, x)
      {
        MovesMaskStep(cells, x);
        if TileAt(Pos(x, 0)) == Empty {
          res := Or(res, Shl(1, x));
        }
        x := x + 1;
      }
      m := PossibleMoves(res);
      forall i: nat | i < 64 ensures m.At(i) <==> Legal(cells, i) {
        PossibleMovesExact(cells, i);
      }
    }

    /** insert(col, tile): scans from the bottom row up and writes the tile into
        the first Empty cell. A full column is std::unreachable in the source. */
    method Insert(col: nat, t: Tile) returns (p: Pos)
      modifies this
      requires Valid() && col < Width && HasEmptyRow(cells, col)
      ensures Valid()
      ensures p == Pos(col, LandingRow(old(cells), col))
      ensures cells == Inserted(old(cells), col, t)
    {
      var y: int := Height - 1;
      while y >= 0
        invariant -1 <= y < Height
        invariant forall r: nat :: y < r < Height ==> Cell(cells, col, r) != Empty
      {
        p := Pos(col, y);
        if TileAt(p) == Empty {
          assert LandingRow(cells, col) == y;
          OffsetDecodes(p);
          SetTile(p, t);
          return;
        }
        y := y - 1;
      }
      assert false;
    }

    /** is_draw(): no column has an Empty top cell. */
    method IsDraw() returns (d: bool)
      requires Valid()
      ensures d <==> Full(cells)
    {
      var col: nat := 0;
      while col < Width
        invariant col <= Width
        invariant forall c: nat :: c < col ==> Cell(cells, c, 0) != Empty
      {
        if TileAt(Pos(col, 0)) == Empty {
          return false;
        }
        col := col + 1;
      }
      return true;
    }

    /** The window test of game_state for pattern pi at origin (x, y): the
        first tile is non-empty and every tile of the pattern equals it. */
    method WindowWon(pi: nat, x: nat, y: nat) returns (first: Tile, won: bool)
      requires Valid() && pi < 4 && x < Width && y < Height
      ensures first == cells[x * 6 + y + PatternOffset(pi, 0)]
      ensures won <==> WindowWins(cells, pi, x * 6 + y)
    {
      WindowWinsMatches(cells, pi, x * 6 + y);
      var tiles := Patterns[pi];
      FirstStep(pi, x, y);
      first := TileAt(Pos(x, y).Plus(Pos(tiles[0].0, tiles[0].1)));
      if first == Empty {
        return first, false;
      }
      won := AllMatch(pi, x, y, first);
    }

    /** The loop over the pattern's tiles in game_state: every tile of the
        window of pattern pi at (x, y) equals first. */
    method AllMatch(pi: nat, x: nat, y: nat, first: Tile) returns (won: bool)
      requires Valid() && pi < 4 && x < Width && y < Height
      ensures won <==> Matches(cells, x * 6 + y, pi, WindowSize, first)
    {
      for t := 0 to WindowSize
        invariant Matches(cells, x * 6 + y, pi, t, first)
      {
        var current := PatternTile(pi, x, y, t);
        if first != current {
          MatchesStop(cells, x * 6 + y, pi, t, first, WindowSize);
          return false;
        }
        MatchesNext(cells, x * 6 + y, pi, t, first);
      }
      return true;
    }

    /** `tile(Pos { x + tx, y + ty })` for the t-th step (tx, ty) of pattern pi:
        the slot PatternOffset(pi, t) away from the origin. */
    function PatternTile(pi: nat, x: nat, y: nat, t: nat): (tile: Tile)
      reads this
      requires Valid() && pi < 4 && x < Width && y < Height && t < 4
      ensures x * 6 + y + PatternOffset(pi, t) < SlotCount
      ensures tile == cells[x * 6 + y + PatternOffset(pi, t)]
    {
      PatternsOffset(pi, t);
      TileAt(Pos(x + Patterns[pi][t].0, y + Patterns[pi][t].1))
    }

    /** game_state(): the first winning window in scan order decides the colour;
        otherwise a full board is a draw. */
    method GameStateOf() returns (g: GameState)
      requires Valid()
      ensures g == StateOf(cells)
    {
      var pi: nat := 0;
      ghost var k: nat := 0;
      while pi < 4
        invariant pi <= 4 && k == pi * 42
        invariant ScanFrom(cells, 0) == ScanFrom(cells, k)
      {
        var x: nat := 0;
        while x < Width
          invariant x <= Width && k == pi * 42 + x * 6
          invariant ScanFrom(cells, 0) == ScanFrom(cells, k)
        {
          var w := ScanColumn(pi, x, k);
          if w.Some? {
            return if w.value == Tile.Red then RedWon else BlueWon;
          }
          x := x + 1;
          k := k + 6;
        }
        pi := pi + 1;
      }
      var d := IsDraw();
      return if d then Draw else Ongoing;
    }

    /** game_state's innermost loop: the windows of pattern pi whose first
        tile sits in column x, bottom row first. The first one won gives its
        tile; with none won the scan goes on at the next column. */
    method ScanColumn(pi: nat, x: nat, ghost k: nat) returns (w: Option<Tile>)
      requires Valid() && pi < 4 && x < Width && k == pi * 42 + x * 6
      ensures w.Some? ==> ScanFrom(cells, k) == w
      ensures w.None? ==> ScanFrom(cells, k) == ScanFrom(cells, k + 6)
    {
      var y: nat := 0;
      ghost var j: nat := k;
      while y < Height
        invariant y <= Height && j == k + y
        invariant ScanFrom(cells, k) == ScanFrom(cells, j)
      {
        var first, won := WindowWon(pi, x, y);
        WindowScan(cells, pi, x, y, j);
        if won {
          return Some(first);
        }
        y := y + 1;
        j := j + 1;
      }
      return None;
    }

    /** col_hash(col): bit r marks a Red token in row r; col_height, decremented
        once per Empty cell, lands in bits 6 and up. */
    method ColHash(col: nat) returns (h: SizeT)
      requires Valid() && col < Width
      ensures h == ColHashOf(cells, col)
      ensures ColumnLayout(cells, col, h)
    {
      var colHeight: SizeT := Height;
      var hash: SizeT := 0;
      var row: nat := 0;
      while row < Height
        invariant row <= Height
        invariant colHeight == Height - row + Filled(cells, col, row)
        invariant hash == RedMask(cells, col, row)
      {
        ColHashStep(cells, col, row);
        FilledNext(cells, col, row);
        var t := TileAt(Pos(col, row));
        if t == Empty {
          colHeight := colHeight - 1;
        } else if t == Tile.Red {
          hash := Or(hash, Shl(1, row));
        }
        row := row + 1;
      }
      ColHashFinal(cells, col);
      h := Or(hash, Shl(colHeight, 6));
      ColHashLayout(cells, col);
    }

    /** hash(): the seven 9-bit column hashes side by side. Field c of the
        result is col_hash(c), so the hash determines each column's Red rows
        and height (HashDeterminesColumns). */
    method Hash() returns (h: SizeT)
      requires Valid()
      ensures h == HashUpTo(cells, Width)
      ensures forall c: nat :: c < Width ==> Field9(h, c) == ColHashOf(cells, c) && ColumnLayout(cells, c, Field9(h, c))
    {
      var res: SizeT := 0;
      var col: nat := 0;
      while col < Width
        invariant col <= Width
        invariant res == HashUpTo(cells, col)
      {
        var colRes := ColHash(col);
        HashStep(cells, col);
        res := Or(res, Shl(colRes, 9 * col));
        col := col + 1;
      }
      h := res;
      forall c: nat | c < Width
        ensures Field9(h, c) == ColHashOf(cells, c) && ColumnLayout(cells, c, Field9(h, c))
      {
        HashFields(cells, c);
      }
    }

    /** flipped_hash(): its loop starts at col = width and so never runs; the
        result is always 0. */
    method FlippedHash() returns (h: SizeT)
      requires Valid()
      ensures h == 0
    {
      h := 0;
    }

    /** The inner loop of win_possibilities_at_pos: j runs from i - 3 in
        size_t, which wraps past i for i < 3, so only i = 3 looks at the four
        cells of the window in direction d. */
    method CanWin(color: Color, col: nat, row: nat, d: nat, i: nat) returns (canWin: bool)
      requires Valid() && col < Width && row < Height && d < 4 && i <= 3
      ensures i < 3 ==> canWin
      ensures i == 3 ==> (canWin <==> WindowOpen(cells, color, col, row, d))
    {
      canWin := true;
      var j: nat := (i + Word - 3) % Word;
      assert i < 3 ==> j == i + Word - 3;
      while j <= i
        invariant i == 3 ==> j <= 4
        invariant i < 3 ==> j == i + Word - 3
        invariant i == 3 ==> (canWin <==> forall j': nat :: j' < j ==> !Blocks(cells[col * 6 + row + Steps[d] * j'], color))
        invariant i < 3 ==> canWin
        decreases Word - j
      {
        var x := (col + Directions[d].0 * j) % Word;
        var y := (row + Directions[d].1 * j) % Word;
        WindowOffsetValue(col, row, d, j);
        var t := TileAt(Pos(x, y));
        if t != Empty && t != ToTile(color) {
          canWin := false;
        }
        j := j + 1;
      }
      if i == 3 {
        WindowOpenCells(cells, color, col, row, d);
      }
    }

    /** win_possibilities_at_pos(color, col, row). */
    method WinPossibilitiesAtPos(color: Color, col: nat, row: nat) returns (result: nat)
      requires Valid() && col < 0x1_0000 && row < 0x1_0000
      ensures result == WinPossibilities(cells, color, col, row)
    {
      if col >= Width || row >= Height {
        return 0;
      }
      result := 0;
      var d: nat := 0;
      while d < 4
        invariant d <= 4
        invariant result == ScoreUpTo(cells, color, col, row, d)
      {
        var i: nat := 0;
        while i <= 3
          invariant i <= 4
          invariant result == ScoreUpTo(cells, color, col, row, d) +
            (if i <= 3 then i else DirectionScore(cells, color, col, row, d))
        {
          var canWin := CanWin(color, col, row, d, i);
          if canWin {
            result := result + 1;
          }
          i := i + 1;
        }
        d := d + 1;
      }
    }
  }

  /** Pos { x, y } + tiles[0] does not wrap and reads the window's first
      slot, x * 6 + y + PatternOffset(pi, 0). */
  lemma FirstStep(pi: nat, x: nat, y: nat)
    requires pi < 4 && x < Width && y < Height
    ensures Offset(Pos(x, y).Plus(Pos(Patterns[pi][0].0, Patterns[pi][0].1))) == x * 6 + y + PatternOffset(pi, 0)
    ensures x * 6 + y + PatternOffset(pi, 0) < SlotCount
  {
    PatternsOffset(pi, 0);
  }
}
