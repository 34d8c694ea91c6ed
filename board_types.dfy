// Value types of the Connect Four engine: tiles, colours, game states,
// positions and the possible-moves mask (src/tile.hpp, src/board.hpp).

module BoardTypes {
  import opened Bits

  /** Board dimensions (Board::width, Board::height). */
  const Width: nat := 7
  const Height: nat := 6
  /** Width * Height = 42 cells on the board. Products and quotients below
      write 6, 7 and 42 for Height, Width and CellCount, which keeps the
      arithmetic linear for the verifier. */
  const CellCount: nat := 42
  /** m_val is a 128-bit integer holding 2-bit fields, so 64 slots. */
  const SlotCount: nat := 64
  /** 2^64: size_t arithmetic wraps modulo this. */
  const Word: nat := 0x1_0000_0000_0000_0000

  type SizeT = x: nat | x < Word

  /** A 2-bit cell value: Empty = 0, Red = 1, Blue = 2. */
  datatype Tile = Empty | Red | Blue

  /** std::to_underlying(tile). */
  function TileCode(t: Tile): (c: nat)
    ensures c < 3
    ensures c == 0 <==> t == Empty
  {
    match t
    case Empty => 0
    case Red => 1
    case Blue => 2
  }

  datatype GameState = RedWon | BlueWon | Draw | Ongoing

  datatype Color = Red | Blue

  /** color_opposite: the other player. */
  function Opposite(c: Color): (r: Color)
    ensures r != c
  {
    match c
    case Red => Color.Blue
    case Blue => Color.Red
  }

  /** color_to_tile: the tile a player drops; never Empty. */
  function ToTile(c: Color): (t: Tile)
    ensures t != Empty
  {
    match c
    case Red => Tile.Red
    case Blue => Tile.Blue
  }

  /** color_from_tile: Empty is unreachable in the source, hence the precondition. */
  function FromTile(t: Tile): (c: Color)
    requires t != Empty
    ensures ToTile(c) == t
  {
    match t
    case Red => Color.Red
    case Blue => Color.Blue
  }

  /** color_win_state */
  function WinState(c: Color): (g: GameState)
    ensures g == RedWon || g == BlueWon
    ensures g == RedWon <==> c == Color.Red
  {
    if c == Color.Red then RedWon else BlueWon
  }

  /** color_lose_state */
  function LoseState(c: Color): (g: GameState)
    ensures g == RedWon || g == BlueWon
    ensures g == BlueWon <==> c == Color.Red
  {
    if c == Color.Red then BlueWon else RedWon
  }

  lemma OppositeInvolution(c: Color)
    ensures Opposite(Opposite(c)) == c
    ensures Opposite(c) != c
  {
  }

  lemma TileRoundTrip(c: Color)
    ensures ToTile(c) != Empty && FromTile(ToTile(c)) == c
  {
  }

  /** A win for one colour is a loss for the other, and a colour's win and loss differ. */
  lemma WinLoseStates(c: Color)
    ensures WinState(c) == LoseState(Opposite(c))
    ensures WinState(c) != LoseState(c)
  {
  }

  /** A (column, row) pair of size_t values; row 0 is the top row. */
  datatype Pos = Pos(col: SizeT, row: SizeT) {
    /** Pos::operator+: componentwise size_t addition, wrapping modulo 2^64. */
    function Plus(other: Pos): (r: Pos)
      ensures col + other.col < Word ==> r.col == col + other.col
      ensures row + other.row < Word ==> r.row == row + other.row
    {
      Pos((col + other.col) % Word, (row + other.row) % Word)
    }
  }

  /** Board::offset: the linear slot index col * height + row, in size_t. */
  function Offset(p: Pos): (o: SizeT)
    ensures p.col < Width && p.row < Height ==> o < CellCount
  {
    (p.col * 6 + p.row) % Word
  }

  /** On the board the offset is a bijection: it can be decoded back into (col, row). */
  lemma OffsetDecodes(p: Pos)
    requires p.col < Width && p.row < Height
    ensures Offset(p) == p.col * 6 + p.row
    ensures Offset(p) / 6 == p.col && Offset(p) % 6 == p.row
  {
  }

  /** The column mask returned by Board::possible_moves. */
  datatype PossibleMoves = PossibleMoves(raw: SizeT) {
    /** PossibleMoves::at: `m_raw >> i & 1` (i < 64; a wider shift is undefined). */
    function At(i: nat): (b: bool)
      requires i < 64
      ensures b <==> Shr(raw, i) % 2 == 1
    {
      Bit(raw, i)
    }
  }
}
