// The meaning of the Connect Four board operations of src/board.cpp, as
// functions over the 64 two-bit slots of the packed board value m_val.
// Slot col * 6 + row holds the tile at (col, row); row 0 is the top row.

module BoardSpec {
  import opened Wrappers
  import opened Bits
  import opened BoardTypes

  // ---------------------------------------------------------------------
  // Slots and the packed integer m_val
  // ---------------------------------------------------------------------

  /** A board value as insert produces it: 64 slots, of which only the
      first 42 (the 7 x 6 grid) are ever written. */
  predicate WellFormed(s: seq<Tile>) {
    |s| == SlotCount && forall o :: CellCount <= o < SlotCount ==> s[o] == Empty
  }

  /** The board created by Board() (m_val == 0). */
  function EmptySlots(): (s: seq<Tile>)
    ensures WellFormed(s)
    ensures forall o :: 0 <= o < SlotCount ==> s[o] == Empty
  {
    seq(SlotCount, _ => Empty)
  }

  /** The tile at (col, row), read from slot col * 6 + row. */
  function Cell(s: seq<Tile>, col: nat, row: nat): Tile
    requires |s| == SlotCount && col * 6 + row < SlotCount
  {
    s[col * 6 + row]
  }

  /** The integer m_val the slots stand for: slot o holds bits 2o and 2o+1. */
  function Packed(s: seq<Tile>): nat {
    if s == [] then 0 else TileCode(s[0]) + 4 * Packed(s[1..])
  }

  lemma {:induction false} PackedBound(s: seq<Tile>)
    ensures Packed(s) < Pow4(|s|)
  {
    if s != [] {
      PackedBound(s[1..]);
    }
  }

  /** Slot o of m_val is the 2-bit field at bit 2o: below it lie the slots
      0 .. o-1 (less than 4^o together) and above it the slots o+1 .. .
      This is what `m_val >> offset * 2 & 0b11` extracts. */
  lemma {:induction false} PackedField(s: seq<Tile>, o: nat)
    requires o < |s|
    ensures Packed(s) == Packed(s[..o]) + Pow4(o) * (TileCode(s[o]) + 4 * Packed(s[o + 1..]))
    ensures Packed(s[..o]) < Pow4(o)
  {
    PackedBound(s[..o]);
    if o == 0 {
      assert s[..o] == [];
      assert s[o + 1..] == s[1..];
    } else {
      var t := s[1..];
      PackedField(t, o - 1);
      assert t[..o - 1] == s[..o][1..];
      assert t[o - 1] == s[o];
      assert t[o..] == s[o + 1..];
      var x := TileCode(s[o]) + 4 * Packed(s[o + 1..]);
      var p := Pow4(o - 1);
      var a := Packed(t[..o - 1]);
      assert Packed(t) == a + p * x;
      assert Packed(s[..o]) == TileCode(s[0]) + 4 * a;
      MulAssoc4(p, x);
    }
  }

  /** tile(pos) reads `m_val >> offset * 2 & 0b11`: slot o is m_val / 4^o mod 4. */
  lemma SlotOfPacked(s: seq<Tile>, o: nat)
    requires o < |s|
    ensures TileCode(s[o]) == Packed(s) / Pow4(o) % 4
  {
    PackedField(s, o);
    FieldAtWeight(Packed(s), Packed(s[..o]), Pow4(o), TileCode(s[o]) + 4 * Packed(s[o + 1..]), TileCode(s[o]), Packed(s[o + 1..]));
  }

  /** OR-ing a tile's code into an empty field adds it at that position. */
  lemma {:induction false} PackedSet(s: seq<Tile>, o: nat, t: Tile)
    requires o < |s| && s[o] == Empty
    ensures Packed(s[o := t]) == Packed(s) + TileCode(t) * Pow4(o)
  {
    if o == 0 {
      assert s[o := t][1..] == s[1..];
    } else {
      assert s[o := t][1..] == s[1..][o - 1 := t];
      PackedSet(s[1..], o - 1, t);
    }
  }

  lemma {:induction false} PackedEmpty(n: nat)
    ensures Packed(seq(n, _ => Empty)) == 0
  {
    if n > 0 {
      assert seq(n, _ => Empty)[1..] == seq(n - 1, _ => Empty);
      PackedEmpty(n - 1);
    }
  }

  // ---------------------------------------------------------------------
  // possible_moves
  // ---------------------------------------------------------------------

  /** Column col can take a token: it is on the board and its top cell is Empty. */
  predicate Legal(s: seq<Tile>, col: nat)
    requires |s| == SlotCount
  {
    col < Width && Cell(s, col, 0) == Empty
  }

  /** The mask possible_moves has built after its first n iterations: bit x
      for every legal column x < n. Each `res |= 1 << x` sets a bit above all
      earlier ones, so the OR is a sum (OrDisjoint). */
  function MovesMask(s: seq<Tile>, n: nat): nat
    requires |s| == SlotCount && n <= Width
  {
    if n == 0 then 0
    else MovesMask(s, n - 1) + (if Cell(s, n - 1, 0) == Empty then Pow2(n - 1) else 0)
  }

  /** Each OR sets a bit above all earlier ones, so the mask below 2^n reads,
      bit for bit, which of the first n columns are legal. */
  lemma {:induction false} MovesMaskBit(s: seq<Tile>, n: nat, i: nat)
    requires |s| == SlotCount && n <= Width
    ensures MovesMask(s, n) < Pow2(n)
    ensures Bit(MovesMask(s, n), i) <==> (i < n && Legal(s, i))
  {
    if n == 0 {
      ShrZero(i);
    } else {
      var m := MovesMask(s, n - 1);
      MovesMaskBit(s, n - 1, i);
      var add := Cell(s, n - 1, 0) == Empty;
      assert MovesMask(s, n) == if add then m + Pow2(n - 1) else m;
      MaskStep(m, n, add, i);
    }
  }

  /** One turn of possible_moves' loop: an Empty top cell in column x ORs in
      bit x, which adds it; the mask stays within a size_t. */
  lemma MovesMaskStep(s: seq<Tile>, x: nat)
    requires |s| == SlotCount && x < Width
    ensures MovesMask(s, x) < Word && MovesMask(s, x + 1) < Word
    ensures Cell(s, x, 0) == Empty ==> Or(MovesMask(s, x), Shl(1, x)) == MovesMask(s, x + 1)
    ensures Cell(s, x, 0) != Empty ==> MovesMask(s, x) == MovesMask(s, x + 1)
  {
    MovesMaskBit(s, x, 0);
    MovesMaskBit(s, x + 1, 0);
    Pow2Mono(x, 64);
    Pow2Mono(x + 1, 64);
    Pow2Word();
    OrDisjoint(MovesMask(s, x), 1, x);
  }

  /** Bit x of possible_moves() is set iff x < 7 and the top cell of column x is Empty. */
  lemma PossibleMovesExact(s: seq<Tile>, x: nat)
    requires |s| == SlotCount && x < 64
    ensures MovesMask(s, Width) < Word
    ensures PossibleMoves(MovesMask(s, Width)).At(x) <==> Legal(s, x)
  {
    MovesMaskBit(s, Width, x);
    Pow2Mono(Width, 64);
    Pow2Word();
  }

  // ---------------------------------------------------------------------
  // insert
  // ---------------------------------------------------------------------

  predicate HasEmptyRow(s: seq<Tile>, col: nat)
    requires |s| == SlotCount && col < Width
  {
    exists r: nat :: r < Height && Cell(s, col, r) == Empty
  }

  /** The row at which the downward scan of insert, started at row y, stops. */
  function LandingFrom(s: seq<Tile>, col: nat, y: nat): (r: nat)
    requires |s| == SlotCount && col < Width && y < Height
    requires exists r: nat :: r <= y && Cell(s, col, r) == Empty
    ensures r <= y && Cell(s, col, r) == Empty
    ensures forall r': nat :: r < r' <= y ==> Cell(s, col, r') != Empty
    decreases y
  {
    if Cell(s, col, y) == Empty then y else LandingFrom(s, col, y - 1)
  }

  /** The row insert(col, _) writes: the largest empty row of the column. */
  function LandingRow(s: seq<Tile>, col: nat): (r: nat)
    requires |s| == SlotCount && col < Width && HasEmptyRow(s, col)
    ensures r < Height && Cell(s, col, r) == Empty
    ensures forall r': nat :: r < r' < Height ==> Cell(s, col, r') != Empty
  {
    LandingFrom(s, col, Height - 1)
  }

  /** The board after insert(col, t). */
  function Inserted(s: seq<Tile>, col: nat, t: Tile): (s': seq<Tile>)
    requires |s| == SlotCount && col < Width && HasEmptyRow(s, col)
    ensures |s'| == SlotCount
  {
    s[col * 6 + LandingRow(s, col) := t]
  }

  /** A legal column always has an empty row to land in. */
  lemma LegalHasRoom(s: seq<Tile>, col: nat)
    requires |s| == SlotCount && Legal(s, col)
    ensures HasEmptyRow(s, col)
  {
    assert Cell(s, col, 0) == Empty;
  }

  /** insert writes exactly the landing cell, keeps the board well formed,
      and the landing cell is the largest empty row of the column. */
  lemma InsertedExact(s: seq<Tile>, col: nat, t: Tile)
    requires WellFormed(s) && col < Width && HasEmptyRow(s, col)
    ensures WellFormed(Inserted(s, col, t))
    ensures Cell(Inserted(s, col, t), col, LandingRow(s, col)) == t
    ensures forall c: nat, r: nat :: c < Width && r < Height && (c, r) != (col, LandingRow(s, col)) ==>
              Cell(Inserted(s, col, t), c, r) == Cell(s, c, r)
  {
    var s' := Inserted(s, col, t);
    forall c: nat, r: nat | c < Width && r < Height && (c, r) != (col, LandingRow(s, col))
      ensures Cell(s', c, r) == Cell(s, c, r)
    {
      assert c * 6 + r != col * 6 + LandingRow(s, col) by {
        if c < col {
          assert c * 6 + r < (c + 1) * 6 <= col * 6;
        } else if c > col {
          assert col * 6 + LandingRow(s, col) < (col + 1) * 6 <= c * 6;
        }
      }
    }
  }

  // ---------------------------------------------------------------------
  // Gravity: every column's tokens form a block at the bottom
  // ---------------------------------------------------------------------

  predicate Gravity(s: seq<Tile>)
    requires |s| == SlotCount
  {
    forall col: nat, r: nat, r': nat :: col < Width && r < r' < Height && Cell(s, col, r) != Empty ==>
      Cell(s, col, r') != Empty
  }

  /** The number of non-empty cells among rows 0 .. n-1 of the column. */
  function Filled(s: seq<Tile>, col: nat, n: nat): (k: nat)
    requires |s| == SlotCount && col < Width && n <= Height
    ensures k <= n
  {
    if n == 0 then 0 else Filled(s, col, n - 1) + (if Cell(s, col, n - 1) != Empty then 1 else 0)
  }

  lemma {:induction false} FilledOfEmptyTop(s: seq<Tile>, col: nat, n: nat, e: nat)
    requires |s| == SlotCount && col < Width && n <= e <= Height
    requires forall r: nat :: r < e ==> Cell(s, col, r) == Empty
    ensures Filled(s, col, n) == 0
  {
    if n > 0 {
      FilledOfEmptyTop(s, col, n - 1, e);
    }
  }

  lemma {:induction false} FilledOfFullBottom(s: seq<Tile>, col: nat, e: nat, n: nat)
    requires |s| == SlotCount && col < Width && e <= n <= Height
    requires forall r: nat :: r < e ==> Cell(s, col, r) == Empty
    requires forall r: nat :: e <= r < Height ==> Cell(s, col, r) != Empty
    ensures Filled(s, col, n) == n - e
  {
    if n > e {
      FilledOfFullBottom(s, col, e, n - 1);
    } else {
      FilledOfEmptyTop(s, col, n, e);
    }
  }

  /** Under gravity the n-th token of a column lands in row height - n. */
  lemma LandingUnderGravity(s: seq<Tile>, col: nat)
    requires |s| == SlotCount && col < Width && HasEmptyRow(s, col) && Gravity(s)
    ensures LandingRow(s, col) == Height - 1 - Filled(s, col, Height)
  {
    var r := LandingRow(s, col);
    forall r': nat | r' < r + 1 ensures Cell(s, col, r') == Empty {
      if r' < r {
        assert Cell(s, col, r) == Empty ==> Cell(s, col, r') == Empty;
      }
    }
    FilledOfFullBottom(s, col, r + 1, Height);
  }

  /** Under gravity, a column has room iff its top cell is empty. */
  lemma RoomIffLegal(s: seq<Tile>, col: nat)
    requires |s| == SlotCount && col < Width && Gravity(s)
    ensures HasEmptyRow(s, col) <==> Legal(s, col)
  {
    if Legal(s, col) {
      assert Cell(s, col, 0) == Empty;
    } else {
      forall r: nat | r < Height ensures Cell(s, col, r) != Empty {
        if r > 0 {
          assert Cell(s, col, 0) != Empty ==> Cell(s, col, r) != Empty;
        }
      }
    }
  }

  lemma {:induction false} FilledSame(s: seq<Tile>, s': seq<Tile>, col: nat, n: nat)
    requires |s| == SlotCount && |s'| == SlotCount && col < Width && n <= Height
    requires forall r: nat :: r < n ==> Cell(s, col, r) == Cell(s', col, r)
    ensures Filled(s, col, n) == Filled(s', col, n)
  {
    if n > 0 {
      FilledSame(s, s', col, n - 1);
    }
  }

  lemma {:induction false} FilledGrows(s: seq<Tile>, s': seq<Tile>, col: nat, r0: nat, n: nat)
    requires |s| == SlotCount && |s'| == SlotCount && col < Width && r0 < n <= Height
    requires Cell(s, col, r0) == Empty && Cell(s', col, r0) != Empty
    requires forall r: nat :: r < n && r != r0 ==> Cell(s, col, r) == Cell(s', col, r)
    ensures Filled(s', col, n) == Filled(s, col, n) + 1
  {
    if n - 1 == r0 {
      FilledSame(s, s', col, n - 1);
    } else {
      FilledGrows(s, s', col, r0, n - 1);
    }
  }

  /** Inserting a coloured tile keeps gravity and makes exactly that column one taller. */
  lemma InsertKeepsGravity(s: seq<Tile>, col: nat, t: Tile)
    requires WellFormed(s) && col < Width && HasEmptyRow(s, col) && Gravity(s) && t != Empty
    ensures Gravity(Inserted(s, col, t))
    ensures Filled(Inserted(s, col, t), col, Height) == Filled(s, col, Height) + 1
    ensures forall c: nat :: c < Width && c != col ==> Filled(Inserted(s, col, t), c, Height) == Filled(s, c, Height)
  {
    var s' := Inserted(s, col, t);
    var lr := LandingRow(s, col);
    InsertedExact(s, col, t);
    forall c: nat, r: nat, r': nat | c < Width && r < r' < Height && Cell(s', c, r) != Empty
      ensures Cell(s', c, r') != Empty
    {
      assert Cell(s, c, r) != Empty ==> Cell(s, c, r') != Empty;
    }
    FilledGrows(s, s', col, lr, Height);
    forall c: nat | c < Width && c != col
      ensures Filled(s', c, Height) == Filled(s, c, Height)
    {
      FilledSame(s, s', c, Height);
    }
  }

  // ---------------------------------------------------------------------
  // is_draw
  // ---------------------------------------------------------------------

  /** Every column's top cell is taken. */
  predicate Full(s: seq<Tile>)
    requires |s| == SlotCount
  {
    forall col: nat :: col < Width ==> Cell(s, col, 0) != Empty
  }

  lemma {:induction false} MovesMaskZero(s: seq<Tile>, n: nat)
    requires |s| == SlotCount && n <= Width
    requires forall col: nat :: col < n ==> Cell(s, col, 0) != Empty
    ensures MovesMask(s, n) == 0
  {
    if n > 0 {
      MovesMaskZero(s, n - 1);
    }
  }

  /** is_draw() holds iff possible_moves() has no bit set. */
  lemma FullIffNoMoves(s: seq<Tile>)
    requires |s| == SlotCount
    ensures Full(s) <==> MovesMask(s, Width) == 0
  {
    if Full(s) {
      MovesMaskZero(s, Width);
    }
    if MovesMask(s, Width) == 0 {
      forall col: nat | col < Width ensures Cell(s, col, 0) != Empty {
        MovesMaskBit(s, Width, col);
        ShrZero(col);
      }
    }
  }

  // ---------------------------------------------------------------------
  // game_state
  // ---------------------------------------------------------------------

  /** The four patterns of make_patterns: vertical, horizontal and both diagonals,
      as (column, row) steps from the origin. */
  const Patterns: seq<seq<(nat, nat)>> := [
    [(0, 0), (0, 1), (0, 2), (0, 3)],
    [(0, 0), (1, 0), (2, 0), (3, 0)],
    [(0, 0), (1, 1), (2, 2), (3, 3)],
    [(0, 3), (1, 2), (2, 1), (3, 0)]
  ]

  /** Number of (pattern, x, y) triples game_state visits. */
  const ScanLength: nat := 4 * 42

  /** The slot distance from a window's origin to its t-th cell under pattern
      p: steps of 1 down a column, 6 along a row, 7 along the (1, 1)
      diagonal, and 5 along the (1, -1) diagonal, which starts three rows
      below the origin. */
  function PatternOffset(p: nat, t: nat): nat {
    if p == 0 then t else if p == 1 then 6 * t else if p == 2 then 7 * t else 3 + 5 * t
  }

  /** Each (column, row) step of Patterns lands PatternOffset slots away. */
  lemma PatternsOffset(p: nat, t: nat)
    requires p < 4 && t < 4
    ensures Patterns[p][t].0 * 6 + Patterns[p][t].1 == PatternOffset(p, t)
    ensures Patterns[p][t].0 <= 3 && Patterns[p][t].1 <= 3
  {
    assert t == 0 || t == 1 || t == 2 || t == 3;
  }

  /** The slot of the t-th cell of window k, where k = pattern * 42 + x * 6 + y
      runs in the order game_state visits the windows: the origin x * 6 + y
      plus the pattern's offset. The origin runs over the whole grid, so
      windows near the right or bottom edge read slots 42..62 (always Empty)
      or the top rows of the next column. */
  function WindowSlot(k: nat, t: nat): (o: nat)
    requires k < ScanLength && t < 4
    ensures o < 63
  {
    k % 42 + PatternOffset(k / 42, t)
  }

  /** The window of pattern pi with origin slot o is a win: its first tile is
      non-empty and all four tiles equal it. */
  predicate WindowWins(s: seq<Tile>, pi: nat, o: nat)
    requires |s| == SlotCount && pi < 4 && o < CellCount
  {
    var first := s[o + PatternOffset(pi, 0)];
    first != Empty && s[o + PatternOffset(pi, 1)] == first &&
    s[o + PatternOffset(pi, 2)] == first && s[o + PatternOffset(pi, 3)] == first
  }

  /** Window k of the scan is a win. */
  predicate WinAt(s: seq<Tile>, k: nat)
    requires |s| == SlotCount && k < ScanLength
  {
    WindowWins(s, k / 42, k % 42)
  }

  /** Window k = pi * 42 + x * 6 + y decodes back into pattern pi and origin
      slot x * 6 + y. */
  lemma WindowIndex(pi: nat, x: nat, y: nat)
    requires pi < 4 && x * 6 + y < 42
    ensures (pi * 42 + x * 6 + y) / 42 == pi
    ensures (pi * 42 + x * 6 + y) % 42 == x * 6 + y
  {
    DivUnique(pi * 42 + x * 6 + y, 42, pi, x * 6 + y);
  }

  /** The number of tiles in a window. */
  const WindowSize: nat := 4

  /** The first t tiles of pattern pi from origin o all equal first. */
  ghost predicate Matches(s: seq<Tile>, o: nat, pi: nat, t: nat, first: Tile)
    requires |s| == SlotCount && o < CellCount && pi < 4 && t <= 4
  {
    t == 0 || (Matches(s, o, pi, t - 1, first) && s[o + PatternOffset(pi, t - 1)] == first)
  }

  /** Matching one step further means matching so far and at step t. */
  lemma MatchesNext(s: seq<Tile>, o: nat, pi: nat, t: nat, first: Tile)
    requires |s| == SlotCount && o < CellCount && pi < 4 && t < 4
    ensures Matches(s, o, pi, t + 1, first) <==> Matches(s, o, pi, t, first) && s[o + PatternOffset(pi, t)] == first
  {
    assert t + 1 - 1 == t;
  }

  /** A tile that differs from first ends every longer match. */
  lemma {:induction false} MatchesStop(s: seq<Tile>, o: nat, pi: nat, t: nat, first: Tile, n: nat)
    requires |s| == SlotCount && o < CellCount && pi < 4 && t < n <= 4
    requires s[o + PatternOffset(pi, t)] != first
    ensures !Matches(s, o, pi, n, first)
  {
    if t < n - 1 {
      MatchesStop(s, o, pi, t, first, n - 1);
    }
  }

  /** Window k = pi * 42 + x * 6 + y of the scan is the window of pattern pi
      with origin x * 6 + y: when it wins the scan ends with its first tile,
      otherwise the scan goes on at k + 1. */
  lemma WindowScan(s: seq<Tile>, pi: nat, x: nat, y: nat, k: nat)
    requires |s| == SlotCount && pi < 4 && x < Width && y < Height && k == pi * 42 + x * 6 + y
    ensures WindowWins(s, pi, x * 6 + y) ==> ScanFrom(s, k) == Some(s[x * 6 + y + PatternOffset(pi, 0)])
    ensures !WindowWins(s, pi, x * 6 + y) ==> ScanFrom(s, k) == ScanFrom(s, k + 1)
  {
    WindowIndex(pi, x, y);
    var o := x * 6 + y;
    assert k / 42 == pi && k % 42 == o;
    assert WindowSlot(k, 0) == o + PatternOffset(pi, 0);
    assert WinAt(s, k) == WindowWins(s, pi, o);
  }

  /** A window wins iff its first tile is non-empty and the four tiles all
      equal it. */
  lemma WindowWinsMatches(s: seq<Tile>, pi: nat, o: nat)
    requires |s| == SlotCount && pi < 4 && o < CellCount
    ensures WindowWins(s, pi, o) <==>
      s[o + PatternOffset(pi, 0)] != Empty && Matches(s, o, pi, WindowSize, s[o + PatternOffset(pi, 0)])
  {
    var first := s[o + PatternOffset(pi, 0)];
    assert WindowSize == 4;
    assert Matches(s, o, pi, 1, first);
    assert Matches(s, o, pi, 4, first) <==> Matches(s, o, pi, 3, first) && s[o + PatternOffset(pi, 3)] == first;
    assert Matches(s, o, pi, 3, first) <==> Matches(s, o, pi, 2, first) && s[o + PatternOffset(pi, 2)] == first;
  }

  /** The winning tile of the first win among windows k .. ScanLength - 1. */
  function ScanFrom(s: seq<Tile>, k: nat): (w: Option<Tile>)
    requires |s| == SlotCount && k <= ScanLength
    decreases ScanLength - k
  {
    if k == ScanLength then None
    else if WinAt(s, k) then Some(s[WindowSlot(k, 0)])
    else ScanFrom(s, k + 1)
  }

  /** game_state(): a win found by the scan comes before the draw check. */
  function StateOf(s: seq<Tile>): GameState
    requires |s| == SlotCount
  {
    match ScanFrom(s, 0)
    case Some(t) => if t == Tile.Red then RedWon else BlueWon
    case None => if Full(s) then Draw else Ongoing
  }

  lemma {:induction false} ScanSound(s: seq<Tile>, k: nat)
    requires |s| == SlotCount && k <= ScanLength && ScanFrom(s, k).Some?
    ensures exists k' :: k <= k' < ScanLength && WinAt(s, k') && s[WindowSlot(k', 0)] == ScanFrom(s, k).value
    decreases ScanLength - k
  {
    if !WinAt(s, k) {
      ScanSound(s, k + 1);
    }
  }

  lemma {:induction false} ScanComplete(s: seq<Tile>, k: nat, k': nat)
    requires |s| == SlotCount && k <= k' < ScanLength && WinAt(s, k')
    ensures ScanFrom(s, k).Some? && ScanFrom(s, k).value != Empty
    decreases k' - k
  {
    if k < k' && !WinAt(s, k) {
      ScanComplete(s, k + 1, k');
    }
  }

  /** A win is reported iff some window is a win, and the reported colour is
      the tile of a winning window; a full board with four in a row is a win. */
  lemma StateWinIff(s: seq<Tile>)
    requires |s| == SlotCount
    ensures (StateOf(s) == RedWon || StateOf(s) == BlueWon) <==> exists k :: 0 <= k < ScanLength && WinAt(s, k)
    ensures StateOf(s) == RedWon ==> exists k :: 0 <= k < ScanLength && WinAt(s, k) && s[WindowSlot(k, 0)] == Tile.Red
    ensures StateOf(s) == BlueWon ==> exists k :: 0 <= k < ScanLength && WinAt(s, k) && s[WindowSlot(k, 0)] == Tile.Blue
    ensures StateOf(s) == Draw <==> Full(s) && forall k :: 0 <= k < ScanLength ==> !WinAt(s, k)
  {
    if ScanFrom(s, 0).Some? {
      ScanSound(s, 0);
    }
    if exists k :: 0 <= k < ScanLength && WinAt(s, k) {
      var k :| 0 <= k < ScanLength && WinAt(s, k);
      ScanComplete(s, 0, k);
    }
  }

  /** Slots are addressed as col * 6 + row, so the vertical window from
      (0, 4) runs on into the bottom of column 1: Red at (0, 4), (0, 5),
      (1, 0) and (1, 1), which are not four in a line, is reported as a win. */
  lemma ColumnWrapWins()
    ensures var s := EmptySlots()[4 := Tile.Red][5 := Tile.Red][6 := Tile.Red][7 := Tile.Red];
      StateOf(s) == RedWon
  {
    var s := EmptySlots()[4 := Tile.Red][5 := Tile.Red][6 := Tile.Red][7 := Tile.Red];
    StateWinIff(s);
    assert WinAt(s, 4);
  }

  // ---------------------------------------------------------------------
  // hash and col_hash
  // ---------------------------------------------------------------------

  /** The bits `hash |= 1 << row` has set once the col_hash loop has visited
      rows 0 .. n-1: bit r for each Red cell, each above the earlier ones. */
  function RedMask(s: seq<Tile>, col: nat, n: nat): nat
    requires |s| == SlotCount && col < Width && n <= Height
  {
    if n == 0 then 0
    else RedMask(s, col, n - 1) + (if Cell(s, col, n - 1) == Tile.Red then Pow2(n - 1) else 0)
  }

  /** col_hash(col): the Red-row bits, with col_height shifted above them.
      col_height starts at 6 and loses one per Empty cell, so it ends as the
      number of tokens in the column. */
  function ColHashOf(s: seq<Tile>, col: nat): nat
    requires |s| == SlotCount && col < Width
  {
    RedMask(s, col, Height) + Shl(Filled(s, col, Height), 6)
  }

  /** Bit r of the Red mask is set iff row r < n holds a Red token. */
  lemma {:induction false} RedMaskBit(s: seq<Tile>, col: nat, n: nat, r: nat)
    requires |s| == SlotCount && col < Width && n <= Height
    ensures RedMask(s, col, n) < Pow2(n)
    ensures Bit(RedMask(s, col, n), r) <==> (r < n && Cell(s, col, r) == Tile.Red)
  {
    if n == 0 {
      ShrZero(r);
    } else {
      var m := RedMask(s, col, n - 1);
      RedMaskBit(s, col, n - 1, r);
      var add := Cell(s, col, n - 1) == Tile.Red;
      assert RedMask(s, col, n) == if add then m + Pow2(n - 1) else m;
      MaskStep(m, n, add, r);
    }
  }

  /** One row of col_hash's loop: a Red token in row r ORs in bit r, which
      adds it; any other tile leaves the mask alone. */
  lemma ColHashStep(s: seq<Tile>, col: nat, r: nat)
    requires |s| == SlotCount && col < Width && r < Height
    ensures RedMask(s, col, r) < 64 && RedMask(s, col, r + 1) < 64
    ensures Cell(s, col, r) == Tile.Red ==> Or(RedMask(s, col, r), Shl(1, r)) == RedMask(s, col, r + 1)
    ensures Cell(s, col, r) != Tile.Red ==> RedMask(s, col, r) == RedMask(s, col, r + 1)
  {
    RedMaskBit(s, col, r, 0);
    RedMaskBit(s, col, r + 1, 0);
    Pow2Mono(r, Height);
    Pow2Mono(r + 1, Height);
    assert Pow2(6) == 64;
    OrDisjoint(RedMask(s, col, r), 1, r);
  }

  /** A token in row r counts one more. */
  lemma FilledNext(s: seq<Tile>, col: nat, r: nat)
    requires |s| == SlotCount && col < Width && r < Height
    ensures Filled(s, col, r + 1) == Filled(s, col, r) + if Cell(s, col, r) == Empty then 0 else 1
  {
    assert r + 1 - 1 == r;
  }

  /** The end of col_hash: OR-ing the height in at bit 6 gives col_hash(col). */
  lemma ColHashFinal(s: seq<Tile>, col: nat)
    requires |s| == SlotCount && col < Width
    ensures Or(RedMask(s, col, Height), Shl(Filled(s, col, Height), 6)) == ColHashOf(s, col)
    ensures ColHashOf(s, col) < 512
  {
    RedMaskBit(s, col, Height, 0);
    assert Pow2(6) == 64;
    OrDisjoint(RedMask(s, col, Height), Filled(s, col, Height), 6);
  }

  /** What col_hash promises about a column value v: it fits in 9 bits, bit r
      (r < 6) marks a Red token in row r, and v >> 6 counts the column's tokens. */
  predicate ColumnLayout(s: seq<Tile>, col: nat, v: nat)
    requires |s| == SlotCount && col < Width
  {
    v < 512 &&
    (forall r: nat :: r < Height ==> (Bit(v, r) <==> Cell(s, col, r) == Tile.Red)) &&
    Shr(v, 6) == Filled(s, col, Height)
  }

  /** col_hash(c) has the layout above. */
  lemma ColHashLayout(s: seq<Tile>, col: nat)
    requires |s| == SlotCount && col < Width
    ensures ColumnLayout(s, col, ColHashOf(s, col))
  {
    var red, f := RedMask(s, col, Height), Filled(s, col, Height);
    assert Pow2(6) == 64 && Pow2(1) == 2;
    RedMaskBit(s, col, Height, 0);
    forall r: nat | r < Height
      ensures Bit(red + Pow2(6) * f, r) <==> Cell(s, col, r) == Tile.Red
    {
      RedMaskBit(s, col, Height, r);
      FieldBelow(red, 6, f, r, 1);
    }
    FieldTop(red, 6, f);
  }

  /** The layout determines the column value: col_hash is injective on a
      column's Red rows and height. */
  lemma ColumnLayoutUnique(s: seq<Tile>, col: nat, v: nat, w: nat)
    requires |s| == SlotCount && col < Width
    requires ColumnLayout(s, col, v) && ColumnLayout(s, col, w)
    ensures v == w
  {
    LowBitsEqual(v, w, Height);
    assert Pow2(6) == 64;
    DivMod(v, 64);
    DivMod(w, 64);
  }

  lemma DivMod(v: nat, p: nat)
    requires p > 0
    ensures v == p * (v / p) + v % p
  {
  }

  /** Two values with the same bits 0 .. n-1 agree modulo 2^n. */
  lemma {:induction false} LowBitsEqual(v: nat, w: nat, n: nat)
    requires forall r: nat :: r < n ==> (Bit(v, r) <==> Bit(w, r))
    ensures v % Pow2(n) == w % Pow2(n)
  {
    if n > 0 {
      LowBitsEqual(v, w, n - 1);
      var p := Pow2(n - 1);
      assert Bit(v, n - 1) <==> Bit(w, n - 1);
      ModSplit(v, n - 1);
      ModSplit(w, n - 1);
    }
  }

  /** The lowest k + 1 bits are the lowest k bits plus bit k. */
  lemma ModSplit(v: nat, k: nat)
    ensures v % Pow2(k + 1) == v % Pow2(k) + Pow2(k) * (Shr(v, k) % 2)
  {
    var p := Pow2(k);
    var q, r := v / p, v % p;
    var b, h := q % 2, q / 2;
    DivMod(v, p);
    DivMod(q, 2);
    assert Pow2(k + 1) == 2 * p;
    assert v == 2 * p * h + (r + p * b) by {
      Distrib(p, 2 * h, b);
      MulAssoc(p, 2, h);
    }
    assert r + p * b < 2 * p by {
      MulMono(p, b, 1);
    }
    DivUnique(v, 2 * p, h, r + p * b);
  }

  /** The 9-bit field of column c in a hash: (h >> 9c) & 511. */
  function Field9(h: nat, c: nat): nat {
    Shr(h, 9 * c) % 512
  }

  /** The value hash builds after its first n columns: col_hash(col) << 9 * col
      for every col < n, each in bits above the earlier ones. */
  function HashUpTo(s: seq<Tile>, n: nat): nat
    requires |s| == SlotCount && n <= Width
  {
    if n == 0 then 0 else HashUpTo(s, n - 1) + Shl(ColHashOf(s, n - 1), 9 * (n - 1))
  }

  /** col_hash(c) fits in the 9 bits of its field. */
  lemma ColHashBound(s: seq<Tile>, col: nat)
    requires |s| == SlotCount && col < Width
    ensures ColHashOf(s, col) < 512
  {
    ColHashLayout(s, col);
  }

  /** A 9-bit value put above a value of m fields becomes field m; the fields
      below keep their values and the ones above stay 0. */
  lemma StackFields(h: nat, m: nat, ch: nat, c: nat)
    requires h < Pow2(9 * m) && ch < 512
    ensures h + Shl(ch, 9 * m) < Pow2(9 * (m + 1))
    ensures Field9(h + Shl(ch, 9 * m), c) == if c < m then Field9(h, c) else if c == m then ch else 0
  {
    StackBound(h, m, ch);
    var v := h + Shl(ch, 9 * m);
    assert Pow2(9) == 512;
    if c < m {
      FieldBelow(h, 9 * m, ch, 9 * c, 9);
    } else if c == m {
      FieldTop(h, 9 * m, ch);
      assert Shr(v, 9 * c) == ch;
    } else {
      ShrSmall(v, 9 * (m + 1), 9 * c);
      assert Shr(v, 9 * c) == 0;
    }
  }

  /** The stacked value fits in m + 1 fields. */
  lemma StackBound(h: nat, m: nat, ch: nat)
    requires h < Pow2(9 * m) && ch < 512
    ensures h + Shl(ch, 9 * m) == h + Pow2(9 * m) * ch
    ensures h + Shl(ch, 9 * m) < Pow2(9 * (m + 1))
  {
    var p := Pow2(9 * m);
    assert Pow2(9) == 512;
    Pow2Add(9 * m, 9);
    assert 9 * m + 9 == 9 * (m + 1);
    MulMono(p, ch, 511);
    Distrib(p, 511, 1);
  }

  /** The column hashes never overlap: field c of the value built so far is
      col_hash(c) for the columns visited and 0 above them. */
  lemma {:induction false} HashUpToFields(s: seq<Tile>, n: nat, c: nat)
    requires |s| == SlotCount && n <= Width
    ensures HashUpTo(s, n) < Pow2(9 * n)
    ensures Field9(HashUpTo(s, n), c) == if c < n then ColHashOf(s, c) else 0
  {
    if n == 0 {
      ShrZero(9 * c);
    } else {
      var h, ch := HashUpTo(s, n - 1), ColHashOf(s, n - 1);
      HashUpToFields(s, n - 1, c);
      ColHashBound(s, n - 1);
      StackFields(h, n - 1, ch, c);
      assert HashUpTo(s, n) == h + Shl(ch, 9 * (n - 1));
      if c < n - 1 {
        assert Field9(h, c) == ColHashOf(s, c);
      }
    }
  }

  /** One turn of hash()'s loop: OR-ing col_hash(col) in at bit 9 * col adds
      the next field, and the result still fits in a size_t. */
  lemma HashStep(s: seq<Tile>, col: nat)
    requires |s| == SlotCount && col < Width
    ensures HashUpTo(s, col) < Pow2(9 * col)
    ensures Or(HashUpTo(s, col), Shl(ColHashOf(s, col), 9 * col)) == HashUpTo(s, col + 1)
    ensures HashUpTo(s, col + 1) < Word
  {
    HashUpToFields(s, col, 0);
    HashUpToFields(s, col + 1, 0);
    Pow2Mono(9 * (col + 1), 64);
    Pow2Word();
    OrDisjoint(HashUpTo(s, col), ColHashOf(s, col), 9 * col);
  }

  /** (hash() >> 9c) & 511 == col_hash(c) for each of the seven columns, and
      the hash fits in 63 bits. */
  lemma HashFields(s: seq<Tile>, c: nat)
    requires |s| == SlotCount && c < Width
    ensures HashUpTo(s, Width) < Pow2(63) < Word
    ensures Field9(HashUpTo(s, Width), c) == ColHashOf(s, c)
    ensures ColumnLayout(s, c, Field9(HashUpTo(s, Width), c))
  {
    HashUpToFields(s, Width, c);
    ColHashLayout(s, c);
    Pow2Add(63, 1);
    Pow2Word();
  }

  /** A board holding a Red token anywhere has a non-zero hash. Since
      flipped_hash() is 0 for every board, it is never the hash of the mirror
      image of such a board (that mirror image also holds a Red token). */
  lemma RedTokenHashNonZero(s: seq<Tile>, c: nat, r: nat)
    requires |s| == SlotCount && c < Width && r < Height && Cell(s, c, r) == Tile.Red
    ensures HashUpTo(s, Width) != 0
  {
    ColHashLayout(s, c);
    assert Bit(ColHashOf(s, c), r);
    ShrZero(r);
    assert ColHashOf(s, c) != 0;
    ShrZero(9 * c);
    assert Field9(0, c) == 0;
    HashFields(s, c);
  }

  /** Two boards with the same hash agree on every column's Red rows and height. */
  lemma HashDeterminesColumns(s: seq<Tile>, s': seq<Tile>, c: nat)
    requires |s| == SlotCount && |s'| == SlotCount && c < Width
    requires HashUpTo(s, Width) == HashUpTo(s', Width)
    ensures Filled(s, c, Height) == Filled(s', c, Height)
    ensures forall r: nat :: r < Height ==> (Cell(s, c, r) == Tile.Red <==> Cell(s', c, r) == Tile.Red)
  {
    HashFields(s, c);
    HashFields(s', c);
  }

  lemma {:induction false} EmptyColumn(col: nat, n: nat)
    requires col < Width && n <= Height
    ensures RedMask(EmptySlots(), col, n) == 0
    ensures Filled(EmptySlots(), col, n) == 0
  {
    if n > 0 {
      EmptyColumn(col, n - 1);
    }
  }

  lemma EmptyColHash(col: nat)
    requires col < Width
    ensures ColHashOf(EmptySlots(), col) == 0
  {
    EmptyColumn(col, Height);
  }

  /** A board whose column hashes are all 0 hashes to 0. */
  lemma {:induction false} ZeroHashUpTo(s: seq<Tile>, n: nat)
    requires |s| == SlotCount && n <= Width
    requires forall c: nat :: c < Width ==> ColHashOf(s, c) == 0
    ensures HashUpTo(s, n) == 0
  {
    if n > 0 {
      ZeroHashUpTo(s, n - 1);
      assert ColHashOf(s, n - 1) == 0;
    }
  }

  /** The empty board hashes to 0. */
  lemma EmptyHash()
    ensures HashUpTo(EmptySlots(), Width) == 0
  {
    var e := EmptySlots();
    forall c: nat | c < Width
      ensures ColHashOf(e, c) == 0
    {
      EmptyColHash(c);
    }
    ZeroHashUpTo(e, Width);
  }

  // ---------------------------------------------------------------------
  // win_possibilities_at_pos
  // ---------------------------------------------------------------------

  /** The four directions as size_t pairs; (1, -1) is stored as (1, 2^64 - 1). */
  const Directions: seq<(SizeT, SizeT)> := [(1, Word - 1), (1, 0), (0, 1), (1, 1)]

  /** The slot offset step of each direction once the wrap-around is resolved. */
  const Steps: seq<nat> := [5, 6, 1, 7]

  /** The offset tile({x, y}) reads for step j of direction d, where x and y are
      computed in size_t arithmetic as the source does. */
  function WindowOffset(col: nat, row: nat, d: nat, j: nat): nat
    requires d < 4
  {
    var x := WrapAdd(col, Directions[d].0, j);
    var y := WrapAdd(row, Directions[d].1, j);
    (x * 6 + y) % Word
  }

  /** a + step * j in size_t arithmetic. */
  function WrapAdd(a: nat, step: nat, j: nat): nat {
    (a + step * j) % Word
  }

  /** For a small a and j, adding j steps of 0 or 1 stays small, and adding
      j steps of 2^64 - 1 subtracts j, wrapping when j > a. */
  lemma WrapAddValue(a: nat, step: nat, j: nat)
    requires a < 8 && j <= 3 && (step <= 1 || step == Word - 1)
    ensures step <= 1 ==> WrapAdd(a, step, j) == a + step * j
    ensures step == Word - 1 && j <= a ==> WrapAdd(a, step, j) == a - j
    ensures step == Word - 1 && j > a ==> WrapAdd(a, step, j) == a - j + Word
  {
    if step <= 1 {
      MulMono(j, step, 1);
      DivUnique(a + step * j, Word, 0, a + step * j);
    } else if j <= a {
      assert a + step * j == Word * j + (a - j);
      DivUnique(a + step * j, Word, j, a - j);
    } else {
      assert a + step * j == Word * (j - 1) + (a - j + Word);
      DivUnique(a + step * j, Word, j - 1, a - j + Word);
    }
  }

  /** The wrap-around of (1, -1) cancels: the offsets are col*6 + row + step*j,
      always below 63. */
  lemma WindowOffsetValue(col: nat, row: nat, d: nat, j: nat)
    requires col < Width && row < Height && d < 4 && j <= 3
    ensures WindowOffset(col, row, d, j) == col * 6 + row + Steps[d] * j
    ensures WindowOffset(col, row, d, j) < 63
  {
    StepProducts(d, j);
    WrapAddValue(col, Directions[d].0, j);
    WrapAddValue(row, Directions[d].1, j);
    var x := WrapAdd(col, Directions[d].0, j);
    var y := WrapAdd(row, Directions[d].1, j);
    var v := col * 6 + row + Steps[d] * j;
    if d == 0 && row < j {
      assert x * 6 + y == Word * 1 + v;
      DivUnique(x * 6 + y, Word, 1, v);
    } else {
      assert x * 6 + y == Word * 0 + v;
      DivUnique(x * 6 + y, Word, 0, v);
    }
  }

  /** The products of WindowOffset with the direction components, and the
      resolved step, for a step count j <= 3. */
  lemma StepProducts(d: nat, j: nat)
    requires d < 4 && j <= 3
    ensures Directions[d].0 * j == if d == 2 then 0 else j
    ensures Directions[d].1 * j == if d == 0 then j * Word - j else if d == 1 then 0 else j
    ensures Steps[d] * j == if d == 0 then 5 * j else if d == 1 then 6 * j else if d == 2 then j else 7 * j
    ensures Directions[d].0 <= 1 && (Directions[d].1 <= 1 || Directions[d].1 == Word - 1)
  {
    if d == 0 {
      assert Directions[d] == (1, Word - 1) && Steps[d] == 5;
      assert (Word - 1) * j == j * Word - j;
    } else if d == 1 {
      assert Directions[d] == (1, 0) && Steps[d] == 6;
    } else if d == 2 {
      assert Directions[d] == (0, 1) && Steps[d] == 1;
    } else {
      assert Directions[d] == (1, 1) && Steps[d] == 7;
    }
  }

  /** A tile stops colour c from winning through a window. */
  predicate Blocks(t: Tile, c: Color) {
    t != Empty && t != ToTile(c)
  }

  /** The window of direction d starting at (col, row) holds no opposing tile. */
  predicate WindowOpen(s: seq<Tile>, c: Color, col: nat, row: nat, d: nat)
    requires |s| == SlotCount && col < Width && row < Height && d < 4
  {
    var o, k := col * 6 + row, Steps[d];
    !Blocks(s[o], c) && !Blocks(s[o + k], c) && !Blocks(s[o + 2 * k], c) && !Blocks(s[o + 3 * k], c)
  }

  /** The loop's form of WindowOpen: none of the cells j < 4 blocks. */
  lemma WindowOpenCells(s: seq<Tile>, c: Color, col: nat, row: nat, d: nat)
    requires |s| == SlotCount && col < Width && row < Height && d < 4
    ensures WindowOpen(s, c, col, row, d) <==>
      forall j: nat :: j < 4 ==> !Blocks(s[col * 6 + row + Steps[d] * j], c)
  {
    var o, k := col * 6 + row, Steps[d];
    assert k * 0 == 0 && k * 1 == k && k * 2 == 2 * k && k * 3 == 3 * k;
    if WindowOpen(s, c, col, row, d) {
      forall j: nat | j < 4 ensures !Blocks(s[o + k * j], c) {
        assert j == 0 || j == 1 || j == 2 || j == 3;
      }
    }
  }

  function Indicator(b: bool): nat {
    if b then 1 else 0
  }

  /** Per direction: the iterations i = 0, 1, 2 start at j = i - 3, which wraps
      past i, so their inner loop never runs and each counts as winnable; only
      i = 3 inspects the four cells j = 0 .. 3. */
  function DirectionScore(s: seq<Tile>, c: Color, col: nat, row: nat, d: nat): nat
    requires |s| == SlotCount && col < Width && row < Height && d < 4
  {
    3 + Indicator(WindowOpen(s, c, col, row, d))
  }

  function ScoreUpTo(s: seq<Tile>, c: Color, col: nat, row: nat, n: nat): nat
    requires |s| == SlotCount && col < Width && row < Height && n <= 4
  {
    if n == 0 then 0 else ScoreUpTo(s, c, col, row, n - 1) + DirectionScore(s, c, col, row, n - 1)
  }

  /** win_possibilities_at_pos(color, col, row); 0 off the board. */
  function WinPossibilities(s: seq<Tile>, c: Color, col: nat, row: nat): nat
    requires |s| == SlotCount
  {
    if col >= Width || row >= Height then 0 else ScoreUpTo(s, c, col, row, 4)
  }

  lemma {:induction false} ScoreUpToBounds(s: seq<Tile>, c: Color, col: nat, row: nat, n: nat)
    requires |s| == SlotCount && col < Width && row < Height && n <= 4
    ensures 3 * n <= ScoreUpTo(s, c, col, row, n) <= 4 * n
  {
    if n > 0 {
      ScoreUpToBounds(s, c, col, row, n - 1);
    }
  }

  /** On the board every position scores between 12 and 16; off it, 0. */
  lemma WinPossibilitiesBounds(s: seq<Tile>, c: Color, col: nat, row: nat)
    requires |s| == SlotCount
    ensures col >= Width || row >= Height ==> WinPossibilities(s, c, col, row) == 0
    ensures col < Width && row < Height ==> 12 <= WinPossibilities(s, c, col, row) <= 16
  {
    if col < Width && row < Height {
      ScoreUpToBounds(s, c, col, row, 4);
    }
  }
}
