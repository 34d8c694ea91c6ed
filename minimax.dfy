// The fixed-depth game-tree search of src/minimax.cpp. The search is
// specified by mutually recursive functions over board values; the methods
// of class Minimax run the source's loops on Board objects and are proved
// to compute exactly those functions.

module MinimaxAi {
  import opened Wrappers
  import opened BoardTypes
  import opened BoardSpec
  import opened ConnectFour

  /** Minimax::ChoiceType; the source's `Pos` is called Column here. */
  datatype ChoiceType = Result | Column

  /** Minimax::Choice: the points of a move and the column it plays. */
  datatype Choice = Choice(points: int, col: nat, kind: ChoiceType)

  // ---------------------------------------------------------------------
  // value_of_board
  // ---------------------------------------------------------------------

  /** One cell's contribution: own win possibilities minus the opponent's. */
  function CellValue(s: seq<Tile>, me: Color, col: nat, row: nat): int
    requires |s| == SlotCount
  {
    WinPossibilities(s, me, col, row) - WinPossibilities(s, Opposite(me), col, row)
  }

  /** The sum over rows 0 .. n-1 of column col. */
  function RowsValue(s: seq<Tile>, me: Color, col: nat, n: nat): int
    requires |s| == SlotCount
  {
    if n == 0 then 0 else RowsValue(s, me, col, n - 1) + CellValue(s, me, col, n - 1)
  }

  /** The sum over the full columns 0 .. n-1. */
  function ColsValue(s: seq<Tile>, me: Color, n: nat): int
    requires |s| == SlotCount
  {
    if n == 0 then 0 else ColsValue(s, me, n - 1) + RowsValue(s, me, n - 1, Height)
  }

  /** value_of_board: the sum over the 42 cells. */
  function BoardValue(s: seq<Tile>, me: Color): int
    requires |s| == SlotCount
  {
    ColsValue(s, me, Width)
  }

  /** Each cell's value changes sign with the colour and lies within +-4. */
  lemma CellAntisymmetric(s: seq<Tile>, me: Color, col: nat, row: nat)
    requires |s| == SlotCount
    ensures CellValue(s, Opposite(me), col, row) == -CellValue(s, me, col, row)
    ensures -4 <= CellValue(s, me, col, row) <= 4
  {
    OppositeInvolution(me);
    WinPossibilitiesBounds(s, me, col, row);
    WinPossibilitiesBounds(s, Opposite(me), col, row);
  }

  lemma {:induction false} RowsAntisymmetric(s: seq<Tile>, me: Color, col: nat, n: nat)
    requires |s| == SlotCount
    ensures RowsValue(s, Opposite(me), col, n) == -RowsValue(s, me, col, n)
    ensures -4 * n <= RowsValue(s, me, col, n) <= 4 * n
  {
    if n > 0 {
      RowsAntisymmetric(s, me, col, n - 1);
      CellAntisymmetric(s, me, col, n - 1);
    }
  }

  lemma {:induction false} ColsAntisymmetric(s: seq<Tile>, me: Color, n: nat)
    requires |s| == SlotCount
    ensures ColsValue(s, Opposite(me), n) == -ColsValue(s, me, n)
    ensures -24 * n <= ColsValue(s, me, n) <= 24 * n
  {
    if n > 0 {
      ColsAntisymmetric(s, me, n - 1);
      RowsAntisymmetric(s, me, n - 1, Height);
    }
  }

  /** Swapping the searching colour negates the board value, and the value
      lies within +-168 (each cell differs by at most 16 - 12). */
  lemma BoardValueAntisymmetric(s: seq<Tile>, me: Color)
    requires |s| == SlotCount
    ensures BoardValue(s, Opposite(me)) == -BoardValue(s, me)
    ensures -168 <= BoardValue(s, me) <= 168
  {
    ColsAntisymmetric(s, me, Width);
  }

  // ---------------------------------------------------------------------
  // std::max_element / std::min_element over (column, points) pairs
  // ---------------------------------------------------------------------

  /** `a` beats `b` in the comparator the scan uses: strictly more points
      when maximising, strictly fewer when minimising. */
  predicate Beats(a: int, b: int, maximize: bool) {
    if maximize then b < a else a < b
  }

  /** The index std::max_element (maximize) or std::min_element returns for
      the first n entries: the current pick is replaced only by a strictly
      better entry. */
  function BestIndex(moves: seq<(nat, int)>, maximize: bool, n: nat): (i: nat)
    requires 0 < n <= |moves|
    ensures i < n
  {
    if n == 1 then 0
    else
      var b := BestIndex(moves, maximize, n - 1);
      if Beats(moves[n - 1].1, moves[b].1, maximize) then n - 1 else b
  }

  /** The pick is extremal, and it is the first entry with the extremal points. */
  lemma {:induction false} BestIndexFirstExtremal(moves: seq<(nat, int)>, maximize: bool, n: nat)
    requires 0 < n <= |moves|
    ensures forall j :: 0 <= j < n ==> !Beats(moves[j].1, moves[BestIndex(moves, maximize, n)].1, maximize)
    ensures forall j :: 0 <= j < BestIndex(moves, maximize, n) ==> Beats(moves[BestIndex(moves, maximize, n)].1, moves[j].1, maximize)
  {
    if n > 1 {
      BestIndexFirstExtremal(moves, maximize, n - 1);
    }
  }

  // ---------------------------------------------------------------------
  // find_move and after_move
  // ---------------------------------------------------------------------

  /** The (column, points) list find_move has pushed after columns 0 .. n-1:
      one entry per legal column, scored by after_move on a copy of the board
      with the mover's tile inserted. */
  function MovesUpTo(me: Color, s: seq<Tile>, depth: nat, turn: Color, n: nat): (moves: seq<(nat, int)>)
    requires WellFormed(s) && n <= Width
    decreases depth, 1, n, 0
  {
    if n == 0 then []
    else
      var prev := MovesUpTo(me, s, depth, turn, n - 1);
      if Legal(s, n - 1) then
        LegalHasRoom(s, n - 1);
        InsertedExact(s, n - 1, ToTile(turn));
        prev + [(n - 1, AfterMoveSpec(me, Inserted(s, n - 1, ToTile(turn)), depth, Opposite(turn)).points)]
      else prev
  }

  /** find_move: the best entry for the side to move; maximising on the
      searching colour's own turn, minimising on the opponent's. The board
      must have a legal move (max_element of an empty list is undefined). */
  function FindMoveSpec(me: Color, s: seq<Tile>, depth: nat, turn: Color): (c: Choice)
    requires WellFormed(s) && !Full(s)
    decreases depth, 2, 0, 0
  {
    var moves := MovesUpTo(me, s, depth, turn, Width);
    MovesNonEmpty(me, s, depth, turn);
    var i := BestIndex(moves, turn == me, |moves|);
    Choice(moves[i].1, moves[i].0, Column)
  }

  /** after_move: a full board scores 0 (tested before the win check), a won
      board +-1000, a depth-0 leaf 8 times its value; otherwise the search
      goes one level deeper with the other side to move. */
  function AfterMoveSpec(me: Color, s: seq<Tile>, depth: nat, turn: Color): (c: Choice)
    requires WellFormed(s)
    decreases depth, 0, 0, 0
  {
    if Full(s) then Choice(0, 0, Result)
    else if StateOf(s) == RedWon || StateOf(s) == BlueWon then
      Choice(if StateOf(s) == WinState(me) then 1000 else -1000, 0, Result)
    else if depth == 0 then Choice(BoardValue(s, me) * 8, 0, Result)
    else FindMoveSpec(me, s, depth - 1, turn)
  }

  /** The entries of MovesUpTo are legal columns below n, in increasing order. */
  lemma {:induction false} MovesUpToLegal(me: Color, s: seq<Tile>, depth: nat, turn: Color, n: nat)
    requires WellFormed(s) && n <= Width
    ensures forall j :: 0 <= j < |MovesUpTo(me, s, depth, turn, n)| ==>
      MovesUpTo(me, s, depth, turn, n)[j].0 < n && Legal(s, MovesUpTo(me, s, depth, turn, n)[j].0)
    ensures forall j, k :: 0 <= j < k < |MovesUpTo(me, s, depth, turn, n)| ==>
      MovesUpTo(me, s, depth, turn, n)[j].0 < MovesUpTo(me, s, depth, turn, n)[k].0
  {
    if n > 0 {
      MovesUpToLegal(me, s, depth, turn, n - 1);
    }
  }

  /** Column c has an entry in the list. */
  predicate HasEntry(moves: seq<(nat, int)>, c: nat) {
    exists j :: 0 <= j < |moves| && moves[j].0 == c
  }

  /** Every legal column below n has an entry. */
  lemma {:induction false} MovesUpToComplete(me: Color, s: seq<Tile>, depth: nat, turn: Color, n: nat)
    requires WellFormed(s) && n <= Width
    ensures forall c: nat :: c < n && Legal(s, c) ==> HasEntry(MovesUpTo(me, s, depth, turn, n), c)
  {
    if n > 0 {
      MovesUpToComplete(me, s, depth, turn, n - 1);
      var prev := MovesUpTo(me, s, depth, turn, n - 1);
      var moves := MovesUpTo(me, s, depth, turn, n);
      forall c: nat | c < n && Legal(s, c)
        ensures HasEntry(moves, c)
      {
        if c < n - 1 {
          var j :| 0 <= j < |prev| && prev[j].0 == c;
          assert moves[j] == prev[j];
        } else {
          assert moves[|prev|].0 == c;
        }
      }
    }
  }

  /** Once a legal column has been visited the list is not empty. */
  lemma {:induction false} MovesUpToNonEmpty(me: Color, s: seq<Tile>, depth: nat, turn: Color, n: nat, c: nat)
    requires WellFormed(s) && n <= Width && c < n && Legal(s, c)
    ensures |MovesUpTo(me, s, depth, turn, n)| > 0
    decreases depth, 1, n, 1
  {
    if c < n - 1 {
      MovesUpToNonEmpty(me, s, depth, turn, n - 1, c);
    }
  }

  /** A board that is not full has at least one move to rank. */
  lemma MovesNonEmpty(me: Color, s: seq<Tile>, depth: nat, turn: Color)
    requires WellFormed(s) && !Full(s)
    ensures |MovesUpTo(me, s, depth, turn, Width)| > 0
    decreases depth, 1, Width, 2
  {
    var c: nat :| c < Width && Cell(s, c, 0) == Empty;
    MovesUpToNonEmpty(me, s, depth, turn, Width, c);
  }

  /** The entry of a legal column c holds the points after_move gives c. */
  function Score(me: Color, s: seq<Tile>, depth: nat, turn: Color, c: nat): int
    requires WellFormed(s) && Legal(s, c)
  {
    LegalHasRoom(s, c);
    InsertedExact(s, c, ToTile(turn));
    AfterMoveSpec(me, Inserted(s, c, ToTile(turn)), depth, Opposite(turn)).points
  }

  lemma {:induction false} MovesUpToScores(me: Color, s: seq<Tile>, depth: nat, turn: Color, n: nat)
    requires WellFormed(s) && n <= Width
    ensures forall j :: 0 <= j < |MovesUpTo(me, s, depth, turn, n)| ==>
      MovesUpTo(me, s, depth, turn, n)[j].0 < n && Legal(s, MovesUpTo(me, s, depth, turn, n)[j].0) &&
      MovesUpTo(me, s, depth, turn, n)[j].1 == Score(me, s, depth, turn, MovesUpTo(me, s, depth, turn, n)[j].0)
  {
    if n > 0 {
      MovesUpToScores(me, s, depth, turn, n - 1);
    }
  }

  /** find_move returns a legal column; on the searching colour's turn no
      legal column scores more, on the opponent's none scores less, and every
      column before it scores strictly worse (ties go to the lowest column). */
  lemma FindMoveOptimal(me: Color, s: seq<Tile>, depth: nat, turn: Color)
    requires WellFormed(s) && !Full(s)
    ensures Legal(s, FindMoveSpec(me, s, depth, turn).col)
    ensures FindMoveSpec(me, s, depth, turn).points == Score(me, s, depth, turn, FindMoveSpec(me, s, depth, turn).col)
    ensures forall c: nat :: Legal(s, c) ==>
      !Beats(Score(me, s, depth, turn, c), FindMoveSpec(me, s, depth, turn).points, turn == me)
    ensures forall c: nat :: c < FindMoveSpec(me, s, depth, turn).col && Legal(s, c) ==>
      Beats(FindMoveSpec(me, s, depth, turn).points, Score(me, s, depth, turn, c), turn == me)
  {
    FindMovePick(me, s, depth, turn);
    FindMoveNoneBetter(me, s, depth, turn);
    FindMoveFirst(me, s, depth, turn);
  }

  /** find_move's pick is an entry of the list: a legal column and its score. */
  lemma FindMovePick(me: Color, s: seq<Tile>, depth: nat, turn: Color)
    requires WellFormed(s) && !Full(s)
    ensures var moves := MovesUpTo(me, s, depth, turn, Width);
      |moves| > 0 &&
      FindMoveSpec(me, s, depth, turn) == Choice(moves[BestIndex(moves, turn == me, |moves|)].1, moves[BestIndex(moves, turn == me, |moves|)].0, Column)
    ensures Legal(s, FindMoveSpec(me, s, depth, turn).col)
    ensures FindMoveSpec(me, s, depth, turn).points == Score(me, s, depth, turn, FindMoveSpec(me, s, depth, turn).col)
  {
    var moves := MovesUpTo(me, s, depth, turn, Width);
    MovesUpToScores(me, s, depth, turn, Width);
    MovesNonEmpty(me, s, depth, turn);
  }

  /** No legal column beats find_move's pick. */
  lemma FindMoveNoneBetter(me: Color, s: seq<Tile>, depth: nat, turn: Color)
    requires WellFormed(s) && !Full(s)
    ensures forall c: nat :: Legal(s, c) ==>
      !Beats(Score(me, s, depth, turn, c), FindMoveSpec(me, s, depth, turn).points, turn == me)
  {
    var moves := MovesUpTo(me, s, depth, turn, Width);
    FindMovePick(me, s, depth, turn);
    MovesUpToComplete(me, s, depth, turn, Width);
    MovesUpToScores(me, s, depth, turn, Width);
    var i := BestIndex(moves, turn == me, |moves|);
    BestIndexFirstExtremal(moves, turn == me, |moves|);
    var points := FindMoveSpec(me, s, depth, turn).points;
    assert points == moves[i].1;
    forall c: nat | Legal(s, c)
      ensures !Beats(Score(me, s, depth, turn, c), points, turn == me)
    {
      assert HasEntry(moves, c);
      var j :| 0 <= j < |moves| && moves[j].0 == c;
      assert !Beats(moves[j].1, moves[i].1, turn == me);
    }
  }

  /** Every legal column before find_move's pick scores strictly worse. */
  lemma FindMoveFirst(me: Color, s: seq<Tile>, depth: nat, turn: Color)
    requires WellFormed(s) && !Full(s)
    ensures forall c: nat :: c < FindMoveSpec(me, s, depth, turn).col && Legal(s, c) ==>
      Beats(FindMoveSpec(me, s, depth, turn).points, Score(me, s, depth, turn, c), turn == me)
  {
    var moves := MovesUpTo(me, s, depth, turn, Width);
    FindMovePick(me, s, depth, turn);
    MovesUpToLegal(me, s, depth, turn, Width);
    MovesUpToComplete(me, s, depth, turn, Width);
    MovesUpToScores(me, s, depth, turn, Width);
    var i := BestIndex(moves, turn == me, |moves|);
    var r := FindMoveSpec(me, s, depth, turn);
    assert r.col == moves[i].0 && r.points == moves[i].1;
    forall c: nat | c < r.col && Legal(s, c)
      ensures Beats(r.points, Score(me, s, depth, turn, c), turn == me)
    {
      assert HasEntry(moves, c);
      var j :| 0 <= j < |moves| && moves[j].0 == c;
      EarlierEntryWorse(moves, turn == me, j);
    }
  }

  /** In a list with increasing columns, an entry whose column is below the
      pick's comes before it and so scores strictly worse. */
  lemma EarlierEntryWorse(moves: seq<(nat, int)>, maximize: bool, j: nat)
    requires forall a, b :: 0 <= a < b < |moves| ==> moves[a].0 < moves[b].0
    requires j < |moves| && moves[j].0 < moves[BestIndex(moves, maximize, |moves|)].0
    ensures Beats(moves[BestIndex(moves, maximize, |moves|)].1, moves[j].1, maximize)
  {
    BestIndexFirstExtremal(moves, maximize, |moves|);
  }

  /** A full board scores 0 even when the last move made four in a row. */
  lemma FullBoardScoresZero(me: Color, s: seq<Tile>, depth: nat, turn: Color)
    requires WellFormed(s) && Full(s)
    ensures AfterMoveSpec(me, s, depth, turn) == Choice(0, 0, Result)
  {
  }

  /** A won board that is not full scores +1000 for a win of the searching
      colour and -1000 for a loss. */
  lemma WonBoardScores(me: Color, s: seq<Tile>, depth: nat, turn: Color)
    requires WellFormed(s) && !Full(s)
    ensures StateOf(s) == WinState(me) ==> AfterMoveSpec(me, s, depth, turn).points == 1000
    ensures StateOf(s) == LoseState(me) ==> AfterMoveSpec(me, s, depth, turn).points == -1000
  {
  }

  // ---------------------------------------------------------------------
  // The searcher
  // ---------------------------------------------------------------------

  /** Minimax: the colour it plays for; it keeps no other state. */
  class Minimax {
    const me: Color
    const tile: Tile

    constructor (color: Color)
      ensures me == color && tile == ToTile(color)
    {
      me := color;
      tile := ToTile(color);
    }

    /** choose(board, depth): the column of find_move for the own colour. */
    method Choose(board: Board, depth: nat) returns (col: nat)
      requires board.Valid() && !Full(board.cells)
      ensures col == FindMoveSpec(me, board.cells, depth, me).col
      ensures Legal(board.cells, col)
    {
      var choice := FindMove(board, depth, me);
      FindMoveOptimal(me, board.cells, depth, me);
      col := choice.col;
    }

    /** find_move(board, depth, turn): each legal column is scored on a copy of
        the board, so the caller's board is not changed. */
    method FindMove(board: Board, depth: nat, turn: Color) returns (choice: Choice)
      requires board.Valid() && !Full(board.cells)
      ensures choice == FindMoveSpec(me, board.cells, depth, turn)
      decreases depth, 1
    {
      var moves: seq<(nat, int)> := [];
      var possible := board.PossibleMovesMask();
      var col: nat := 0;
      while col < Width
        invariant col <= Width
        invariant moves == MovesUpTo(me, board.cells, depth, turn, col)
      {
        if possible.At(col) {
          var clone := new Board.Copy(board);
          LegalHasRoom(clone.cells, col);
          InsertedExact(clone.cells, col, ToTile(turn));
          var pos := clone.Insert(col, ToTile(turn));
          var after := AfterMove(clone, depth, Opposite(turn), pos);
          moves := moves + [(col, after.points)];
        }
        col := col + 1;
      }
      MovesNonEmpty(me, board.cells, depth, turn);
      var i := BestIndex(moves, turn == me, |moves|);
      choice := Choice(moves[i].1, moves[i].0, Column);
    }

    /** after_move(board, depth, turn, pos); pos is unused, as in the source. */
    method AfterMove(board: Board, depth: nat, turn: Color, pos: Pos) returns (choice: Choice)
      requires board.Valid()
      ensures choice == AfterMoveSpec(me, board.cells, depth, turn)
      decreases depth, 0
    {
      var draw := board.IsDraw();
      if draw {
        return Choice(0, 0, Result);
      }
      var state := board.GameStateOf();
      if state == RedWon || state == BlueWon {
        return Choice(if state == WinState(me) then 1000 else -1000, 0, Result);
      }
      if depth == 0 {
        var value := ValueOfBoard(board);
        return Choice(value * 8, 0, Result);
      }
      choice := FindMove(board, depth - 1, turn);
    }

    /** value_of_board(board): the nested loop over all cells. */
    method ValueOfBoard(board: Board) returns (value: int)
      requires board.Valid()
      ensures value == BoardValue(board.cells, me)
    {
      value := 0;
      var col: nat := 0;
      while col < Width
        invariant col <= Width
        invariant value == ColsValue(board.cells, me, col)
      {
        value := ValueOfColumn(board, col, value);
        col := col + 1;
      }
    }

    /** value_of_board's inner loop over the rows of column col: each cell
        adds its own win possibilities and takes away the opponent's. */
    method ValueOfColumn(board: Board, col: nat, start: int) returns (value: int)
      requires board.Valid() && col < Width
      ensures value == start + RowsValue(board.cells, me, col, Height)
    {
      value := start;
      var row: nat := 0;
      while row < Height
        invariant row <= Height
        invariant value == start + RowsValue(board.cells, me, col, row)
      {
        var possibleWins := board.WinPossibilitiesAtPos(me, col, row);
        var opponentWins := board.WinPossibilitiesAtPos(Opposite(me), col, row);
        value := value + possibleWins;
        value := value - opponentWins;
        row := row + 1;
      }
    }
  }
}
