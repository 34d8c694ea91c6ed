// tic-tac-toe-menace/dt_model.py: the DTModel learner over board.py's Board.
// Unseen boards start at weight 0, a win adds 4 and a loss takes 4 from every
// recorded key, a draw moves them by a random -1, 0 or 1, and a move is drawn
// among the plays within 4 of the best weight.

module DtModel {
  import opened Wrappers
  import opened TicTacToe
  import opened MenaceLearning
  import MenaceBoard

  /** The weight pruned_choice gives a board it has not seen. */
  const NewWeight := 0
  /** report_win's and report_loss's step. */
  const Reward := 4

  /** report_draw's `random.randint(-1, 1)`, driven by a caller-supplied number. */
  function DrawConsequence(pick: nat): (c: int)
    ensures -1 <= c <= 1
    ensures c == -1 <==> pick % 3 == 0
    ensures c == 1 <==> pick % 3 == 2
  {
    RandIndex(3, pick) - 1
  }

  /** make_choice's `choice_hashes` for board s and table t, with the table
      they leave behind. */
  function Interned(t: Table, s: Grid, piece: Piece): (Table, seq<Play>) {
    InternPlays(t, s, piece, TicTacToe.PossiblePlays(s), NewWeight, LastSeenKey)
  }

  /** make_choice's candidates for board s and table t. */
  function Candidates(t: Table, s: Grid, piece: Piece): Option<seq<Play>> {
    TolerantCandidates(t, s, piece, NewWeight, LastSeenKey)
  }

  class DTModel {
    /** Weight per board key. */
    var choices: Table
    /** Keys chosen during the current game, in order. */
    var currentChoices: seq<nat>
    const piece: Piece

    /** Every recorded key has a weight. */
    ghost predicate Valid()
      reads this
    {
      KeysKnown(choices, currentChoices)
    }

    constructor (piece: Piece)
      ensures Valid() && choices == map[] && currentChoices == [] && this.piece == piece
    {
      this.piece := piece;
      choices := map[];
      currentChoices := [];
    }

    /** clear_choices(): a new game; the table is kept. */
    method ClearChoices()
      modifies this
      ensures Valid() && choices == old(choices) && currentChoices == []
    {
      currentChoices := [];
    }

    /** report_win(): +4 on every recorded key, once per occurrence. */
    method ReportWin()
      modifies this
      requires Valid()
      ensures Valid() && currentChoices == old(currentChoices)
      ensures choices.Keys == old(choices).Keys
      ensures forall k :: k in old(choices) ==> choices[k] == old(choices)[k] + Reward * Count(currentChoices, k)
    {
      choices := AddEach(choices, currentChoices, Reward);
    }

    /** report_loss(): -4 on every recorded key, once per occurrence. */
    method ReportLoss()
      modifies this
      requires Valid()
      ensures Valid() && currentChoices == old(currentChoices)
      ensures choices.Keys == old(choices).Keys
      ensures forall k :: k in old(choices) ==> choices[k] == old(choices)[k] - Reward * Count(currentChoices, k)
    {
      choices := AddEach(choices, currentChoices, -Reward);
    }

    /** report_draw(): one random consequence in -1 .. 1, added to every
        recorded key once per occurrence. */
    method ReportDraw(pick: nat)
      modifies this
      requires Valid()
      ensures Valid() && currentChoices == old(currentChoices)
      ensures choices.Keys == old(choices).Keys
      ensures forall k :: k in old(choices) ==>
        choices[k] == old(choices)[k] + DrawConsequence(pick) * Count(currentChoices, k)
    {
      var consequence := DrawConsequence(pick);
      choices := AddEach(choices, currentChoices, consequence);
    }

    /** pruned_choice(choice): up to two rounds of four rotations, then a flip,
        returning the first key found in the table. On a miss the key of the
        last board looked at is entered with weight 0; the board is then back
        as it was. */
    method PrunedChoice(choice: MenaceBoard.Board) returns (hash: nat)
      modifies this, choice
      requires Valid()
      ensures Valid() && currentChoices == old(currentChoices)
      ensures hash in choices
      ensures choice.cells == SearchEnd(old(choices).Keys, old(choice.cells))
      ensures hash == InternKey(old(choices).Keys, old(choice.cells), LastSeenKey)
      ensures choices == InternTable(old(choices), old(choice.cells), NewWeight, LastSeenKey)
    {
      ghost var s := choice.cells;
      hash := 0;
      var f: nat := 0;
      ghost var n: nat := 0;
      ghost var last: nat := 0;
      while f < 2
        invariant f <= 2 && n == 4 * f && choices == old(choices) && currentChoices == old(currentChoices)
        invariant choice.cells == if f == 1 then Flipped(s) else s
        invariant Unseen(choices.Keys, s, n)
        invariant f > 0 ==> last + 1 == n && hash == Encode(Symmetry(s, last))
      {
        var found;
        found, hash := SearchRound(choice, s, f, n);
        if found {
          return hash;
        }
        SearchRounds(s);
        choice.Flip();
        f := f + 1;
        last := n + 3;
        n := n + 4;
      }
      SearchMiss(choices.Keys, s);
      choices := choices[hash := NewWeight];
    }

    /** One round of pruned_choice: four times, take the board's hash and stop
        if it is known, else rotate the board. Coming back empty-handed, the
        board has turned full circle and the hash is the last one taken. */
    method SearchRound(choice: MenaceBoard.Board, ghost s: Grid, f: nat, ghost n0: nat) returns (found: bool, hash: nat)
      modifies choice
      requires f < 2 && n0 == 4 * f && choice.cells == if f == 0 then s else Flipped(s)
      requires Unseen(choices.Keys, s, n0)
      ensures found ==>
        FirstSymmetry(choices.Keys, s, 0).Some? &&
        choice.cells == Symmetry(s, FirstSymmetry(choices.Keys, s, 0).value) &&
        Encode(choice.cells) in choices &&
        hash == Encode(choice.cells)
      ensures !found ==>
        choice.cells == RotN(if f == 0 then s else Flipped(s), 4) &&
        hash == Encode(Symmetry(s, n0 + 3)) &&
        Unseen(choices.Keys, s, n0 + 4)
    {
      hash := 0;
      var r: nat := 0;
      ghost var n: nat := n0;
      ghost var last: nat := 0;
      while r < 4
        invariant r <= 4 && n == n0 + r
        invariant choice.cells == RotN(if f == 0 then s else Flipped(s), r)
        invariant Unseen(choices.Keys, s, n)
        invariant r > 0 ==> last + 1 == n && hash == Encode(Symmetry(s, last))
      {
        found, hash := Look(choice, s, f, r, n);
        last := n;
        n := n + 1;
        if found {
          return true, hash;
        }
        r := r + 1;
      }
      return false, hash;
    }

    /** One turn of pruned_choice's inner loop, at board 4 * f + r of the
        search: take the hash, and rotate the board when it is not known. */
    method Look(choice: MenaceBoard.Board, ghost s: Grid, f: nat, r: nat, ghost n: nat) returns (found: bool, hash: nat)
      modifies choice
      requires f < 2 && r < 4 && n == 4 * f + r
      requires choice.cells == RotN(if f == 0 then s else Flipped(s), r)
      requires Unseen(choices.Keys, s, n)
      ensures hash == Encode(Symmetry(s, n))
      ensures found ==>
        FirstSymmetry(choices.Keys, s, 0) == Some(n) &&
        choice.cells == Symmetry(s, n) && Encode(choice.cells) in choices
      ensures !found ==>
        choice.cells == RotN(if f == 0 then s else Flipped(s), r + 1) &&
        Unseen(choices.Keys, s, n + 1)
    {
      SymmetryIndex(s, f, r);
      hash := choice.Hash();
      if hash in choices {
        SearchHit(choices.Keys, s, n);
        return true, hash;
      }
      UnseenNext(choices.Keys, s, n);
      choice.Rotate();
      return false, hash;
    }

    /** One element of make_choice's `choice_hashes`: the board after playing
        at pos, searched for by pruned_choice. */
    method PrunePlay(board: MenaceBoard.Board, pos: nat) returns (hash: nat)
      modifies this
      requires Valid() && pos < 9 && board.cells[pos] == Empty
      ensures Valid() && currentChoices == old(currentChoices)
      ensures choices == InternTable(old(choices), After(board.cells, pos, piece), NewWeight, LastSeenKey)
      ensures hash == InternKey(old(choices).Keys, After(board.cells, pos, piece), LastSeenKey)
    {
      var choice := board.WithPlay(piece, pos);
      hash := PrunedChoice(choice);
    }

    /** make_choice's `choice_hashes`: each possible play with the key
        pruned_choice returns for the board after it, the table growing as it
        goes. */
    method PrunePlays(board: MenaceBoard.Board, plays: seq<nat>) returns (hashes: seq<Play>)
      modifies this
      requires Valid() && plays == TicTacToe.PossiblePlays(board.cells)
      ensures Valid() && currentChoices == old(currentChoices)
      ensures choices == InternPlays(old(choices), board.cells, piece, plays, NewWeight, LastSeenKey).0
      ensures hashes == InternPlays(old(choices), board.cells, piece, plays, NewWeight, LastSeenKey).1
    {
      ghost var s := board.cells;
      ghost var t := choices;
      PossiblePlaysExact(s);
      hashes := [];
      var j: nat := 0;
      while j < |plays|
        invariant j <= |plays| && currentChoices == old(currentChoices)
        invariant choices == InternPlays(t, s, piece, plays[..j], NewWeight, LastSeenKey).0
        invariant hashes == InternPlays(t, s, piece, plays[..j], NewWeight, LastSeenKey).1
        invariant Valid()
      {
        ghost var before := choices;
        var pos := plays[j];
        assert pos in plays;
        var hash := PrunePlay(board, pos);
        InternPlaysNext(t, s, piece, plays, j, NewWeight, LastSeenKey, before, hashes, choices, hash);
        hashes := hashes + [Play(pos, hash)];
        j := j + 1;
      }
      assert plays[..j] == plays;
    }

    /** make_choice(board): searches the board after each possible play,
        weighs the plays, and returns a random one among those within 4 of
        the best weight, recording its key. The board is not changed. With no
        possible play max() raises, which is None here. */
    method MakeChoice(board: MenaceBoard.Board, pick: nat) returns (pos: Option<nat>)
      modifies this
      requires Valid()
      ensures Valid()
      ensures choices == Interned(old(choices), board.cells, piece).0
      ensures pos.None? <==> |TicTacToe.PossiblePlays(board.cells)| == 0
      ensures pos.None? ==> currentChoices == old(currentChoices)
      ensures pos.Some? ==>
        Candidates(old(choices), board.cells, piece).Some? &&
        var cs := Candidates(old(choices), board.cells, piece).value;
        |cs| > 0 &&
        pos.value == cs[RandIndex(|cs|, pick)].pos &&
        pos.value in TicTacToe.PossiblePlays(board.cells) &&
        currentChoices == old(currentChoices) + [cs[RandIndex(|cs|, pick)].key]
    {
      var plays := board.PossiblePlays();
      var hashes := PrunePlays(board, plays);
      InternPlaysKeys(old(choices), board.cells, piece, plays, NewWeight, LastSeenKey);
      TolerantPick(choices, hashes, plays, pick);
      var candidates := Tolerant(choices, hashes);
      assert Candidates(old(choices), board.cells, piece) == candidates;
      if candidates.None? {
        return None;
      }
      var c := candidates.value[RandIndex(|candidates.value|, pick)];
      currentChoices := currentChoices + [c.key];
      pos := Some(c.pos);
    }

    /** size(): the number of boards in the table. */
    function Size(): (n: nat)
      reads this
      ensures n == |choices.Keys|
    {
      |choices|
    }
  }
}
