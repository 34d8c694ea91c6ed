// tic-tac-toe-menace/ai.py: the earlier DTModel learner over board.py's Board.
// Unseen boards start at weight 0, a win adds 1 and a loss takes 1 from every
// recorded key, and a move is drawn among the plays within 4 of the best
// weight. The source asks its board for as_key(), which board.py's Board
// calls hash(); both are the packed value, Encode(cells).

module MenaceAi {
  import opened Wrappers
  import opened TicTacToe
  import opened MenaceLearning
  import MenaceBoard

  /** The weight interned_choice gives a board it has not seen. */
  const NewWeight := 0
  /** reward's and punish's step. */
  const RewardStep := 1

  /** viable_choices' `candidates` before filtering, for board s and table t,
      with the table they leave behind. */
  function Interned(t: Table, s: Grid, piece: Piece): (Table, seq<Play>) {
    InternPlays(t, s, piece, TicTacToe.PossiblePlays(s), NewWeight, OwnKey)
  }

  /** viable_choices' result for board s and table t; None where max() raises. */
  function Candidates(t: Table, s: Grid, piece: Piece): Option<seq<Play>> {
    TolerantCandidates(t, s, piece, NewWeight, OwnKey)
  }

  class DTModel {
    /** Weight per canonical board key. */
    var choices: Table
    /** Keys chosen during the current game, in order. */
    var currentChoices: seq<nat>
    const piece: Piece

    /** Every recorded key has a weight. */
    ghost predicate Valid()
      reads this
    {
      KeysKnown(choices, currentChoices)
    }

    constructor (piece: Piece)
      ensures Valid() && choices == map[] && currentChoices == [] && this.piece == piece
    {
      this.piece := piece;
      choices := map[];
      currentChoices := [];
    }

    /** clear_choices(): a new game; the table is kept. */
    method ClearChoices()
      modifies this
      ensures Valid() && choices == old(choices) && currentChoices == []
    {
      currentChoices := [];
    }

    /** reward(): +1 on every recorded key, once per occurrence. */
    method Reward()
      modifies this
      requires Valid()
      ensures Valid() && currentChoices == old(currentChoices)
      ensures choices.Keys == old(choices).Keys
      ensures forall k :: k in old(choices) ==> choices[k] == old(choices)[k] + RewardStep * Count(currentChoices, k)
    {
      choices := AddEach(choices, currentChoices, RewardStep);
    }

    /** punish(): -1 on every recorded key, once per occurrence. */
    method Punish()
      modifies this
      requires Valid()
      ensures Valid() && currentChoices == old(currentChoices)
      ensures choices.Keys == old(choices).Keys
      ensures forall k :: k in old(choices) ==> choices[k] == old(choices)[k] - RewardStep * Count(currentChoices, k)
    {
      choices := AddEach(choices, currentChoices, -RewardStep);
    }

    /** interned_choice(choice): up to two rounds of four rotations, then a
        flip, stopping at the first board whose key is known; the board object
        is turned in place. After both rounds the board is back as it was, and
        its key is entered with weight 0. */
    method InternedChoice(choice: MenaceBoard.Board) returns (b: MenaceBoard.Board)
      modifies this, choice
      requires Valid()
      ensures Valid() && currentChoices == old(currentChoices)
      ensures b == choice && b.Hash() in choices
      ensures choice.cells == SearchEnd(old(choices).Keys, old(choice.cells))
      ensures choice.Hash() == InternKey(old(choices).Keys, old(choice.cells), OwnKey)
      ensures choices == InternTable(old(choices), old(choice.cells), NewWeight, OwnKey)
    {
      ghost var s := choice.cells;
      var f: nat := 0;
      ghost var n: nat := 0;
      while f < 2
        invariant f <= 2 && n == 4 * f && choices == old(choices) && currentChoices == old(currentChoices)
        invariant choice.cells == if f == 1 then Flipped(s) else s
        invariant Unseen(choices.Keys, s, n)
      {
        var found := SearchRound(choice, s, f, n);
        if found {
          return choice;
        }
        SearchRounds(s);
        choice.Flip();
        f := f + 1;
        n := n + 4;
      }
      SearchMiss(choices.Keys, s);
      choices := choices[choice.Hash() := NewWeight];
      return choice;
    }

    /** One round of interned_choice: four times, stop if the board's key is
        known, else rotate it. Coming back empty-handed, the board has turned
        full circle. */
    method SearchRound(choice: MenaceBoard.Board, ghost s: Grid, f: nat, ghost n0: nat) returns (found: bool)
      modifies choice
      requires f < 2 && n0 == 4 * f && choice.cells == if f == 0 then s else Flipped(s)
      requires Unseen(choices.Keys, s, n0)
      ensures found ==>
        FirstSymmetry(choices.Keys, s, 0).Some? &&
        choice.cells == Symmetry(s, FirstSymmetry(choices.Keys, s, 0).value) &&
        Encode(choice.cells) in choices
      ensures !found ==>
        choice.cells == RotN(if f == 0 then s else Flipped(s), 4) &&
        Unseen(choices.Keys, s, n0 + 4)
    {
      var r: nat := 0;
      ghost var n: nat := n0;
      while r < 4
        invariant r <= 4 && n == n0 + r
        invariant choice.cells == RotN(if f == 0 then s else Flipped(s), r)
        invariant Unseen(choices.Keys, s, n)
      {
        found := Look(choice, s, f, r, n);
        if found {
          return true;
        }
        r := r + 1;
        n := n + 1;
      }
      return false;
    }

    /** One turn of interned_choice's inner loop, at board 4 * f + r of the
        search: stop if the key is known, else rotate the board. */
    method Look(choice: MenaceBoard.Board, ghost s: Grid, f: nat, r: nat, ghost n: nat) returns (found: bool)
      modifies choice
      requires f < 2 && r < 4 && n == 4 * f + r
      requires choice.cells == RotN(if f == 0 then s else Flipped(s), r)
      requires Unseen(choices.Keys, s, n)
      ensures found ==>
        FirstSymmetry(choices.Keys, s, 0) == Some(n) &&
        choice.cells == Symmetry(s, n) && Encode(choice.cells) in choices
      ensures !found ==>
        choice.cells == RotN(if f == 0 then s else Flipped(s), r + 1) &&
        Unseen(choices.Keys, s, n + 1)
    {
      SymmetryIndex(s, f, r);
      if choice.Hash() in choices {
        SearchHit(choices.Keys, s, n);
        return true;
      }
      UnseenNext(choices.Keys, s, n);
      choice.Rotate();
      return false;
    }

    /** choice_at_position(pos): the board after playing piece at pos,
        interned, and its key. */
    method ChoiceAtPosition(piece: Piece, board: MenaceBoard.Board, pos: nat) returns (key: nat)
      modifies this
      requires Valid() && pos < 9 && board.cells[pos] == Empty
      ensures Valid() && currentChoices == old(currentChoices)
      ensures choices == InternTable(old(choices), After(board.cells, pos, piece), NewWeight, OwnKey)
      ensures key == InternKey(old(choices).Keys, After(board.cells, pos, piece), OwnKey)
    {
      var choice := board.WithPlay(piece, pos);
      choice := InternedChoice(choice);
      key := choice.Hash();
    }

    /** viable_choices' list of `choice_at_position(pos)` over the possible
        plays, the table growing as it goes. */
    method ChoicesAtPositions(piece: Piece, board: MenaceBoard.Board, plays: seq<nat>) returns (candidates: seq<Play>)
      modifies this
      requires Valid() && plays == TicTacToe.PossiblePlays(board.cells)
      ensures Valid() && currentChoices == old(currentChoices)
      ensures choices == InternPlays(old(choices), board.cells, piece, plays, NewWeight, OwnKey).0
      ensures candidates == InternPlays(old(choices), board.cells, piece, plays, NewWeight, OwnKey).1
    {
      ghost var s := board.cells;
      ghost var t := choices;
      PossiblePlaysExact(s);
      candidates := [];
      var j: nat := 0;
      while j < |plays|
        invariant j <= |plays| && currentChoices == old(currentChoices)
        invariant choices == InternPlays(t, s, piece, plays[..j], NewWeight, OwnKey).0
        invariant candidates == InternPlays(t, s, piece, plays[..j], NewWeight, OwnKey).1
        invariant Valid()
      {
        ghost var before := choices;
        var pos := plays[j];
        assert pos in plays;
        var key := ChoiceAtPosition(piece, board, pos);
        InternPlaysNext(t, s, piece, plays, j, NewWeight, OwnKey, before, candidates, choices, key);
        candidates := candidates + [Play(pos, key)];
        j := j + 1;
      }
      assert plays[..j] == plays;
    }

    /** viable_choices(piece, board): the plays, each with its interned key,
        whose weight is within 4 of the best. With no possible play max()
        raises, which is None here; the source's "unreachable" exception for
        an empty filtered list is indeed unreachable. */
    method ViableChoices(piece: Piece, board: MenaceBoard.Board) returns (r: Option<seq<Play>>)
      modifies this
      requires Valid()
      ensures Valid() && currentChoices == old(currentChoices)
      ensures choices == Interned(old(choices), board.cells, piece).0
      ensures r == Candidates(old(choices), board.cells, piece)
      ensures r.None? <==> |TicTacToe.PossiblePlays(board.cells)| == 0
      ensures r.Some? ==> |r.value| > 0
    {
      var plays := board.PossiblePlays();
      var candidates := ChoicesAtPositions(piece, board, plays);
      InternPlaysKeys(old(choices), board.cells, piece, plays, NewWeight, OwnKey);
      TolerantSound(choices, candidates);
      r := Tolerant(choices, candidates);
      assert Candidates(old(choices), board.cells, piece) == r;
    }

    /** random_viable_choice(piece, board): one of the viable choices, drawn
        by the caller-supplied pick. */
    method RandomViableChoice(piece: Piece, board: MenaceBoard.Board, pick: nat) returns (r: Option<Play>)
      modifies this
      requires Valid()
      ensures Valid() && currentChoices == old(currentChoices)
      ensures choices == Interned(old(choices), board.cells, piece).0
      ensures r.None? <==> |TicTacToe.PossiblePlays(board.cells)| == 0
      ensures r.Some? ==>
        Candidates(old(choices), board.cells, piece).Some? &&
        var cs := Candidates(old(choices), board.cells, piece).value;
        |cs| > 0 &&
        r.value == cs[RandIndex(|cs|, pick)] &&
        r.value.pos in TicTacToe.PossiblePlays(board.cells) &&
        r.value.key in choices
    {
      var plays := board.PossiblePlays();
      ghost var g := Interned(old(choices), board.cells, piece);
      var candidates := ViableChoices(piece, board);
      InternPlaysKeys(old(choices), board.cells, piece, plays, NewWeight, OwnKey);
      TolerantPick(g.0, g.1, plays, pick);
      if candidates.None? {
        return None;
      }
      r := Some(candidates.value[RandIndex(|candidates.value|, pick)]);
    }

    /** make_choice(board): a random viable choice for the learner's own
        piece; its key is recorded and its position returned. */
    method MakeChoice(board: MenaceBoard.Board, pick: nat) returns (pos: Option<nat>)
      modifies this
      requires Valid()
      ensures Valid()
      ensures choices == Interned(old(choices), board.cells, piece).0
      ensures pos.None? <==> |TicTacToe.PossiblePlays(board.cells)| == 0
      ensures pos.None? ==> currentChoices == old(currentChoices)
      ensures pos.Some? ==>
        Candidates(old(choices), board.cells, piece).Some? &&
        var cs := Candidates(old(choices), board.cells, piece).value;
        |cs| > 0 &&
        pos.value == cs[RandIndex(|cs|, pick)].pos &&
        pos.value in TicTacToe.PossiblePlays(board.cells) &&
        currentChoices == old(currentChoices) + [cs[RandIndex(|cs|, pick)].key]
    {
      var choice := RandomViableChoice(piece, board, pick);
      if choice.None? {
        return None;
      }
      currentChoices := currentChoices + [choice.value.key];
      pos := Some(choice.value.pos);
    }
  }
}
