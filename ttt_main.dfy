// tic-tac-toe-menace/main.py: its own packed Board (field `val`) and the
// AiPlayer learner, which keeps a weight per canonical board key, starts
// unseen keys at 20, and moves +1 / -1 on every recorded key after a game.

module MenaceMain {
  import opened Wrappers
  import opened Bits
  import opened TicTacToe
  import opened MenaceLearning

  class Board {
    /** The pieces of val: position i is the 2-bit field at 2 * i. */
    var cells: Grid

    /** Board(val) for the val Encode(s). */
    constructor (s: Grid)
      ensures cells == s && Key() == Encode(s)
    {
      cells := s;
    }

    /** key(): val itself, which fits in 18 bits. */
    function Key(): (k: nat)
      reads this
      ensures k < Pow4(9)
    {
      EncodeBound(cells);
      Encode(cells)
    }

    /** place(i): `Ch(val >> i * 2 & 0b11)`, EMPTY past position 8. */
    function Place(i: nat): (ch: Piece)
      reads this
      ensures ch == Key() / Pow4(i) % 4
    {
      FieldAt(cells, i);
      if i < 9 then cells[i] else Empty
    }

    /** possible_plays(): the positions whose field is 0, ascending. */
    function PossiblePlays(): (r: seq<nat>)
      reads this
      ensures forall x: nat :: x in r <==> x < 9 && cells[x] == Empty
      ensures Ascending(r)
      ensures |r| == multiset(cells)[Empty]
    {
      PossiblePlaysExact(cells);
      TicTacToe.PossiblePlays(cells)
    }

    /** clone(): a new board with the same val. */
    method Clone() returns (b: Board)
      ensures fresh(b) && b.cells == cells
    {
      b := new Board(cells);
    }

    /** play(ch, i): ORs ch into field i, which on an EMPTY position sets that
        position alone. */
    method Play(ch: Piece, i: nat)
      modifies this
      requires i < 9 && cells[i] == Empty
      ensures cells == old(cells)[i := ch]
      ensures Key() == old(Key()) + ch * Pow4(i)
    {
      EncodeSet(cells, i, ch);
      cells := cells[i := ch];
    }

    /** with_play(ch, i): the board after the play, as a new object. */
    method WithPlay(ch: Piece, i: nat) returns (b: Board)
      requires i < 9 && cells[i] == Empty
      ensures fresh(b) && b.cells == After(cells, i, ch)
    {
      b := Clone();
      b.Play(ch, i);
    }

    /** rotate(): reads the fields in the order of RotateIdx, then refills. */
    method Rotate()
      modifies this
      ensures cells == Rotated(old(cells))
    {
      var vals := Fields(RotateIdx);
      Refill(vals);
    }

    /** flip(): the same with FlipIdx. */
    method Flip()
      modifies this
      ensures cells == Flipped(old(cells))
    {
      var vals := Fields(FlipIdx);
      Refill(vals);
    }

    /** `[self.val >> i * CH_WIDTH & 0b11 for i in idcs]` */
    function Fields(idx: seq<nat>): (vals: Grid)
      reads this
      requires IsIndexTable(idx)
      ensures vals == Gather(cells, idx)
    {
      seq(9, i requires 0 <= i < 9 reads this => Place(idx[i]))
    }

    /** The second half of rotate() and flip(): val is set to 0 and the
        values are ORed back position by position. */
    method Refill(vals: Grid)
      modifies this
      ensures cells == vals
    {
      cells := EmptyGrid();
      var i: nat := 0;
      while i < 9
        invariant i <= 9
        invariant forall j :: 0 <= j < 9 ==> cells[j] == if j < i then vals[j] else Empty
      {
        Play(vals[i], i);
        i := i + 1;
      }
    }

    /** player_has_won(ch): the loop over the eight combos. */
    function PlayerHasWon(ch: Piece): (r: bool)
      reads this
      ensures r <==> Won(cells, ch)
    {
      AnyLineFrom(cells, ch, 0)
    }

    /** is_draw(): no possible play is left, which is no EMPTY position. */
    function IsDraw(): (r: bool)
      reads this
      ensures r <==> Filled(cells)
    {
      FilledIffNoPlays(cells);
      |PossiblePlays()| == 0
    }
  }

  const StartWeight := 20
  const WinReward := 1
  const Punishment := 1

  /** The searches make_play runs, one per possible play, and the table after them. */
  function Interned(t: Table, s: Grid, ch: Piece): (Table, seq<Play>) {
    InternPlays(t, s, ch, TicTacToe.PossiblePlays(s), StartWeight, OwnKey)
  }

  /** make_play's candidate list for board s and table t. */
  function Candidates(t: Table, s: Grid, ch: Piece): (int, seq<Play>) {
    var g := Interned(t, s, ch);
    ZeroScan(Weigh(g.0, g.1))
  }

  /** There are candidates exactly when there is a possible play; each is a
      possible play whose key is in the new table with the shared weight. */
  lemma CandidatesSound(t: Table, s: Grid, ch: Piece)
    ensures |Candidates(t, s, ch).1| > 0 <==> |TicTacToe.PossiblePlays(s)| > 0
    ensures forall c :: c in Candidates(t, s, ch).1 ==>
      c.pos in TicTacToe.PossiblePlays(s) && c.key in Interned(t, s, ch).0 &&
      Interned(t, s, ch).0[c.key] == Candidates(t, s, ch).0
  {
    var plays := TicTacToe.PossiblePlays(s);
    var g := Interned(t, s, ch);
    var cs := Weigh(g.0, g.1);
    InternPlaysKeys(t, s, ch, plays, StartWeight, OwnKey);
    ZeroScanSound(cs);
    forall c | c in Candidates(t, s, ch).1
      ensures c.pos in plays && c.key in g.0 && g.0[c.key] == Candidates(t, s, ch).0
    {
      var i :| 0 <= i < |ZeroScan(cs).1| && ZeroScan(cs).1[i] == c;
      var j :| 0 <= j < |cs| && cs[j] == Scored(c.pos, c.key, ZeroScan(cs).0);
      assert g.1[j].pos == plays[j];
    }
  }

  class AiPlayer {
    /** Weight per canonical board key. */
    var choices: Table
    /** Keys chosen during the current game, in order. */
    var currentChoices: seq<nat>
    const ch: Piece

    /** Every recorded key has a weight. */
    ghost predicate Valid()
      reads this
    {
      KeysKnown(choices, currentChoices)
    }

    constructor (ch: Piece)
      ensures Valid() && choices == map[] && currentChoices == [] && this.ch == ch
    {
      choices := map[];
      currentChoices := [];
      this.ch := ch;
    }

    /** clear_choices(): a new game; the table is kept. */
    method ClearChoices()
      modifies this
      ensures Valid() && choices == old(choices) && currentChoices == []
    {
      currentChoices := [];
    }

    /** reward_win(): +1 on every recorded key, once per occurrence. */
    method RewardWin()
      modifies this
      requires Valid()
      ensures Valid() && currentChoices == old(currentChoices)
      ensures choices.Keys == old(choices).Keys
      ensures forall k :: k in old(choices) ==> choices[k] == old(choices)[k] + WinReward * Count(currentChoices, k)
    {
      choices := AddEach(choices, currentChoices, WinReward);
    }

    /** punish_loss(): -1 on every recorded key, once per occurrence. */
    method PunishLoss()
      modifies this
      requires Valid()
      ensures Valid() && currentChoices == old(currentChoices)
      ensures choices.Keys == old(choices).Keys
      ensures forall k :: k in old(choices) ==> choices[k] == old(choices)[k] - Punishment * Count(currentChoices, k)
    {
      choices := AddEach(choices, currentChoices, -Punishment);
    }

    /** interned_choice(choice): up to two rounds of four rotations, then a
        flip, stopping at the first board whose key is known; the board object
        is turned in place. After both rounds the board is back as it was, and
        its key is entered with START_WEIGHT. */
    method InternedChoice(choice: Board) returns (b: Board)
      modifies this, choice
      requires Valid()
      ensures Valid() && currentChoices == old(currentChoices)
      ensures b == choice && Encode(b.cells) in choices
      ensures choice.cells == SearchEnd(old(choices).Keys, old(choice.cells))
      ensures Encode(choice.cells) == InternKey(old(choices).Keys, old(choice.cells), OwnKey)
      ensures choices == InternTable(old(choices), old(choice.cells), StartWeight, OwnKey)
    {
      ghost var s := choice.cells;
      var f: nat := 0;
      ghost var n: nat := 0;
      while f < 2
        invariant f <= 2 && n == 4 * f && choices == old(choices) && currentChoices == old(currentChoices)
        invariant choice.cells == if f == 1 then Flipped(s) else s
        invariant Unseen(choices.Keys, s, n)
      {
        var found := SearchRound(choice, s, f, n);
        if found {
          return choice;
        }
        SearchRounds(s);
        choice.Flip();
        f := f + 1;
        n := n + 4;
      }
      SearchMiss(choices.Keys, s);
      var key := choice.Key();
      choices := choices[key := StartWeight];
      return choice;
    }

    /** One round of interned_choice: four times, stop if the board's key is
        known, else rotate it. Coming back empty-handed, the board has turned
        full circle. */
    method SearchRound(choice: Board, ghost s: Grid, f: nat, ghost n0: nat) returns (found: bool)
      modifies choice
      requires f < 2 && n0 == 4 * f && choice.cells == if f == 0 then s else Flipped(s)
      requires Unseen(choices.Keys, s, n0)
      ensures found ==>
        FirstSymmetry(choices.Keys, s, 0).Some? &&
        choice.cells == Symmetry(s, FirstSymmetry(choices.Keys, s, 0).value) &&
        Encode(choice.cells) in choices
      ensures !found ==>
        choice.cells == RotN(if f == 0 then s else Flipped(s), 4) &&
        Unseen(choices.Keys, s, n0 + 4)
    {
      var r: nat := 0;
      ghost var n: nat := n0;
      while r < 4
        invariant r <= 4 && n == n0 + r
        invariant choice.cells == RotN(if f == 0 then s else Flipped(s), r)
        invariant Unseen(choices.Keys, s, n)
      {
        SymmetryIndex(s, f, r);
        var key := choice.Key();
        if key in choices {
          SearchHit(choices.Keys, s, n);
          return true;
        }
        UnseenNext(choices.Keys, s, n);
        choice.Rotate();
        r := r + 1;
        n := n + 1;
      }
      return false;
    }

    /** One element of make_play's `possible_choices`, interned: the board
        after playing ch at idx, turned by interned_choice, and its key. */
    method InternPlay(board: Board, idx: nat) returns (key: nat)
      modifies this
      requires Valid() && idx < 9 && board.cells[idx] == Empty
      ensures Valid() && currentChoices == old(currentChoices)
      ensures choices == InternTable(old(choices), After(board.cells, idx, ch), StartWeight, OwnKey)
      ensures key == InternKey(old(choices).Keys, After(board.cells, idx, ch), OwnKey)
    {
      var choice := board.WithPlay(ch, idx);
      choice := InternedChoice(choice);
      key := choice.Key();
    }

    /** make_play(board): searches the board after each possible play, scans
        the plays with ZeroScan, and plays a random candidate on the board,
        recording its key. With no possible play the source raises, which is
        None here. */
    method MakePlay(board: Board, pick: nat) returns (played: Option<nat>)
      modifies this, board
      requires Valid()
      ensures Valid()
      ensures choices == Interned(old(choices), old(board.cells), ch).0
      ensures played.None? <==> |TicTacToe.PossiblePlays(old(board.cells))| == 0
      ensures played.None? ==> board.cells == old(board.cells) && currentChoices == old(currentChoices)
      ensures played.Some? ==>
        var cs := Candidates(old(choices), old(board.cells), ch).1;
        |cs| > 0 &&
        played.value == cs[RandIndex(|cs|, pick)].pos &&
        played.value in TicTacToe.PossiblePlays(old(board.cells)) &&
        board.cells == After(old(board.cells), played.value, ch) &&
        currentChoices == old(currentChoices) + [cs[RandIndex(|cs|, pick)].key]
    {
      var plays := board.PossiblePlays();
      var candidates := ScanPlays(board, plays);
      CandidatesSound(old(choices), board.cells, ch);
      if |candidates| == 0 {
        return None;
      }
      var c := candidates[RandIndex(|candidates|, pick)];
      assert c in candidates;
      currentChoices := currentChoices + [c.key];
      board.Play(ch, c.pos);
      played := Some(c.pos);
    }

    /** The loop of make_play: intern the board after each play in turn and
        keep the candidate list of ZeroScan. */
    method ScanPlays(board: Board, plays: seq<nat>) returns (candidates: seq<Play>)
      modifies this
      requires Valid() && plays == TicTacToe.PossiblePlays(board.cells)
      ensures Valid() && currentChoices == old(currentChoices)
      ensures choices == Interned(old(choices), board.cells, ch).0
      ensures candidates == Candidates(old(choices), board.cells, ch).1
    {
      ghost var s := board.cells;
      ghost var t := choices;
      PossiblePlaysExact(s);
      var candWeight := 0;
      candidates := [];
      ghost var seen: seq<Play> := [];
      var j: nat := 0;
      while j < |plays|
        invariant j <= |plays| && currentChoices == old(currentChoices)
        invariant choices == InternPlays(t, s, ch, plays[..j], StartWeight, OwnKey).0
        invariant seen == InternPlays(t, s, ch, plays[..j], StartWeight, OwnKey).1
        invariant (candWeight, candidates) == ZeroScan(Weigh(choices, seen))
        invariant Valid()
      {
        ghost var before := choices;
        var idx := plays[j];
        assert idx in plays;
        var key := InternPlay(board, idx);
        InternPlaysNext(t, s, ch, plays, j, StartWeight, OwnKey, before, seen, choices, key);
        var w := choices[key];
        ZeroScanAppend(Weigh(before, seen), Scored(idx, key, w));
        if candWeight == 0 || w > candWeight + 4 {
          candWeight := w;
          candidates := [Play(idx, key)];
        } else if w == candWeight {
          candidates := candidates + [Play(idx, key)];
        }
        seen := seen + [Play(idx, key)];
        j := j + 1;
      }
      assert plays[..j] == plays;
    }
  }
}
