// What the three MENACE-style learners of tic-tac-toe-menace share: a table
// from board keys to weights, a search over the eight symmetries of a board
// before a lookup, a rule choosing among the near-best plays, and rewards
// added to every key recorded during a game.

module MenaceLearning {
  import opened Wrappers
  import opened TicTacToe

  /** The learners' tables: board key to weight. */
  type Table = map<nat, int>

  // ---------------------------------------------------------------------
  // The symmetry search of interned_choice and pruned_choice
  // ---------------------------------------------------------------------

  /** The first n' >= n whose symmetric board's key is in keys. */
  function FirstSymmetry(keys: set<nat>, s: Grid, n: nat): (r: Option<nat>)
    requires n <= 8
    ensures r.Some? ==> n <= r.value < 8
    decreases 8 - n
  {
    if n == 8 then None
    else if Encode(Symmetry(s, n)) in keys then Some(n)
    else FirstSymmetry(keys, s, n + 1)
  }

  /** The search finds the first symmetric board with a known key, or reports
      that none of the remaining ones has one. */
  lemma {:induction false} FirstSymmetrySound(keys: set<nat>, s: Grid, n: nat)
    requires n <= 8
    ensures FirstSymmetry(keys, s, n).Some? ==> Encode(Symmetry(s, FirstSymmetry(keys, s, n).value)) in keys
    ensures forall m :: n <= m < 8 && (FirstSymmetry(keys, s, n).None? || m < FirstSymmetry(keys, s, n).value) ==>
      Encode(Symmetry(s, m)) !in keys
    decreases 8 - n
  {
    if n < 8 {
      FirstSymmetrySound(keys, s, n + 1);
      var r := FirstSymmetry(keys, s, n);
      if Encode(Symmetry(s, n)) in keys {
        assert r == Some(n);
      } else {
        assert r == FirstSymmetry(keys, s, n + 1);
        forall m | n <= m < 8 && (r.None? || m < r.value)
          ensures Encode(Symmetry(s, m)) !in keys
        {
          if m > n {
            assert n + 1 <= m;
          }
        }
      }
    }
  }

  /** None of the first n symmetric boards of s has its key in keys. */
  ghost predicate Unseen(keys: set<nat>, s: Grid, n: nat) {
    forall m :: 0 <= m < n && m < 8 ==> Encode(Symmetry(s, m)) !in keys
  }

  /** One more turn of the search that finds nothing. */
  lemma UnseenNext(keys: set<nat>, s: Grid, n: nat)
    requires n < 8 && Unseen(keys, s, n) && Encode(Symmetry(s, n)) !in keys
    ensures Unseen(keys, s, n + 1)
  {
  }

  /** Turn n of the search finds its board's key when none of the turns
      before did. */
  lemma SearchHit(keys: set<nat>, s: Grid, n: nat)
    requires n < 8 && Encode(Symmetry(s, n)) in keys
    requires Unseen(keys, s, n)
    ensures FirstSymmetry(keys, s, 0) == Some(n)
  {
    FirstSymmetrySound(keys, s, 0);
  }

  /** A search none of whose eight turns finds a key comes back empty. */
  lemma SearchMiss(keys: set<nat>, s: Grid)
    requires Unseen(keys, s, 8)
    ensures FirstSymmetry(keys, s, 0) == None
  {
    FirstSymmetrySound(keys, s, 0);
  }

  /** The board object after the search of main.py and ai.py: the symmetric
      board whose key was found, or, after both rounds, the board itself. */
  function SearchEnd(keys: set<nat>, s: Grid): Grid {
    var n := FirstSymmetry(keys, s, 0);
    if n.Some? then Symmetry(s, n.value) else s
  }

  /** Which key a search that finds nothing inserts: the board's own key
      (main.py and ai.py, whose loops leave the board as it was), or the key
      of the last board looked at, the mirror image turned three times
      (dt_model.py, which inserts its loop variable). */
  datatype MissRule = OwnKey | LastSeenKey

  function MissKey(s: Grid, rule: MissRule): nat {
    if rule == OwnKey then Encode(s) else Encode(Symmetry(s, 7))
  }

  /** The key the search settles on for board s. */
  function InternKey(keys: set<nat>, s: Grid, rule: MissRule): nat {
    var n := FirstSymmetry(keys, s, 0);
    if n.Some? then Encode(Symmetry(s, n.value)) else MissKey(s, rule)
  }

  /** The table after the search: unchanged on a hit, one new entry on a miss. */
  function InternTable(t: Table, s: Grid, start: int, rule: MissRule): Table {
    if FirstSymmetry(t.Keys, s, 0).Some? then t else t[MissKey(s, rule) := start]
  }

  /** For main.py and ai.py the key is that of the board the search ends on. */
  lemma SearchEndKey(keys: set<nat>, s: Grid)
    ensures Encode(SearchEnd(keys, s)) == InternKey(keys, s, OwnKey)
  {
  }

  /** After the search its key is in the table; a miss adds exactly that key,
      with the start weight, and no entry already there changes. */
  lemma InternSound(t: Table, s: Grid, start: int, rule: MissRule)
    ensures InternKey(t.Keys, s, rule) in InternTable(t, s, start, rule)
    ensures FirstSymmetry(t.Keys, s, 0).Some? ==> InternTable(t, s, start, rule) == t
    ensures FirstSymmetry(t.Keys, s, 0).None? ==>
      InternKey(t.Keys, s, rule) !in t &&
      InternTable(t, s, start, rule) == t[InternKey(t.Keys, s, rule) := start]
    ensures |InternTable(t, s, start, rule)| <= |t| + 1
  {
    FirstSymmetrySound(t.Keys, s, 0);
    assert Symmetry(s, 0) == s;
  }

  /** A learner's view of one possible play: the position and the key the
      symmetry search returned for the board after it. */
  datatype Play = Play(pos: nat, key: nat)

  /** The same, with the key's weight. */
  datatype Scored = Scored(pos: nat, key: nat, weight: int)

  /** Search for the board after each play in turn, the table growing as it goes. */
  function InternPlays(t: Table, s: Grid, piece: Piece, plays: seq<nat>, start: int, rule: MissRule): (Table, seq<Play>) {
    if |plays| == 0 then (t, [])
    else
      var prev := InternPlays(t, s, piece, plays[..|plays| - 1], start, rule);
      var b := After(s, plays[|plays| - 1], piece);
      (InternTable(prev.0, b, start, rule), prev.1 + [Play(plays[|plays| - 1], InternKey(prev.0.Keys, b, rule))])
  }

  lemma InternPlaysStep(t: Table, s: Grid, piece: Piece, plays: seq<nat>, j: nat, start: int, rule: MissRule)
    requires j < |plays|
    ensures InternPlays(t, s, piece, plays[..j + 1], start, rule) ==
      var prev := InternPlays(t, s, piece, plays[..j], start, rule);
      var b := After(s, plays[j], piece);
      (InternTable(prev.0, b, start, rule), prev.1 + [Play(plays[j], InternKey(prev.0.Keys, b, rule))])
  {
    assert plays[..j + 1][..j] == plays[..j];
  }

  /** One search keeps every entry and adds at most one, with the start weight. */
  lemma InternPreserves(t: Table, s: Grid, start: int, rule: MissRule)
    ensures Preserves(t, InternTable(t, s, start, rule), start)
    ensures |InternTable(t, s, start, rule)| <= |t| + 1
  {
    InternSound(t, s, start, rule);
  }

  lemma PreservesTrans(a: Table, b: Table, c: Table, start: int)
    requires Preserves(a, b, start) && Preserves(b, c, start)
    ensures Preserves(a, c, start)
  {
  }

  /** Entries present before keep their weight, every new entry holds the
      start weight, and the table grows by at most one entry per play. */
  lemma {:induction false} InternPlaysGrow(t: Table, s: Grid, piece: Piece, plays: seq<nat>, start: int, rule: MissRule)
    ensures Preserves(t, InternPlays(t, s, piece, plays, start, rule).0, start)
    ensures |InternPlays(t, s, piece, plays, start, rule).0| <= |t| + |plays|
  {
    if |plays| > 0 {
      var init := plays[..|plays| - 1];
      InternPlaysGrow(t, s, piece, init, start, rule);
      var prev := InternPlays(t, s, piece, init, start, rule);
      InternPreserves(prev.0, After(s, plays[|plays| - 1], piece), start, rule);
      PreservesTrans(t, prev.0, InternPlays(t, s, piece, plays, start, rule).0, start);
    }
  }

  /** Each play, in order, gets a key that is in the final table. */
  lemma {:induction false} InternPlaysKeys(t: Table, s: Grid, piece: Piece, plays: seq<nat>, start: int, rule: MissRule)
    ensures |InternPlays(t, s, piece, plays, start, rule).1| == |plays|
    ensures forall j :: 0 <= j < |plays| ==>
      InternPlays(t, s, piece, plays, start, rule).1[j].pos == plays[j] &&
      InternPlays(t, s, piece, plays, start, rule).1[j].key in InternPlays(t, s, piece, plays, start, rule).0
  {
    if |plays| > 0 {
      var init := plays[..|plays| - 1];
      InternPlaysKeys(t, s, piece, init, start, rule);
      var prev := InternPlays(t, s, piece, init, start, rule);
      var b := After(s, plays[|plays| - 1], piece);
      InternSound(prev.0, b, start, rule);
      InternPreserves(prev.0, b, start, rule);
      var r := InternPlays(t, s, piece, plays, start, rule);
      var last := Play(plays[|plays| - 1], InternKey(prev.0.Keys, b, rule));
      assert r == (InternTable(prev.0, b, start, rule), prev.1 + [last]);
      assert last.key in r.0;
      forall j | 0 <= j < |plays| ensures r.1[j].pos == plays[j] && r.1[j].key in r.0 {
        if j < |init| {
          assert r.1[j] == prev.1[j] && plays[j] == init[j];
        } else {
          assert r.1[j] == last;
        }
      }
    }
  }

  /** One more search in a pass over the plays: the pass's table and keys
      grow by that search, and the plays seen so far weigh as before. */
  lemma InternPlaysNext(t: Table, s: Grid, piece: Piece, plays: seq<nat>, j: nat, start: int, rule: MissRule,
                        before: Table, seen: seq<Play>, after: Table, key: nat)
    requires j < |plays|
    requires before == InternPlays(t, s, piece, plays[..j], start, rule).0
    requires seen == InternPlays(t, s, piece, plays[..j], start, rule).1
    requires after == InternTable(before, After(s, plays[j], piece), start, rule)
    requires key == InternKey(before.Keys, After(s, plays[j], piece), rule)
    ensures after == InternPlays(t, s, piece, plays[..j + 1], start, rule).0
    ensures seen + [Play(plays[j], key)] == InternPlays(t, s, piece, plays[..j + 1], start, rule).1
    ensures key in after && Preserves(before, after, start)
    ensures Weigh(after, seen + [Play(plays[j], key)]) == Weigh(before, seen) + [Scored(plays[j], key, after[key])]
  {
    InternPlaysStep(t, s, piece, plays, j, start, rule);
    InternPlaysKeys(t, s, piece, plays[..j], start, rule);
    InternSound(before, After(s, plays[j], piece), start, rule);
    InternPreserves(before, After(s, plays[j], piece), start, rule);
    WeighGrown(before, after, seen, Play(plays[j], key));
  }

  /** t' keeps every entry of t and gives each new key the weight start. */
  predicate Preserves(t: Table, t': Table, start: int) {
    (forall k :: k in t ==> k in t' && t'[k] == t[k]) &&
    (forall k :: k in t' && k !in t ==> t'[k] == start)
  }

  /** `[(p, hash, self.choices[hash]) for p, hash in choice_hashes]` */
  function Weigh(t: Table, ps: seq<Play>): (r: seq<Scored>)
    ensures |r| == |ps|
    ensures forall j :: 0 <= j < |ps| ==> r[j].pos == ps[j].pos && r[j].key == ps[j].key
    ensures forall j :: 0 <= j < |ps| && ps[j].key in t ==> r[j].weight == t[ps[j].key]
  {
    seq(|ps|, j requires 0 <= j < |ps| => Scored(ps[j].pos, ps[j].key, if ps[j].key in t then t[ps[j].key] else 0))
  }

  /** A table that kept the entries of the plays' keys weighs them alike. */
  lemma WeighGrown(t: Table, t': Table, ps: seq<Play>, p: Play)
    requires forall j :: 0 <= j < |ps| ==> ps[j].key in t && ps[j].key in t' && t'[ps[j].key] == t[ps[j].key]
    requires p.key in t'
    ensures Weigh(t', ps + [p]) == Weigh(t, ps) + [Scored(p.pos, p.key, t'[p.key])]
  {
  }

  // ---------------------------------------------------------------------
  // Choosing among the plays
  // ---------------------------------------------------------------------

  /** The scan of main.py's make_play over the scored plays in order. The weight
      in hand starts at 0 and doubles as "no candidate yet": a zero weight in
      hand, or a weight more than 4 above it, starts a new candidate list; an
      equal weight joins the list; anything else is passed over. */
  function ZeroScan(cs: seq<Scored>): (int, seq<Play>) {
    if |cs| == 0 then (0, [])
    else
      var prev := ZeroScan(cs[..|cs| - 1]);
      var c := cs[|cs| - 1];
      if prev.0 == 0 || c.weight > prev.0 + 4 then (c.weight, [Play(c.pos, c.key)])
      else if c.weight == prev.0 then (prev.0, prev.1 + [Play(c.pos, c.key)])
      else prev
  }

  lemma ZeroScanStep(cs: seq<Scored>, j: nat)
    requires j < |cs|
    ensures ZeroScan(cs[..j + 1]) ==
      var prev := ZeroScan(cs[..j]);
      if prev.0 == 0 || cs[j].weight > prev.0 + 4 then (cs[j].weight, [Play(cs[j].pos, cs[j].key)])
      else if cs[j].weight == prev.0 then (prev.0, prev.1 + [Play(cs[j].pos, cs[j].key)])
      else prev
  {
    assert cs[..j + 1][..j] == cs[..j];
  }

  lemma ZeroScanAppend(cs: seq<Scored>, c: Scored)
    ensures ZeroScan(cs + [c]) ==
      var prev := ZeroScan(cs);
      if prev.0 == 0 || c.weight > prev.0 + 4 then (c.weight, [Play(c.pos, c.key)])
      else if c.weight == prev.0 then (prev.0, prev.1 + [Play(c.pos, c.key)])
      else prev
  {
    assert (cs + [c])[..|cs|] == cs;
  }

  /** The candidates are non-empty exactly when some play was scored; each is
      a scored play, and all of them carry the weight in hand. */
  lemma {:induction false} ZeroScanSound(cs: seq<Scored>)
    ensures |ZeroScan(cs).1| > 0 <==> |cs| > 0
    ensures forall i :: 0 <= i < |ZeroScan(cs).1| ==>
      exists j :: 0 <= j < |cs| && cs[j] == Scored(ZeroScan(cs).1[i].pos, ZeroScan(cs).1[i].key, ZeroScan(cs).0)
  {
    if |cs| > 0 {
      var init := cs[..|cs| - 1];
      ZeroScanSound(init);
      var prev, c, r := ZeroScan(init), cs[|cs| - 1], ZeroScan(cs);
      assert forall j :: 0 <= j < |init| ==> cs[j] == init[j];
      forall i | 0 <= i < |r.1|
        ensures exists j :: 0 <= j < |cs| && cs[j] == Scored(r.1[i].pos, r.1[i].key, r.0)
      {
        if prev.0 == 0 || c.weight > prev.0 + 4 {
          assert cs[|cs| - 1] == Scored(r.1[i].pos, r.1[i].key, r.0);
        } else if c.weight == prev.0 && i == |prev.1| {
          assert cs[|cs| - 1] == Scored(r.1[i].pos, r.1[i].key, r.0);
        } else {
          assert r.1[i] == prev.1[i];
          var j :| 0 <= j < |init| && init[j] == Scored(prev.1[i].pos, prev.1[i].key, prev.0);
          assert cs[j] == init[j];
        }
      }
    }
  }

  /** While no scored weight is 0, the weight in hand is never more than 4
      below any weight seen: the scan keeps near-best plays only. */
  lemma {:induction false} ZeroScanNearBest(cs: seq<Scored>)
    requires forall j :: 0 <= j < |cs| ==> cs[j].weight != 0
    ensures forall j :: 0 <= j < |cs| ==> cs[j].weight <= ZeroScan(cs).0 + 4
  {
    if |cs| > 0 {
      var init := cs[..|cs| - 1];
      ZeroScanNearBest(init);
      ZeroScanSound(init);
      var prev := ZeroScan(init);
      assert forall j :: 0 <= j < |init| ==> cs[j] == init[j];
      if |init| > 0 {
        var j :| 0 <= j < |init| && init[j] == Scored(prev.1[0].pos, prev.1[0].key, prev.0);
        assert prev.0 != 0;
      }
    }
  }

  /** The 0 in hand is also the marker for "nothing yet", so a play of weight 0
      followed by a play of weight -5 leaves the -5 play as the only candidate. */
  lemma ZeroWeightIsForgotten()
    ensures ZeroScan([Scored(0, 10, 0), Scored(1, 11, -5)]) == (-5, [Play(1, 11)])
  {
    var cs := [Scored(0, 10, 0), Scored(1, 11, -5)];
    assert cs[..1] == [Scored(0, 10, 0)];
    assert cs[..1][..0] == [];
  }

  /** `max(weight for _, _, weight in choices)`: None where Python raises on
      an empty sequence. */
  function MaxWeight(cs: seq<Scored>): Option<int> {
    if |cs| == 0 then None
    else
      var prev := MaxWeight(cs[..|cs| - 1]);
      var w := cs[|cs| - 1].weight;
      if prev.Some? && prev.value >= w then prev else Some(w)
  }

  /** The max is some element's weight and no weight exceeds it. */
  lemma {:induction false} MaxWeightSound(cs: seq<Scored>)
    ensures MaxWeight(cs).None? <==> |cs| == 0
    ensures MaxWeight(cs).Some? ==>
      (exists j :: 0 <= j < |cs| && cs[j].weight == MaxWeight(cs).value) &&
      (forall j :: 0 <= j < |cs| ==> cs[j].weight <= MaxWeight(cs).value)
  {
    if |cs| > 0 {
      var init := cs[..|cs| - 1];
      MaxWeightSound(init);
      assert forall j :: 0 <= j < |init| ==> cs[j] == init[j];
    }
  }

  /** `CANDIDATE_TOLERANCE` of ai.py and the `- 4` of dt_model.py. */
  const Tolerance := 4

  /** The plays whose weight is at least m - 4, in order. */
  function WithinTolerance(cs: seq<Scored>, m: int): seq<Play> {
    if |cs| == 0 then []
    else
      var c := cs[|cs| - 1];
      WithinTolerance(cs[..|cs| - 1], m) + (if c.weight >= m - Tolerance then [Play(c.pos, c.key)] else [])
  }

  /** Exactly the plays within tolerance of m are kept, in their order. */
  lemma {:induction false} WithinToleranceSound(cs: seq<Scored>, m: int)
    ensures |WithinTolerance(cs, m)| <= |cs|
    ensures forall p :: p in WithinTolerance(cs, m) <==>
      exists j :: 0 <= j < |cs| && cs[j].pos == p.pos && cs[j].key == p.key && cs[j].weight >= m - Tolerance
  {
    if |cs| > 0 {
      var init := cs[..|cs| - 1];
      WithinToleranceSound(init, m);
      assert forall j :: 0 <= j < |init| ==> cs[j] == init[j];
    }
  }

  /** Measured against the max, a best play is kept, so the list is never
      empty when there is a play. */
  lemma ToleranceKeepsBest(cs: seq<Scored>)
    requires |cs| > 0
    ensures MaxWeight(cs).Some?
    ensures |WithinTolerance(cs, MaxWeight(cs).value)| > 0
    ensures forall p :: p in WithinTolerance(cs, MaxWeight(cs).value) ==>
      exists j :: 0 <= j < |cs| && cs[j].pos == p.pos && cs[j].key == p.key && cs[j].weight >= MaxWeight(cs).value - Tolerance
  {
    MaxWeightSound(cs);
    var m := MaxWeight(cs).value;
    WithinToleranceSound(cs, m);
    var j :| 0 <= j < |cs| && cs[j].weight == m;
    assert Play(cs[j].pos, cs[j].key) in WithinTolerance(cs, m);
  }

  /** There is a best play b among ps, and cs holds exactly the plays whose
      weight is within tolerance of b's. */
  ghost predicate NearBest(w: Table, ps: seq<Play>, cs: seq<Play>) {
    (forall j :: 0 <= j < |ps| ==> ps[j].key in w) &&
    exists b :: 0 <= b < |ps| &&
      (forall j :: 0 <= j < |ps| ==> w[ps[j].key] <= w[ps[b].key]) &&
      (forall c :: c in cs ==> exists j :: 0 <= j < |ps| && c == ps[j] && w[ps[j].key] >= w[ps[b].key] - Tolerance) &&
      (forall j :: 0 <= j < |ps| && w[ps[j].key] >= w[ps[b].key] - Tolerance ==> ps[j] in cs)
  }

  /** The plays within tolerance of the best weight, or None where there is
      no play and Python's max() raises. */
  function Tolerant(w: Table, ps: seq<Play>): Option<seq<Play>> {
    var cs := Weigh(w, ps);
    var m := MaxWeight(cs);
    if m.None? then None else Some(WithinTolerance(cs, m.value))
  }

  /** With every key known, the tolerant choice exists exactly when a play
      does, and then it is non-empty and keeps exactly the plays near a best
      one. */
  lemma TolerantSound(w: Table, ps: seq<Play>)
    requires forall j :: 0 <= j < |ps| ==> ps[j].key in w
    ensures Tolerant(w, ps).None? <==> |ps| == 0
    ensures Tolerant(w, ps).Some? ==> |Tolerant(w, ps).value| > 0 && NearBest(w, ps, Tolerant(w, ps).value)
    ensures Tolerant(w, ps).Some? ==> forall c :: c in Tolerant(w, ps).value ==> exists j :: 0 <= j < |ps| && c == ps[j]
  {
    var cs := Weigh(w, ps);
    MaxWeightSound(cs);
    if |ps| > 0 {
      var m := MaxWeight(cs).value;
      var r := WithinTolerance(cs, m);
      WithinToleranceSound(cs, m);
      var b :| 0 <= b < |cs| && cs[b].weight == m;
      assert forall j :: 0 <= j < |ps| ==> w[ps[j].key] <= w[ps[b].key];
      forall c | c in r ensures exists j :: 0 <= j < |ps| && c == ps[j] && w[ps[j].key] >= w[ps[b].key] - Tolerance {
        var j :| 0 <= j < |cs| && cs[j].pos == c.pos && cs[j].key == c.key && cs[j].weight >= m - Tolerance;
        assert c == ps[j];
      }
      forall j | 0 <= j < |ps| && w[ps[j].key] >= w[ps[b].key] - Tolerance ensures ps[j] in r {
        assert cs[j].weight >= m - Tolerance;
        assert Play(cs[j].pos, cs[j].key) == ps[j];
      }
      assert ps[b] in r;
    }
  }

  /** The candidates of dt_model.py and ai.py for board s: the board after
      each possible play is searched for, then the tolerant choice is made. */
  function TolerantCandidates(t: Table, s: Grid, piece: Piece, start: int, rule: MissRule): Option<seq<Play>> {
    var g := InternPlays(t, s, piece, TicTacToe.PossiblePlays(s), start, rule);
    Tolerant(g.0, g.1)
  }

  /** Each tolerant choice among plays found for the positions is one of the
      positions. */
  lemma TolerantPositions(w: Table, ps: seq<Play>, plays: seq<nat>)
    requires |ps| == |plays|
    requires forall j :: 0 <= j < |ps| ==> ps[j].pos == plays[j] && ps[j].key in w
    ensures Tolerant(w, ps).Some? ==> forall c :: c in Tolerant(w, ps).value ==> c.pos in plays
  {
    TolerantSound(w, ps);
  }

  /** The random candidate is one of the positions and its key is known. */
  lemma TolerantPick(w: Table, ps: seq<Play>, plays: seq<nat>, pick: nat)
    requires |ps| == |plays|
    requires forall j :: 0 <= j < |ps| ==> ps[j].pos == plays[j] && ps[j].key in w
    ensures Tolerant(w, ps).None? <==> |plays| == 0
    ensures Tolerant(w, ps).Some? ==>
      |Tolerant(w, ps).value| > 0 &&
      Tolerant(w, ps).value[RandIndex(|Tolerant(w, ps).value|, pick)].pos in plays &&
      Tolerant(w, ps).value[RandIndex(|Tolerant(w, ps).value|, pick)].key in w
  {
    TolerantSound(w, ps);
    TolerantPositions(w, ps, plays);
    if Tolerant(w, ps).Some? {
      var c := Tolerant(w, ps).value[RandIndex(|Tolerant(w, ps).value|, pick)];
      assert c in Tolerant(w, ps).value;
    }
  }

  /** The candidates exist exactly when a play does; then they are non-empty,
      possible plays, and exactly the plays within tolerance of a best one. */
  lemma TolerantCandidatesSound(t: Table, s: Grid, piece: Piece, start: int, rule: MissRule)
    ensures TolerantCandidates(t, s, piece, start, rule).None? <==> |TicTacToe.PossiblePlays(s)| == 0
    ensures TolerantCandidates(t, s, piece, start, rule).Some? ==>
      |TolerantCandidates(t, s, piece, start, rule).value| > 0 &&
      (forall c :: c in TolerantCandidates(t, s, piece, start, rule).value ==> c.pos in TicTacToe.PossiblePlays(s)) &&
      NearBest(InternPlays(t, s, piece, TicTacToe.PossiblePlays(s), start, rule).0,
               InternPlays(t, s, piece, TicTacToe.PossiblePlays(s), start, rule).1,
               TolerantCandidates(t, s, piece, start, rule).value)
  {
    var plays := TicTacToe.PossiblePlays(s);
    var g := InternPlays(t, s, piece, plays, start, rule);
    InternPlaysKeys(t, s, piece, plays, start, rule);
    TolerantSound(g.0, g.1);
    TolerantPositions(g.0, g.1, plays);
  }

  /** `random.randint(0, n - 1)`, driven by a caller-supplied number. */
  function RandIndex(n: nat, pick: nat): (i: nat)
    requires n > 0
    ensures i < n
  {
    pick % n
  }

  /** Every index can come out. */
  lemma RandIndexReaches(n: nat, i: nat)
    requires i < n
    ensures RandIndex(n, i) == i
  {
  }

  // ---------------------------------------------------------------------
  // Rewards
  // ---------------------------------------------------------------------

  /** Occurrences of key k in the choices of a game. */
  function Count(cs: seq<nat>, k: nat): nat {
    if |cs| == 0 then 0 else Count(cs[..|cs| - 1], k) + (if cs[|cs| - 1] == k then 1 else 0)
  }

  /** `for choice in current_choices: choices[choice] += delta`. A key missing
      from the table would raise KeyError; the learners only record keys of
      their table, and here such a key changes nothing. */
  function AddAll(t: Table, cs: seq<nat>, delta: int): Table {
    if |cs| == 0 then t
    else
      var prev := AddAll(t, cs[..|cs| - 1], delta);
      var k := cs[|cs| - 1];
      if k in prev then prev[k := prev[k] + delta] else prev
  }

  /** Each key gains delta once per occurrence; the keys do not change. */
  lemma {:induction false} AddAllExact(t: Table, cs: seq<nat>, delta: int, k: nat)
    ensures AddAll(t, cs, delta).Keys == t.Keys
    ensures k in t ==> AddAll(t, cs, delta)[k] == t[k] + delta * Count(cs, k)
  {
    if |cs| > 0 {
      AddAllExact(t, cs[..|cs| - 1], delta, k);
      AddAllExact(t, cs[..|cs| - 1], delta, cs[|cs| - 1]);
      var c := Count(cs[..|cs| - 1], k);
      if cs[|cs| - 1] == k {
        assert delta * (c + 1) == delta * c + delta;
      }
    }
  }

  /** The reward loop, on the table as a value. */
  method AddEach(t: Table, cs: seq<nat>, delta: int) returns (r: Table)
    ensures r == AddAll(t, cs, delta)
    ensures r.Keys == t.Keys
    ensures forall k :: k in t ==> r[k] == t[k] + delta * Count(cs, k)
  {
    r := t;
    var i := 0;
    while i < |cs|
      invariant i <= |cs|
      invariant r == AddAll(t, cs[..i], delta)
    {
      assert cs[..i + 1][..i] == cs[..i];
      var k := cs[i];
      if k in r {
        r := r[k := r[k] + delta];
      }
      i := i + 1;
    }
    assert cs[..i] == cs;
    AddAllExact(t, cs, delta, 0);
    forall k | k in t ensures r[k] == t[k] + delta * Count(cs, k) {
      AddAllExact(t, cs, delta, k);
    }
  }

  /** Every recorded key names a table entry. */
  predicate KeysKnown(t: Table, cs: seq<nat>) {
    forall i :: 0 <= i < |cs| ==> cs[i] in t
  }
}
