// DeciTreeAi of src/deci_tree_ai.cpp: a table from board hashes to seven
// column weights, a per-game list of the (key, column) choices made, and
// saturating rewards applied to those choices at the end of a game.

module DeciTree {
  import opened Bits
  import opened Wrappers
  import opened BoardTypes
  import opened BoardSpec
  import opened ConnectFour

  /** weight_min and weight_max: the int16_t range. */
  const WeightMin: int := -0x8000
  const WeightMax: int := 0x7FFF
  /** The range of a Weight (int) argument. */
  const IntMin: int := -0x8000_0000
  const IntMax: int := 0x7FFF_FFFF
  /** RAND_MAX of the C library: std::rand() lies in [0, RandMax]. */
  const RandMax: nat := 0x7FFF_FFFF

  /** One recorded move: the table key it was looked up under and the column played. */
  datatype Choice = Choice(key: SizeT, col: nat)

  /** ColWeights: seven weights, each within [weight_min, weight_max]. */
  predicate WeightsOk(w: seq<int>) {
    |w| == Width && forall i :: 0 <= i < |w| ==> WeightMin <= w[i] <= WeightMax
  }

  predicate TableOk(t: map<SizeT, seq<int>>) {
    forall k :: k in t ==> WeightsOk(t[k])
  }

  /** Every recorded choice names an entry of the table and a column of it. */
  predicate ChoicesOk(t: map<SizeT, seq<int>>, cs: seq<Choice>) {
    forall i :: 0 <= i < |cs| ==> cs[i].key in t && cs[i].col < Width
  }

  lemma ChoicesAppend(t: map<SizeT, seq<int>>, cs: seq<Choice>, ch: Choice)
    requires ChoicesOk(t, cs) && ch.key in t && ch.col < Width
    ensures ChoicesOk(t, cs + [ch])
  {
  }

  /** ColWeights { 0 }. */
  function Zeros(): (w: seq<int>)
    ensures WeightsOk(w)
    ensures forall i :: 0 <= i < |w| ==> w[i] == 0
  {
    seq(Width, _ => 0)
  }

  // ---------------------------------------------------------------------
  // lookup_choices
  // ---------------------------------------------------------------------

  /** hash() of a board as the size_t it is (it fits in 63 bits). */
  function HashKey(s: seq<Tile>): SizeT
    requires |s| == SlotCount
  {
    HashFields(s, 0);
    HashUpTo(s, Width)
  }

  /** The key lookup_choices returns for a board whose hash() is h and whose
      flipped_hash() is 0. */
  function LookupKey(t: map<SizeT, seq<int>>, h: SizeT): (k: SizeT)
  {
    if h in t then h else if 0 in t then 0 else h
  }

  /** The table after lookup_choices. */
  function LookupTable(t: map<SizeT, seq<int>>, h: SizeT): (t': map<SizeT, seq<int>>)
  {
    if LookupKey(t, h) in t then t else t[h := Zeros()]
  }

  /** The returned key is present afterwards, the table grows by that key at
      most, existing entries keep their weights, a new entry is all zeros,
      and the bounds on weights are kept. */
  lemma LookupSound(t: map<SizeT, seq<int>>, h: SizeT)
    ensures LookupKey(t, h) in LookupTable(t, h)
    ensures LookupTable(t, h).Keys == t.Keys + {LookupKey(t, h)}
    ensures |LookupTable(t, h)| <= |t| + 1
    ensures forall x :: x in t ==> LookupTable(t, h)[x] == t[x]
    ensures LookupKey(t, h) !in t ==> LookupTable(t, h)[LookupKey(t, h)] == Zeros()
    ensures TableOk(t) ==> TableOk(LookupTable(t, h))
  {
    var k, t' := LookupKey(t, h), LookupTable(t, h);
    if k !in t {
      assert t'.Keys == t.Keys + {k};
      assert |t.Keys + {k}| == |t.Keys| + 1;
    }
  }

  /** A board whose hash is present is looked up under its own hash; otherwise
      the flipped key 0 is used when present; only when neither is present is
      an entry added, under the board's hash. */
  lemma LookupCases(t: map<SizeT, seq<int>>, h: SizeT)
    ensures h in t ==> LookupKey(t, h) == h && LookupTable(t, h) == t
    ensures h !in t && 0 in t ==> LookupKey(t, h) == 0 && LookupTable(t, h) == t
    ensures h !in t && 0 !in t ==> LookupKey(t, h) == h && LookupTable(t, h) == t[h := Zeros()]
  {
  }

  /** Because flipped_hash() is always 0 and the empty board hashes to 0, once
      the empty board has been looked up every board that has no entry of its
      own shares entry 0, and the table never grows again for it. */
  lemma {:induction false} EmptyBoardAbsorbs(t: map<SizeT, seq<int>>, h: SizeT)
    ensures var t0 := LookupTable(t, HashKey(EmptySlots()));
      0 in t0 && (h !in t0 ==> LookupKey(t0, h) == 0 && LookupTable(t0, h) == t0)
  {
    EmptyHash();
  }

  // ---------------------------------------------------------------------
  // next_move: the candidate scan
  // ---------------------------------------------------------------------

  /** choice_is_candidate(weight, cand_weight): the weight falls short of
      the candidate weight by at most 2. */
  function IsCandidate(weight: int, candWeight: int): (r: bool)
    ensures r <==> candWeight - weight <= 2
    ensures weight >= candWeight ==> r
  {
    weight + 2 >= candWeight
  }

  /** (cand_weight, candidates[..cand_size]) after the loop of next_move has
      looked at the columns below n. */
  function Scan(w: seq<int>, s: seq<Tile>, n: nat): (r: (int, seq<nat>))
    requires |w| == Width && |s| == SlotCount && n <= Width
    ensures |r.1| <= n && forall i :: 0 <= i < |r.1| ==> r.1[i] < n
  {
    if n == 0 then (WeightMin, [])
    else
      var prev := Scan(w, s, n - 1);
      if !Legal(s, n - 1) then prev
      else
        var reset := if w[n - 1] > prev.0 then (w[n - 1], []) else prev;
        if IsCandidate(w[n - 1], reset.0) then (reset.0, reset.1 + [n - 1]) else reset
  }

  /** The first legal column below n whose weight is b, or n when there is none. */
  function FirstAt(w: seq<int>, s: seq<Tile>, b: int, n: nat): (r: nat)
    requires |w| == Width && |s| == SlotCount && n <= Width
    ensures r <= n
  {
    if n == 0 then 0
    else
      var f := FirstAt(w, s, b, n - 1);
      if f < n - 1 then f
      else if Legal(s, n - 1) && w[n - 1] == b then n - 1
      else n
  }

  /** FirstAt finds a legal column of weight b and none comes before it. */
  lemma {:induction false} FirstAtSound(w: seq<int>, s: seq<Tile>, b: int, n: nat)
    requires |w| == Width && |s| == SlotCount && n <= Width
    ensures FirstAt(w, s, b, n) < n ==> Legal(s, FirstAt(w, s, b, n)) && w[FirstAt(w, s, b, n)] == b
    ensures forall i :: 0 <= i < FirstAt(w, s, b, n) ==> !(Legal(s, i) && w[i] == b)
  {
    if n > 0 {
      FirstAtSound(w, s, b, n - 1);
    }
  }

  /** The legal columns in [lo, n) whose weight is within 2 of b, ascending. */
  function Near(w: seq<int>, s: seq<Tile>, lo: nat, n: nat, b: int): (r: seq<nat>)
    requires |w| == Width && |s| == SlotCount && n <= Width
  {
    if n <= lo then []
    else Near(w, s, lo, n - 1, b) + (if Legal(s, n - 1) && IsCandidate(w[n - 1], b) then [n - 1] else [])
  }

  /** Every member of Near is a legal column of [lo, n) within 2 of b. */
  lemma {:induction false} NearMembers(w: seq<int>, s: seq<Tile>, lo: nat, n: nat, b: int)
    requires |w| == Width && |s| == SlotCount && n <= Width
    ensures forall c :: c in Near(w, s, lo, n, b) ==> lo <= c < n && Legal(s, c) && IsCandidate(w[c], b)
  {
    if n > lo {
      NearMembers(w, s, lo, n - 1, b);
      var prev, r := Near(w, s, lo, n - 1, b), Near(w, s, lo, n, b);
      if Legal(s, n - 1) && IsCandidate(w[n - 1], b) {
        assert r == prev + [n - 1];
      } else {
        assert r == prev;
      }
    }
  }

  /** Every legal column of [lo, n) within 2 of b is in Near. */
  lemma {:induction false} NearComplete(w: seq<int>, s: seq<Tile>, lo: nat, n: nat, b: int, c: nat)
    requires |w| == Width && |s| == SlotCount && n <= Width
    requires lo <= c < n && Legal(s, c) && IsCandidate(w[c], b)
    ensures c in Near(w, s, lo, n, b)
  {
    var prev := Near(w, s, lo, n - 1, b);
    if c < n - 1 {
      NearComplete(w, s, lo, n - 1, b, c);
      assert Near(w, s, lo, n, b)[..|prev|] == prev;
    } else {
      assert Near(w, s, lo, n, b) == prev + [c];
    }
  }

  /** Near lists its columns in ascending order. */
  lemma {:induction false} NearAscending(w: seq<int>, s: seq<Tile>, lo: nat, n: nat, b: int)
    requires |w| == Width && |s| == SlotCount && n <= Width
    ensures Ascending(Near(w, s, lo, n, b))
  {
    if n > lo {
      NearAscending(w, s, lo, n - 1, b);
      NearMembers(w, s, lo, n - 1, b);
      var prev, r := Near(w, s, lo, n - 1, b), Near(w, s, lo, n, b);
      if Legal(s, n - 1) && IsCandidate(w[n - 1], b) {
        assert r == prev + [n - 1];
        forall i, j | 0 <= i < j < |r| ensures r[i] < r[j] {
          if j == |prev| {
            assert r[i] == prev[i] && prev[i] in prev;
          }
        }
      } else {
        assert r == prev;
      }
    }
  }

  predicate Ascending(r: seq<nat>) {
    forall i, j :: 0 <= i < j < |r| ==> r[i] < r[j]
  }

  /** When no legal column below n weighs b, FirstAt finds none. */
  lemma {:induction false} FirstAtNone(w: seq<int>, s: seq<Tile>, b: int, n: nat)
    requires |w| == Width && |s| == SlotCount && n <= Width
    requires forall c :: 0 <= c < n && Legal(s, c) ==> w[c] != b
    ensures FirstAt(w, s, b, n) == n
  {
    if n > 0 {
      FirstAtNone(w, s, b, n - 1);
    }
  }

  /** What the scan computes: cand_weight is the largest legal weight (or
      weight_min when it exceeds them all), and the candidates are exactly the
      legal columns, from the first one carrying that weight onwards, whose
      weight is within 2 of it. Legal columns within 2 of the maximum that
      come before the first maximum are dropped by the reset. */
  lemma {:induction false} ScanExact(w: seq<int>, s: seq<Tile>, n: nat)
    requires WeightsOk(w) && |s| == SlotCount && n <= Width
    ensures WeightMin <= Scan(w, s, n).0
    ensures forall c :: 0 <= c < n && Legal(s, c) ==> w[c] <= Scan(w, s, n).0
    ensures Scan(w, s, n).0 == WeightMin || FirstAt(w, s, Scan(w, s, n).0, n) < n
    ensures Scan(w, s, n).1 == Near(w, s, FirstAt(w, s, Scan(w, s, n).0, n), n, Scan(w, s, n).0)
  {
    if n > 0 {
      ScanExact(w, s, n - 1);
      var c := n - 1;
      var b0 := Scan(w, s, c).0;
      var f0 := FirstAt(w, s, b0, c);
      if Legal(s, c) {
        if w[c] > b0 {
          FirstAtNone(w, s, w[c], c);
          assert FirstAt(w, s, w[c], n) == c;
          assert Near(w, s, c, c, w[c]) == [];
        } else if f0 < c {
          assert FirstAt(w, s, b0, n) == f0;
        } else {
          assert b0 == WeightMin && w[c] == b0;
          assert FirstAt(w, s, b0, n) == c;
          assert Near(w, s, c, c, b0) == [];
        }
      } else if f0 == c {
        assert FirstAt(w, s, b0, n) == n;
      }
    }
  }

  /** The largest weight among the legal columns, as next_move ends up with it. */
  function Best(w: seq<int>, s: seq<Tile>): int
    requires WeightsOk(w) && |s| == SlotCount
  {
    Scan(w, s, Width).0
  }

  /** candidates[..cand_size] at the end of next_move's loop. */
  function Candidates(w: seq<int>, s: seq<Tile>): seq<nat>
    requires WeightsOk(w) && |s| == SlotCount
  {
    Scan(w, s, Width).1
  }

  /** The candidates: there is one exactly when a column is legal; each is a
      legal column whose weight is at least the best legal weight minus 2; the
      first is the first legal column with the best weight, which no legal
      column exceeds; they ascend. */
  lemma CandidatesSound(w: seq<int>, s: seq<Tile>)
    requires WeightsOk(w) && |s| == SlotCount
    ensures |Candidates(w, s)| > 0 <==> !Full(s)
    ensures forall c :: 0 <= c < Width && Legal(s, c) ==> w[c] <= Best(w, s)
    ensures forall c :: c in Candidates(w, s) ==> Legal(s, c) && w[c] >= Best(w, s) - 2
    ensures |Candidates(w, s)| > 0 ==> w[Candidates(w, s)[0]] == Best(w, s)
    ensures |Candidates(w, s)| > 0 ==>
      forall c :: 0 <= c < Candidates(w, s)[0] ==> !(Legal(s, c) && w[c] == Best(w, s))
    ensures Ascending(Candidates(w, s))
  {
    ScanExact(w, s, Width);
    var b := Best(w, s);
    var f := FirstAt(w, s, b, Width);
    NearMembers(w, s, f, Width, b);
    NearAscending(w, s, f, Width, b);
    CandidatesFirst(w, s);
  }

  /** There is a candidate exactly when a column is legal, and the first one
      is the first legal column carrying the best weight. */
  lemma CandidatesFirst(w: seq<int>, s: seq<Tile>)
    requires WeightsOk(w) && |s| == SlotCount
    ensures |Candidates(w, s)| > 0 <==> !Full(s)
    ensures |Candidates(w, s)| > 0 ==> w[Candidates(w, s)[0]] == Best(w, s)
    ensures |Candidates(w, s)| > 0 ==>
      forall c :: 0 <= c < Candidates(w, s)[0] ==> !(Legal(s, c) && w[c] == Best(w, s))
  {
    ScanExact(w, s, Width);
    var b, cs := Best(w, s), Candidates(w, s);
    var f := FirstAt(w, s, b, Width);
    FirstAtSound(w, s, b, Width);
    NearMembers(w, s, f, Width, b);
    NearAscending(w, s, f, Width, b);
    if !Full(s) {
      var c: nat :| c < Width && Cell(s, c, 0) == Empty;
      assert Legal(s, c);
      if b == WeightMin {
        assert w[c] == b;
        assert f <= c;
      }
      assert f < Width;
      NearComplete(w, s, f, Width, b, f);
    }
    if |cs| > 0 {
      assert Legal(s, cs[0]);
      assert f < Width;
    }
  }

  /** The index next_move draws: rand() % (cand_size - 1) for two or more
      candidates, so the last candidate is never drawn, and 0 for one. */
  function PickIndex(n: nat, rand: nat): (i: nat)
    requires n > 0
    ensures i < n
    ensures n > 1 ==> i < n - 1
    ensures n == 1 ==> i == 0
  {
    if n > 1 then rand % (n - 1) else 0
  }

  /** The candidate next_move plays for the value rand of rand(). */
  predicate Drawn(cs: seq<nat>, rand: nat, col: nat) {
    |cs| > 0 && col == cs[PickIndex(|cs|, rand)]
  }

  /** Every index below n - 1 is drawn for some value of rand(). */
  lemma PickIndexReaches(n: nat, i: nat)
    requires 1 < n && i < n - 1
    ensures PickIndex(n, i) == i
  {
  }

  // ---------------------------------------------------------------------
  // reward_punish_current_choices
  // ---------------------------------------------------------------------

  /** The new weight: `val + reward` computed in int64 and saturated at
      weight_min / weight_max. */
  function Clamp(v: int): (r: int)
    ensures WeightMin <= r <= WeightMax
    ensures forall x :: WeightMin <= x <= WeightMax ==> Distance(r, v) <= Distance(x, v)
  {
    if v < WeightMin then WeightMin else if v > WeightMax then WeightMax else v
  }

  function Distance(a: int, b: int): nat {
    if a <= b then b - a else a - b
  }

  /** Saturation keeps an in-range sum and is monotone. */
  lemma ClampLaws(v: int, v': int)
    ensures WeightMin <= v <= WeightMax ==> Clamp(v) == v
    ensures v <= v' ==> Clamp(v) <= Clamp(v')
  {
  }

  /** One iteration of the reward loop: choice ch's weight becomes
      clamp(weight + reward). (A choice missing from the table, which the
      class invariant excludes, would make `at` throw; here it changes nothing.) */
  function RewardOne(t: map<SizeT, seq<int>>, ch: Choice, reward: int): map<SizeT, seq<int>>
  {
    if ch.key in t && ch.col < |t[ch.key]| then
      t[ch.key := t[ch.key][ch.col := Clamp(t[ch.key][ch.col] + reward)]]
    else t
  }

  /** The table after the reward loop has run over cs, in order. */
  function Rewarded(t: map<SizeT, seq<int>>, cs: seq<Choice>, reward: int): map<SizeT, seq<int>>
  {
    if |cs| == 0 then t
    else RewardOne(Rewarded(t, cs[..|cs| - 1], reward), cs[|cs| - 1], reward)
  }

  /** Rewarding keeps the table's keys, and saturation keeps every weight
      within [weight_min, weight_max]. */
  lemma {:induction false} RewardedShape(t: map<SizeT, seq<int>>, cs: seq<Choice>, reward: int)
    requires TableOk(t)
    ensures Rewarded(t, cs, reward).Keys == t.Keys && TableOk(Rewarded(t, cs, reward))
  {
    if |cs| > 0 {
      RewardedShape(t, cs[..|cs| - 1], reward);
      var prev := Rewarded(t, cs[..|cs| - 1], reward);
      var ch := cs[|cs| - 1];
      if ch.key in prev && ch.col < |prev[ch.key]| {
        var t' := RewardOne(prev, ch, reward);
        forall k | k in t' ensures WeightsOk(t'[k]) {
          if k == ch.key {
            assert WeightsOk(prev[k]);
          }
        }
      }
    }
  }

  /** A table with the same keys holds the same choices. */
  lemma SameKeysSameChoices(t: map<SizeT, seq<int>>, t': map<SizeT, seq<int>>, cs: seq<Choice>)
    requires t.Keys == t'.Keys && ChoicesOk(t, cs)
    ensures ChoicesOk(t', cs)
  {
    forall i | 0 <= i < |cs| ensures cs[i].key in t' {
      assert cs[i].key in t.Keys;
    }
  }

  /** The loop's step: rewarding the first i + 1 choices is rewarding the
      first i and then choice i. */
  lemma RewardedStep(t: map<SizeT, seq<int>>, cs: seq<Choice>, i: nat, reward: int)
    requires i < |cs|
    ensures Rewarded(t, cs[..i + 1], reward) == RewardOne(Rewarded(t, cs[..i], reward), cs[i], reward)
  {
    assert cs[..i + 1][..i] == cs[..i];
  }

  /** Occurrences of (key, col) in cs. */
  function Count(cs: seq<Choice>, key: SizeT, col: nat): nat {
    if |cs| == 0 then 0
    else Count(cs[..|cs| - 1], key, col) + (if cs[|cs| - 1] == Choice(key, col) then 1 else 0)
  }

  /** m successive saturating additions of reward to v. */
  function ClampIter(v: int, reward: int, m: nat): int {
    if m == 0 then v else Clamp(ClampIter(v, reward, m - 1) + reward)
  }

  /** Each weight is rewarded once per occurrence of its (key, col) among the
      choices; weights that were not chosen keep their value. */
  lemma {:induction false} RewardedPerOccurrence(t: map<SizeT, seq<int>>, cs: seq<Choice>, reward: int, key: SizeT, col: nat)
    requires TableOk(t) && ChoicesOk(t, cs) && key in t && col < Width
    ensures var t' := Rewarded(t, cs, reward);
      key in t' && col < |t'[key]| && t'[key][col] == ClampIter(t[key][col], reward, Count(cs, key, col))
  {
    RewardedShape(t, cs, reward);
    if |cs| > 0 {
      var init, last := cs[..|cs| - 1], cs[|cs| - 1];
      assert ChoicesOk(t, init);
      RewardedPerOccurrence(t, init, reward, key, col);
      RewardedShape(t, init, reward);
      var prev := Rewarded(t, init, reward);
      assert last.key in t;
      RewardOneAt(prev, last, reward, key, col);
    }
  }

  /** One step of the loop changes weight (key, col) only when it is the
      choice being rewarded. */
  lemma RewardOneAt(t: map<SizeT, seq<int>>, ch: Choice, reward: int, key: SizeT, col: nat)
    requires TableOk(t) && ch.key in t && ch.col < Width && key in t && col < Width
    ensures RewardOne(t, ch, reward)[key][col] ==
      if ch == Choice(key, col) then Clamp(t[key][col] + reward) else t[key][col]
  {
  }

  /** In closed form: a non-negative reward adds m * reward up to weight_max,
      a non-positive one down to weight_min. */
  lemma {:induction false} ClampIterClosed(v: int, reward: int, m: nat)
    requires WeightMin <= v <= WeightMax
    ensures reward >= 0 ==> ClampIter(v, reward, m) == Min(v + m * reward, WeightMax)
    ensures reward <= 0 ==> ClampIter(v, reward, m) == Max(v + m * reward, WeightMin)
  {
    if m > 0 {
      ClampIterClosed(v, reward, m - 1);
      assert v + m * reward == v + (m - 1) * reward + reward;
    }
  }

  function Min(a: int, b: int): int {
    if a <= b then a else b
  }

  function Max(a: int, b: int): int {
    if a >= b then a else b
  }

  /** report_draw's reward: static_cast<Weight>(rand()) % 5 - 2, where rand()
      is non-negative so C's remainder agrees with Dafny's. */
  function DrawReward(rand: nat): (r: int)
    requires rand <= RandMax
    ensures -2 <= r <= 2
  {
    rand % 5 - 2
  }

  /** Each reward in [-2, 2] is drawn for some value of rand(). */
  lemma DrawRewardReaches(x: int)
    requires -2 <= x <= 2
    ensures DrawReward(x + 2) == x
  {
  }

  class DeciTreeAi {
    /** m_choice_weights */
    var weights: map<SizeT, seq<int>>
    /** m_current_choices */
    var choices: seq<Choice>
    /** m_color */
    const color: Color

    ghost predicate Valid()
      reads this
    {
      TableOk(weights) && ChoicesOk(weights, choices)
    }

    /** DeciTreeAi(Tile color): Blue plays Blue, every other tile Red; the
        table and the choice list start empty. */
    constructor (t: Tile)
      ensures Valid()
      ensures color == (if t == Tile.Blue then Color.Blue else Color.Red)
      ensures weights == map[] && choices == []
    {
      color := if t == Tile.Blue then Color.Blue else Color.Red;
      weights := map[];
      choices := [];
    }

    /** lookup_choices(board): the key to use and its weights, adding an
        all-zero entry under hash() when neither hash() nor flipped_hash()
        is in the table. */
    method LookupChoices(board: Board) returns (key: SizeT, w: seq<int>)
      modifies this
      requires Valid() && board.Valid()
      ensures Valid() && choices == old(choices)
      ensures key == LookupKey(old(weights), HashKey(board.cells))
      ensures weights == LookupTable(old(weights), HashKey(board.cells))
      ensures key in weights && w == weights[key]
    {
      var hash := board.Hash();
      LookupSound(weights, hash);
      if hash in weights {
        return hash, weights[hash];
      }
      var flipped := board.FlippedHash();
      if flipped in weights {
        return flipped, weights[flipped];
      }
      weights := weights[hash := Zeros()];
      key, w := hash, weights[hash];
    }

    /** next_move(board): looks the board up, scans the legal columns for
        candidates and records the drawn one. None models the exit taken when
        there is no candidate, which happens exactly on a full board. */
    method NextMove(board: Board, rand: nat) returns (r: Option<nat>)
      modifies this
      requires Valid() && board.Valid() && rand <= RandMax
      ensures Valid()
      ensures weights == LookupTable(old(weights), HashKey(board.cells))
      ensures r.None? <==> Full(board.cells)
      ensures r.None? ==> choices == old(choices)
      ensures r.Some? ==>
        Legal(board.cells, r.value) &&
        Drawn(Candidates(weights[LookupKey(old(weights), HashKey(board.cells))], board.cells), rand, r.value) &&
        choices == old(choices) + [Choice(LookupKey(old(weights), HashKey(board.cells)), r.value)]
    {
      var key, w := LookupChoices(board);
      var candidates, candSize := CollectCandidates(board, w);
      CandidatesSound(w, board.cells);
      if candSize == 0 {
        return None;
      }
      var candIdx := if candSize > 1 then rand % (candSize - 1) else 0;
      var chosen := candidates[candIdx];
      assert Drawn(Candidates(w, board.cells), rand, chosen) && chosen in Candidates(w, board.cells);
      ChoicesAppend(weights, choices, Choice(key, chosen));
      choices := choices + [Choice(key, chosen)];
      r := Some(chosen);
    }

    /** The loop of next_move: for each legal column, a weight above
        cand_weight resets the candidates, and a weight within 2 of
        cand_weight joins them. */
    static method CollectCandidates(board: Board, w: seq<int>) returns (candidates: array<nat>, candSize: nat)
      requires board.Valid() && WeightsOk(w)
      ensures candidates.Length == Width && candSize <= Width
      ensures candidates[..candSize] == Candidates(w, board.cells)
    {
      var moves := board.PossibleMovesMask();
      var candWeight := WeightMin;
      candidates := new nat[Width];
      candSize := 0;
      var col: nat := 0;
      while col < Width
        invariant col <= Width && candSize <= col
        invariant (candWeight, candidates[..candSize]) == Scan(w, board.cells, col)
      {
        if moves.At(col) {
          var weight := w[col];
          if weight > candWeight {
            candWeight := weight;
            candSize := 0;
          }
          if IsCandidate(weight, candWeight) {
            ghost var before := candidates[..candSize];
            candidates[candSize] := col;
            candSize := candSize + 1;
            assert candidates[..candSize] == before + [col];
          }
        }
        col := col + 1;
      }
    }

    /** new_game(): forgets the choices of the last game. */
    method NewGame()
      modifies this
      requires Valid()
      ensures Valid() && choices == [] && weights == old(weights)
    {
      choices := [];
    }

    /** reward_punish_current_choices(reward): each recorded choice's weight,
        in order, becomes clamp(weight + reward). */
    method RewardPunish(reward: int)
      modifies this
      requires Valid() && IntMin <= reward <= IntMax
      ensures Valid() && choices == old(choices)
      ensures weights == Rewarded(old(weights), choices, reward)
    {
      ghost var t := weights;
      var cs := choices;
      var i: nat := 0;
      while i < |cs|
        invariant i <= |cs| && choices == cs
        invariant weights == Rewarded(t, cs[..i], reward)
      {
        RewardedStep(t, cs, i, reward);
        RewardedShape(t, cs[..i], reward);
        assert cs[i].key in t;
        RewardChoice(cs[i], reward);
        i := i + 1;
      }
      assert cs[..i] == cs;
      RewardedShape(t, cs, reward);
      SameKeysSameChoices(t, weights, cs);
    }

    /** One turn of reward_punish_current_choices' loop: the weight of choice
        ch becomes weight + reward, saturated at weight_min and weight_max. */
    method RewardChoice(ch: Choice, reward: int)
      modifies this
      requires TableOk(weights) && ch.key in weights && ch.col < Width && IntMin <= reward <= IntMax
      ensures choices == old(choices)
      ensures weights == RewardOne(old(weights), ch, reward)
    {
      var weight := weights[ch.key][ch.col];
      var val: int := weight;
      var updated: int;
      if val + reward < WeightMin {
        updated := WeightMin;
      } else if val + reward > WeightMax {
        updated := WeightMax;
      } else {
        updated := weight + reward;
      }
      weights := weights[ch.key := weights[ch.key][ch.col := updated]];
    }

    /** report_win(): every choice of the game gains 2. */
    method ReportWin()
      modifies this
      requires Valid()
      ensures Valid() && choices == old(choices)
      ensures weights == Rewarded(old(weights), choices, 2)
    {
      RewardPunish(2);
    }

    /** report_loss(): every choice of the game loses 2. */
    method ReportLoss()
      modifies this
      requires Valid()
      ensures Valid() && choices == old(choices)
      ensures weights == Rewarded(old(weights), choices, -2)
    {
      RewardPunish(-2);
    }

    /** report_draw(): every choice of the game gets the same reward in [-2, 2]
        drawn from rand(). */
    method ReportDraw(rand: nat)
      modifies this
      requires Valid() && rand <= RandMax
      ensures Valid() && choices == old(choices)
      ensures weights == Rewarded(old(weights), choices, DrawReward(rand))
    {
      RewardPunish(rand % 5 - 2);
    }
  }
}
