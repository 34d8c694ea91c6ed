# Game engines of a Connect Four and tic-tac-toe playground

This project models the playing and learning cores of a small game-AI
repository and proves properties of that model in Dafny.

**Connect Four.** The C++ engine under `src/` has these parts:

- **The board.** It is a 128-bit integer `m_val` in which slot `col * 6 + row`
  holds a 2-bit tile (Empty = 0, Red = 1, Blue = 2). `ConnectFour.Board`
  keeps the 64 two-bit slots as a sequence, and `BoardSpec.Packed` is the
  integer they stand for.
- **Moving.** `insert` drops a token into the lowest empty row of a column.
  `possible_moves` sets bit `x` for each column whose top cell is empty.
  `is_draw` checks that every top cell is taken.
- **Scoring a position.** `game_state` scans four window patterns over every
  origin. `win_possibilities_at_pos` counts open windows. `hash` packs each
  column's Red rows and height into nine bits.
- **Two players.** A fixed-depth minimax searcher (`src/minimax.cpp`) and a
  table-driven learner (`src/deci_tree_ai.cpp`). The learner keeps seven
  saturating weights per board hash and rewards or punishes the moves of a
  finished game.

**Tic-tac-toe (MENACE).** The Python engine under `tic-tac-toe-menace/` has
these parts:

- **Boards.** Three board classes encode a board as an integer: position `i`
  is the 2-bit field at bit `2i` (these are `board.py`, `raw_board.py` and
  the `Board` of `main.py`). `TicTacToe.Encode` is that integer. Rotation and
  mirroring are index tables.
- **Learners.** Each learner keeps a weight per canonical board key.
  - The symmetry search tries up to four rotations and then a flip, twice,
    and stops at the first board already in the table.
  - On a miss it inserts a key with the starting weight.
  - A move is drawn among the plays whose weight is near the best.
  - The learners are `AiPlayer` in `main.py`, and `DTModel` in `ai.py` and
    in `dt_model.py`.

Each behaviour is written once as a function on values (`BoardSpec`,
`TicTacToe`, `MenaceLearning`, the `*Spec` functions of `MinimaxAi`). The
classes run the source's loops and mutate their fields as the source does,
and each method is proved to compute its specification function. The
properties the source promises are then proved as lemmas about those
functions.

Behaviours of the code that the model keeps as written:

- `game_state` reads cell `(x, y)` of a window at slot `x * 6 + y`, with no
  check that `y` stays below the height. A vertical window that starts at
  row 4 or 5 runs on into the bottom rows of the next column. Red at (0,4),
  (0,5), (1,0) and (1,1) is reported as `RedWon`, though no four are in a
  line (`BoardSpec.ColumnWrapWins`).
- `flipped_hash()` loops from `width` to `width`, so it always returns 0.
  The learner's second lookup is therefore always key 0, which is also the
  empty board's hash (`DeciTree.EmptyBoardAbsorbs`).
- In `win_possibilities_at_pos`, the iterations `i = 0, 1, 2` start at
  `j = i - 3`. In `size_t` that value wraps past `i`, so their inner loop
  never runs and each counts as winnable. Only `i = 3` looks at cells, so
  every on-board position scores between 12 and 16
  (`BoardSpec.WinPossibilitiesBounds`).
- `next_move` draws `rand() % (cand_size - 1)`, so the last of several
  candidates is never chosen (`DeciTree.PickIndex`). The candidate reset on
  a new maximum also drops earlier columns that were within 2 of it
  (`DeciTree.ScanExact`).
- `main.py`'s `make_play` uses the weight 0 both as a real weight and as
  "no candidate yet". Its `elif` keeps only equal weights, not weights
  within 4 (`MenaceLearning.ZeroScan`, `MenaceLearning.ZeroWeightIsForgotten`).
- On a miss, `dt_model.py`'s `pruned_choice` inserts its loop variable. That
  is the key of the last board it looked at (the mirror image turned three
  times), not the board's own key (`MenaceLearning.InternKey` with `LastSeenKey`).
- `src/deci_tree_ai.hpp` declares an older interface: one weight per key, a
  `lookup_choice` and a `report_move`. The model follows `deci_tree_ai.cpp`,
  which indexes a per-key container of column weights (`ColWeights { 0 }`,
  `weights->at(col)`). It takes `Weight` as the header's `int`.

The `Bits` module models `size_t` `>>`, `<<`, `|` and `& 1` on natural
numbers (`Shr`, `Shl`, `Or`, `Bit`), with powers of two and four. It serves
the board modules and has no rows of its own.

Randomness comes in as parameters:

- `rand` stands for `std::rand()`, which lies in `[0, RAND_MAX]`, with
  `RAND_MAX` taken as `2^31 - 1`.
- `pick` stands for `random.randint`: `RandIndex(n, pick)` is
  `pick % n`, and any index can be reached.

## Model

| member | source | states |
|---|---|---|
| BoardTypes.TileCode | src/tile.hpp:8-15 | a tile's 2-bit code is below 3 and is 0 exactly for Empty |
| BoardTypes.Opposite | src/board.hpp:55-64 | color_opposite never returns its argument |
| BoardTypes.OppositeInvolution | src/board.hpp:55-64 | color_opposite applied twice gives the colour back |
| BoardTypes.ToTile | src/board.hpp:66-75 | color_to_tile never yields Empty |
| BoardTypes.FromTile | src/board.hpp:77-88 | color_from_tile is defined on the two coloured tiles and inverts color_to_tile |
| BoardTypes.TileRoundTrip | src/board.hpp:66-88 | color_from_tile(color_to_tile(c)) == c, and vice versa on coloured tiles |
| BoardTypes.WinState | src/board.hpp:90-93 | color_win_state gives RedWon exactly for Red and BlueWon otherwise: always a won state |
| BoardTypes.LoseState | src/board.hpp:95-98 | color_lose_state gives BlueWon exactly for Red and RedWon otherwise: always a won state |
| BoardTypes.WinLoseStates | src/board.hpp:90-98 | a colour's win state is the opposite colour's loss state, and differs from its own loss state |
| BoardTypes.Plus | src/board.hpp:21-24 | Pos::operator+ gives each component's plain sum whenever that sum stays below 2^64 |
| BoardTypes.PossibleMoves.At | src/board.hpp:34-37 | the contract is the definition of at(i) for i < 64: bit i of the raw mask; its meaning, column i being legal, is proved by BoardSpec.PossibleMovesExact and ConnectFour.Board.PossibleMovesMask |
| BoardTypes.Offset | src/board.hpp:134-137 | offset(pos) = col * 6 + row is below 42 for an on-board position |
| BoardTypes.OffsetDecodes | src/board.hpp:134-137 | an on-board offset decodes back to its column (offset / 6) and row (offset % 6) |
| BoardSpec.EmptySlots | src/board.hpp:139 | the board Board() creates is well formed and all its slots are Empty |
| BoardSpec.PackedBound | src/board.hpp:139 | n slots of 2 bits fit below 4^n |
| BoardSpec.PackedField | src/board.hpp:123-126 | m_val splits at slot o into the slots below, the 2-bit field of slot o and the slots above |
| BoardSpec.SlotOfPacked | src/board.hpp:123-126 | tile(pos) = m_val >> offset * 2 & 0b11 reads exactly the tile in that slot |
| BoardSpec.PackedSet | src/board.hpp:128-132 | OR-ing a tile code into an Empty field adds code * 4^offset to m_val |
| BoardSpec.PackedEmpty | src/board.hpp:139 | a board of Empty slots packs to m_val == 0 |
| BoardSpec.MovesMaskBit | src/board.cpp:8-16 | the mask built after n columns is below 2^n, and bit i is set iff i < n and column i's top cell is Empty |
| BoardSpec.MovesMaskStep | src/board.cpp:11-14 | one loop turn ORs in 1 << x exactly when column x's top cell is Empty, and the mask stays in 64 bits |
| BoardSpec.PossibleMovesExact | src/board.cpp:8-16 | PossibleMoves::at(x) of possible_moves() holds iff x < 7 and column x's top cell is Empty |
| BoardSpec.LandingFrom | src/board.cpp:61-66 | the downward scan from row y stops at an Empty row, and every row between it and y is occupied |
| BoardSpec.LandingRow | src/board.cpp:59-69 | insert writes the largest Empty row of the column, below the height |
| BoardSpec.Inserted | src/board.cpp:59-69 | the board after insert still has 64 slots |
| BoardSpec.LegalHasRoom | src/board.cpp:59-69 | a column with an Empty top cell has a row to land in, so insert's unreachable is not reached |
| BoardSpec.InsertedExact | src/board.cpp:59-69 | insert changes exactly the landing cell, to the given tile, and keeps the board well formed |
| BoardSpec.Filled | src/board.cpp:181-188 | col_height counts the non-empty rows, at most the rows looked at |
| BoardSpec.FilledOfEmptyTop | src/board.cpp:181-188 | rows that are all Empty count 0 |
| BoardSpec.FilledOfFullBottom | src/board.cpp:181-188 | a column Empty above row e and full from e down has n - e tokens among its first n rows |
| BoardSpec.LandingUnderGravity | src/board.cpp:59-69 | under gravity the next token of a column with k tokens lands in row 5 - k |
| BoardSpec.RoomIffLegal | src/board.cpp:8-16 | under gravity a column has an Empty row iff its top cell is Empty |
| BoardSpec.FilledSame | src/board.cpp:181-188 | columns agreeing on their first n rows agree on their count |
| BoardSpec.FilledGrows | src/board.cpp:181-188 | filling one previously Empty row adds one to the count |
| BoardSpec.InsertKeepsGravity | src/board.cpp:59-69 | inserting a coloured token keeps gravity, makes that column one taller and leaves the other columns' heights alone |
| BoardSpec.MovesMaskZero | src/board.cpp:8-16 | with every top cell taken, the mask is 0 |
| BoardSpec.FullIffNoMoves | src/board.cpp:71-80 | is_draw() holds iff possible_moves() has no bit set |
| BoardSpec.PatternsOffset | src/board.cpp:82-107 | a make_patterns step (dc, dr) moves dc * 6 + dr slots along m_val, with dc and dr at most 3 |
| BoardSpec.WindowSlot | src/board.cpp:113-130 | every slot the game_state scan reads is on the 64-slot board |
| BoardSpec.WindowIndex | src/board.cpp:113-115 | scan position pattern * 42 + x * 6 + y decodes back to pattern and origin |
| BoardSpec.MatchesNext | src/board.cpp:123-130 | matching t + 1 tiles means matching t tiles and tile t equals the first |
| BoardSpec.MatchesStop | src/board.cpp:126-129 | a differing tile (the break) rules out every longer match |
| BoardSpec.WindowScan | src/board.cpp:116-135 | a winning window makes the scan return its first tile; otherwise the scan moves on to the next window |
| BoardSpec.WindowWinsMatches | src/board.cpp:116-132 | a window wins iff its first tile is non-empty and all four tiles equal it |
| BoardSpec.ScanSound | src/board.cpp:109-141 | a win the scan reports is the first tile of some winning window at or after the start |
| BoardSpec.ScanComplete | src/board.cpp:109-141 | any winning window at or after the start makes the scan report a coloured winner |
| BoardSpec.StateWinIff | src/board.cpp:109-141 | game_state reports a win iff some window wins, with that window's colour; it reports Draw iff the board is full and no window wins |
| BoardSpec.ColumnWrapWins | src/board.cpp:109-141 | a window that runs past row 5 reads the bottom of the next column, so Red at (0,4), (0,5), (1,0), (1,1) is reported as RedWon though no four are in a line |
| BoardSpec.RedMaskBit | src/board.cpp:184-195 | the row mask after n rows is below 2^n, and bit r is set iff row r < n holds Red |
| BoardSpec.ColHashStep | src/board.cpp:185-193 | one row turn ORs in 1 << row exactly for a Red token, and the mask stays below 64 |
| BoardSpec.FilledNext | src/board.cpp:186-188 | one more row adds 1 to col_height exactly when it is not Empty |
| BoardSpec.ColHashFinal | src/board.cpp:196-197 | OR-ing col_height << 6 into the row mask gives col_hash, which fits in 9 bits |
| BoardSpec.ColHashLayout | src/board.cpp:179-198 | col_hash(c) is below 512, bit r < 6 is set iff row r holds Red, and bits 6 and up hold the column's token count |
| BoardSpec.ColumnLayoutUnique | src/board.cpp:179-198 | only one value has that layout, so col_hash is determined by the column's Red rows and height |
| BoardSpec.ColHashBound | src/board.cpp:179-198 | col_hash(c) < 512 |
| BoardSpec.StackFields | src/board.cpp:160-163 | a 9-bit value put above m fields becomes field m and leaves the lower fields alone |
| BoardSpec.HashUpToFields | src/board.cpp:155-165 | after n columns the hash is below 2^(9n), field c holds col_hash(c) for c < n and 0 above |
| BoardSpec.HashStep | src/board.cpp:160-163 | one loop turn ORs col_hash(col) << 9 * col onto the value built so far, without overlap and within 64 bits |
| BoardSpec.HashFields | src/board.cpp:155-165 | hash() < 2^63, and (hash() >> 9c) & 511 == col_hash(c) for each of the seven columns |
| BoardSpec.HashDeterminesColumns | src/board.cpp:155-198 | boards with equal hash() have the same height and the same Red rows in every column |
| BoardSpec.EmptyColHash | src/board.cpp:179-198 | every column of the empty board hashes to 0 |
| BoardSpec.ZeroHashUpTo | src/board.cpp:155-165 | all-zero column hashes give hash 0 |
| BoardSpec.EmptyHash | src/board.cpp:155-165 | the empty board's hash() is 0 |
| BoardSpec.RedTokenHashNonZero | src/board.cpp:155-177 | a board holding a Red token has a non-zero hash(), so the constant 0 of flipped_hash() never equals the hash of such a board's mirror image |
| BoardSpec.WrapAddValue | src/board.cpp:38-39 | adding j steps of size_t -1 to a small value is a - j, or a - j + 2^64 once it goes below 0 |
| BoardSpec.WindowOffsetValue | src/board.cpp:37-45 | the offset of cell j in direction d is col * 6 + row + step * j with steps 5, 6, 1, 7, always a slot below 63 |
| BoardSpec.StepProducts | src/board.cpp:24-29 | the four directions (1, -1), (1, 0), (0, 1), (1, 1) as size_t pairs, multiplied by j |
| BoardSpec.WindowOpenCells | src/board.cpp:37-48 | a window is open for a colour iff none of its four cells holds the other colour |
| BoardSpec.ScoreUpToBounds | src/board.cpp:33-54 | each direction adds 3 or 4, so n directions score between 3n and 4n |
| BoardSpec.WinPossibilitiesBounds | src/board.cpp:18-57 | win_possibilities_at_pos is 0 off the board and between 12 and 16 on it |
| ConnectFour.Board.constructor | src/board.hpp:139 | Board() is all Empty, with m_val == 0 |
| ConnectFour.Board.Copy | src/board.hpp:100-140 | the copy a by-value Board parameter makes has the same tiles |
| ConnectFour.Board.TileAt | src/board.hpp:123-126 | tile(pos) is the tile in slot offset(pos) |
| ConnectFour.Board.SetTile | src/board.hpp:128-132 | set_tile on an Empty on-board cell writes that slot only, adding the code to m_val |
| ConnectFour.Board.PossibleMovesMask | src/board.cpp:8-16 | the mask equals MovesMask, and at(x) holds iff x is a legal column |
| ConnectFour.Board.Insert | src/board.cpp:59-69 | insert returns the landing position and the board becomes Inserted(old, col, tile) |
| ConnectFour.Board.IsDraw | src/board.cpp:71-80 | is_draw() iff every top cell is taken |
| ConnectFour.Board.WindowWon | src/board.cpp:116-135 | returns the window's first tile and whether the window wins |
| ConnectFour.Board.AllMatch | src/board.cpp:123-130 | the tile loop answers whether all four tiles equal the first |
| ConnectFour.Board.PatternTile | src/board.cpp:124 | tile({x + tx, y + ty}) reads slot origin + pattern offset, on the board |
| ConnectFour.Board.GameStateOf | src/board.cpp:109-141 | game_state() equals StateOf, whose meaning StateWinIff gives |
| ConnectFour.Board.ScanColumn | src/board.cpp:115-136 | the y loop for one pattern and x returns the first win among its windows, or hands over to the next column |
| ConnectFour.FirstStep | src/board.cpp:117 | Pos{x, y} + tiles[0] lands on the pattern's first slot, on the board |
| ConnectFour.Board.ColHash | src/board.cpp:179-198 | col_hash(col) equals ColHashOf and has the Red-rows-and-height layout |
| ConnectFour.Board.Hash | src/board.cpp:155-165 | hash() equals HashUpTo(7), and each 9-bit field is that column's col_hash |
| ConnectFour.Board.FlippedHash | src/board.cpp:167-177 | the loop from width to width never runs, so flipped_hash() is 0 |
| ConnectFour.Board.CanWin | src/board.cpp:35-48 | iterations i < 3 are winnable without looking; i == 3 is winnable iff the window is open |
| ConnectFour.Board.WinPossibilitiesAtPos | src/board.cpp:18-57 | the result equals WinPossibilities, bounded by WinPossibilitiesBounds |
| MinimaxAi.CellAntisymmetric | src/minimax.cpp:78-82 | a cell's value swaps sign with the colour and lies within +-4 |
| MinimaxAi.RowsAntisymmetric | src/minimax.cpp:77-83 | a column's first n rows sum to a value that swaps sign with the colour, within +-4n |
| MinimaxAi.ColsAntisymmetric | src/minimax.cpp:76-84 | the first n columns sum to a value that swaps sign with the colour, within +-24n |
| MinimaxAi.BoardValueAntisymmetric | src/minimax.cpp:72-87 | value_of_board for the opponent is the negation, and lies within +-168 |
| MinimaxAi.BestIndex | src/minimax.cpp:31-36 | the index max_element / min_element picks lies among the entries |
| MinimaxAi.BestIndexFirstExtremal | src/minimax.cpp:31-36 | no entry beats the pick, and every entry before it is strictly worse (the first extremum wins ties) |
| MinimaxAi.MovesUpToLegal | src/minimax.cpp:21-29 | the moves list holds legal columns only, in increasing order |
| MinimaxAi.MovesUpToComplete | src/minimax.cpp:21-29 | every legal column has an entry |
| MinimaxAi.MovesNonEmpty | src/minimax.cpp:20-36 | a board that is not full yields a non-empty list, so max_element's result can be dereferenced |
| MinimaxAi.MovesUpToScores | src/minimax.cpp:24-28 | each entry's points are after_move's points for the board with the mover's tile in that column |
| MinimaxAi.FindMoveOptimal | src/minimax.cpp:17-39 | find_move returns a legal column with its score; no legal column scores better for the side to move, and every earlier legal column scores strictly worse |
| MinimaxAi.FindMovePick | src/minimax.cpp:31-38 | find_move's choice is the picked entry's column and points, of kind Column |
| MinimaxAi.FindMoveNoneBetter | src/minimax.cpp:31-36 | no legal column beats the pick |
| MinimaxAi.FindMoveFirst | src/minimax.cpp:31-36 | ties go to the lowest column |
| MinimaxAi.EarlierEntryWorse | src/minimax.cpp:31-36 | in a list with increasing columns, an entry whose column is below the pick's scores strictly worse |
| MinimaxAi.FullBoardScoresZero | src/minimax.cpp:44-45 | a full board scores 0, even when the last move made four in a row |
| MinimaxAi.WonBoardScores | src/minimax.cpp:47-55 | a won board that is not full scores +1000 for the searching colour's win and -1000 for its loss |
| MinimaxAi.Minimax.constructor | src/minimax.cpp:11-15 | the searcher plays for the given colour |
| MinimaxAi.Minimax.Choose | src/minimax.cpp:11-15 | choose returns find_move's column for the own colour, a legal column |
| MinimaxAi.Minimax.FindMove | src/minimax.cpp:17-39 | the loop over clones computes FindMoveSpec, the optimum FindMoveOptimal describes |
| MinimaxAi.Minimax.AfterMove | src/minimax.cpp:41-70 | after_move computes AfterMoveSpec: draw first, then win or loss, then the depth-0 value times 8, else one level deeper |
| MinimaxAi.Minimax.ValueOfBoard | src/minimax.cpp:72-87 | the nested loop computes BoardValue, which is antisymmetric and bounded |
| MinimaxAi.Minimax.ValueOfColumn | src/minimax.cpp:77-83 | the row loop adds, for each row of the column, the own colour's win possibilities minus the opponent's |
| DeciTree.Zeros | src/deci_tree_ai.cpp:55 | ColWeights { 0 } is seven zero weights within bounds |
| DeciTree.ChoicesAppend | src/deci_tree_ai.cpp:40 | recording a choice whose key is in the table keeps every recorded choice valid |
| DeciTree.LookupSound | src/deci_tree_ai.cpp:44-57 | the returned key is in the table afterwards; the table grows by that key at most; old entries keep their weights; a new entry is all zeros; weight bounds are kept |
| DeciTree.LookupCases | src/deci_tree_ai.cpp:44-57 | the own hash is used if present, else the flipped key if present, else a zero entry is added under the own hash |
| DeciTree.EmptyBoardAbsorbs | src/deci_tree_ai.cpp:51-53 | once the empty board is in the table, every board without its own entry shares entry 0 and adds nothing |
| DeciTree.IsCandidate | src/deci_tree_ai.cpp:59-63 | choice_is_candidate holds iff the weight is at most 2 below cand_weight, so any weight at or above it qualifies; NearMembers and NearComplete use it to characterise the kept columns |
| DeciTree.Scan | src/deci_tree_ai.cpp:18-31 | after n columns there are at most n candidates, each a column below n |
| DeciTree.FirstAtSound | src/deci_tree_ai.cpp:23-26 | FirstAt finds a legal column of the given weight and none before it |
| DeciTree.NearMembers | src/deci_tree_ai.cpp:27-30 | each kept column is a legal column within 2 of the best weight |
| DeciTree.NearComplete | src/deci_tree_ai.cpp:27-30 | each legal column within 2 of the best weight, from the range's start on, is kept |
| DeciTree.NearAscending | src/deci_tree_ai.cpp:18-31 | the kept columns ascend |
| DeciTree.ScanExact | src/deci_tree_ai.cpp:14-31 | cand_weight is the maximum legal weight (or INT16_MIN); the candidates are the legal columns within 2 of it from its first occurrence on |
| DeciTree.CandidatesSound | src/deci_tree_ai.cpp:14-35 | there is a candidate iff the board is not full; each is legal and within 2 of the best; the first carries the best weight and no earlier legal column does; they ascend |
| DeciTree.CandidatesFirst | src/deci_tree_ai.cpp:23-35 | candidates exist iff a column is legal, and the first is the first legal column with the best weight |
| DeciTree.PickIndex | src/deci_tree_ai.cpp:36-38 | the drawn index is a candidate; with two or more it is never the last one; with one it is 0 |
| DeciTree.PickIndexReaches | src/deci_tree_ai.cpp:36-38 | every index but the last can be drawn |
| DeciTree.Clamp | src/deci_tree_ai.cpp:89-96 | the saturated weight lies in [weight_min, weight_max] and is the in-range value nearest the sum |
| DeciTree.ClampLaws | src/deci_tree_ai.cpp:89-96 | an in-range sum is kept, and saturation is monotone |
| DeciTree.RewardedShape | src/deci_tree_ai.cpp:85-98 | rewarding keeps the table's keys and every weight within bounds |
| DeciTree.SameKeysSameChoices | src/deci_tree_ai.cpp:85-98 | a table with the same keys still holds every recorded choice |
| DeciTree.RewardedStep | src/deci_tree_ai.cpp:87-97 | rewarding i + 1 choices is rewarding i and then choice i |
| DeciTree.RewardedPerOccurrence | src/deci_tree_ai.cpp:85-98 | each weight is saturating-rewarded once per occurrence of its (key, column) among the choices, and unchosen weights keep their value |
| DeciTree.RewardOneAt | src/deci_tree_ai.cpp:88-96 | one turn changes only the chosen weight, to clamp(weight + reward) |
| DeciTree.ClampIterClosed | src/deci_tree_ai.cpp:85-98 | m saturating additions are min(v + m * reward, weight_max) for a non-negative reward and max(v + m * reward, weight_min) for a non-positive one |
| DeciTree.DrawReward | src/deci_tree_ai.cpp:80-83 | rand() % 5 - 2 lies in [-2, 2] |
| DeciTree.DrawRewardReaches | src/deci_tree_ai.cpp:80-83 | every reward in [-2, 2] can be drawn |
| DeciTree.DeciTreeAi.constructor | src/deci_tree_ai.hpp:36-39 | Blue plays Blue and every other tile plays Red; the table and the choice list start empty |
| DeciTree.DeciTreeAi.LookupChoices | src/deci_tree_ai.cpp:44-57 | lookup_choices returns LookupKey's key and its weights, and leaves LookupTable behind |
| DeciTree.DeciTreeAi.NextMove | src/deci_tree_ai.cpp:9-42 | None (the exit) iff the board is full; otherwise a legal candidate drawn by rand(), recorded under the looked-up key |
| DeciTree.DeciTreeAi.CollectCandidates | src/deci_tree_ai.cpp:14-31 | the candidate array's prefix equals Candidates, described by CandidatesSound |
| DeciTree.DeciTreeAi.NewGame | src/deci_tree_ai.cpp:65-68 | forgets the game's choices and keeps the table |
| DeciTree.DeciTreeAi.RewardPunish | src/deci_tree_ai.cpp:85-98 | the table becomes Rewarded(old, choices, reward), and the choices stay |
| DeciTree.DeciTreeAi.RewardChoice | src/deci_tree_ai.cpp:88-96 | one loop turn sets the chosen weight to clamp(weight + reward) |
| DeciTree.DeciTreeAi.ReportWin | src/deci_tree_ai.cpp:70-73 | every choice of the game gains 2, saturated |
| DeciTree.DeciTreeAi.ReportLoss | src/deci_tree_ai.cpp:75-78 | every choice of the game loses 2, saturated |
| DeciTree.DeciTreeAi.ReportDraw | src/deci_tree_ai.cpp:80-83 | every choice of the game gets the same drawn reward in [-2, 2] |
| TicTacToe.EmptyGrid | tic-tac-toe-menace/board.py:28-29 | the cleared board is all EMPTY, with integer 0 |
| TicTacToe.EncodeBound | tic-tac-toe-menace/board.py:8-9 | n 2-bit pieces fit below 4^n |
| TicTacToe.EncodeSplit | tic-tac-toe-menace/board.py:11-12 | the integer splits at position i into the pieces below, field i and the pieces above |
| TicTacToe.FieldOfEncode | tic-tac-toe-menace/board.py:11-12 | (bits >> pos * 2) & 0b11 is the piece at pos |
| TicTacToe.FieldBeyond | tic-tac-toe-menace/board.py:11-12 | past position 8 every field reads EMPTY |
| TicTacToe.FieldAt | tic-tac-toe-menace/board.py:11-12 | the field at pos is the piece there, or EMPTY past 8 |
| TicTacToe.EncodeSet | tic-tac-toe-menace/board.py:20-21 | OR-ing a piece into an EMPTY field adds piece * 4^pos |
| TicTacToe.EncodeEmpty | tic-tac-toe-menace/board.py:28-29 | an all-EMPTY board has integer 0 |
| TicTacToe.EncodeInjective | tic-tac-toe-menace/board.py:45-46 | boards with the same integer are the same board, so hash() is a faithful key |
| TicTacToe.After | tic-tac-toe-menace/board.py:23-26 | with_play puts the piece at pos and changes nothing else |
| TicTacToe.PlaysBelowExact | tic-tac-toe-menace/board.py:14-15 | the plays below n are exactly the EMPTY positions, ascending, one per EMPTY piece |
| TicTacToe.PossiblePlaysExact | tic-tac-toe-menace/board.py:14-15 | possible_plays lists exactly the EMPTY positions, ascending, one per EMPTY piece |
| TicTacToe.FilledIffNoPlays | tic-tac-toe-menace/board.py:48-49 | board_filled() holds iff no play is possible |
| TicTacToe.Gather | tic-tac-toe-menace/board.py:31-43 | the gathered board holds the old piece of indices[pos] at each pos |
| TicTacToe.RotatedDisplay | tic-tac-toe-menace/board.py:31-36 | rotate() turns the board a quarter, moving the top row to the right column |
| TicTacToe.FlippedDisplay | tic-tac-toe-menace/board.py:38-43 | flip() swaps the top and bottom rows |
| TicTacToe.RotateFourTimes | tic-tac-toe-menace/board.py:31-36 | four rotations restore the board |
| TicTacToe.FlipTwice | tic-tac-toe-menace/board.py:38-43 | two flips restore the board |
| TicTacToe.RotatedKeepsPieces | tic-tac-toe-menace/board.py:31-36 | rotating permutes the pieces (same multiset) |
| TicTacToe.FlippedKeepsPieces | tic-tac-toe-menace/board.py:38-43 | flipping permutes the pieces (same multiset) |
| TicTacToe.SymmetriesKeepPlays | tic-tac-toe-menace/board.py:14-43 | rotating or flipping keeps the number of possible plays |
| TicTacToe.RotNFour | tic-tac-toe-menace/ai.py:26-36 | four single rotations are the search's full turn |
| TicTacToe.SymmetryIndex | tic-tac-toe-menace/ai.py:26-36 | round f, turn r of the search looks at the board rotated r times, after f flips |
| TicTacToe.SearchRounds | tic-tac-toe-menace/ai.py:26-36 | after round one the board is the mirror image; after round two, the board itself again |
| TicTacToe.AnyLineFrom | tic-tac-toe-menace/board.py:62-65 | the pattern loop from k on finds a held line iff one exists |
| TicTacToe.WonCases | tic-tac-toe-menace/board.py:51-65 | a win is one of the three rows, three columns or two diagonals being all the piece |
| TicTacToe.WonRotated | tic-tac-toe-menace/board.py:31-65 | rotation keeps who has won |
| TicTacToe.WonFlipped | tic-tac-toe-menace/board.py:38-65 | flipping keeps who has won |
| MenaceBoard.Board.constructor | tic-tac-toe-menace/board.py:8-9 | the new board holds the given pieces, and hash() is their encoding |
| MenaceBoard.Board.Hash | tic-tac-toe-menace/board.py:45-46 | hash() is the bitfield, below 4^9 |
| MenaceBoard.Board.PieceAt | tic-tac-toe-menace/board.py:11-12 | piece_at(pos) is the 2-bit field at 2 * pos |
| MenaceBoard.Board.PossiblePlays | tic-tac-toe-menace/board.py:14-15 | exactly the EMPTY positions, ascending, one per EMPTY piece |
| MenaceBoard.Board.Clone | tic-tac-toe-menace/board.py:17-18 | a fresh board with the same pieces |
| MenaceBoard.Board.PlacePieceAt | tic-tac-toe-menace/board.py:20-21 | on an EMPTY position it sets that piece and adds piece * 4^pos to the bitfield |
| MenaceBoard.Board.WithPlay | tic-tac-toe-menace/board.py:23-26 | a fresh board equal to After(cells, pos, piece) |
| MenaceBoard.Board.Clear | tic-tac-toe-menace/board.py:28-29 | all EMPTY, bitfield 0 |
| MenaceBoard.Board.Rotate | tic-tac-toe-menace/board.py:31-36 | the board becomes Rotated(old) |
| MenaceBoard.Board.Flip | tic-tac-toe-menace/board.py:38-43 | the board becomes Flipped(old) |
| MenaceBoard.Board.Pieces | tic-tac-toe-menace/board.py:33 | the pieces read in index-table order |
| MenaceBoard.Board.Refill | tic-tac-toe-menace/board.py:34-36 | clearing and placing the pieces in order yields exactly those pieces |
| MenaceBoard.Board.BoardFilled | tic-tac-toe-menace/board.py:48-49 | board_filled() iff no play is possible |
| MenaceBoard.Board.PieceHasWon | tic-tac-toe-menace/board.py:51-65 | piece_has_won iff the piece holds a line |
| RawBoard.Board.constructor | tic-tac-toe-menace/raw_board.py:14-15 | the new board holds the given pieces, and its key is their encoding |
| RawBoard.Board.AsKey | tic-tac-toe-menace/raw_board.py:61-62 | as_key() is the board integer, below 4^9 |
| RawBoard.Board.RawPieceAt | tic-tac-toe-menace/raw_board.py:17-18 | raw_piece_at(pos) is the 2-bit field at 2 * pos |
| RawBoard.Board.PossiblePlays | tic-tac-toe-menace/raw_board.py:25-31 | the inlined test lists exactly the EMPTY positions, ascending |
| RawBoard.Board.Clone | tic-tac-toe-menace/raw_board.py:33-34 | a fresh board with the same pieces |
| RawBoard.Board.PlaceRawPieceAt | tic-tac-toe-menace/raw_board.py:36-37 | on an EMPTY position it sets that piece and adds piece * 4^pos |
| RawBoard.Board.WithRawPlay | tic-tac-toe-menace/raw_board.py:39-42 | a fresh board equal to After(cells, pos, piece) |
| RawBoard.Board.Clear | tic-tac-toe-menace/raw_board.py:44-45 | all EMPTY, integer 0 |
| RawBoard.Board.Rotate | tic-tac-toe-menace/raw_board.py:47-52 | the board becomes Rotated(old) |
| RawBoard.Board.Flip | tic-tac-toe-menace/raw_board.py:54-59 | the board becomes Flipped(old) |
| RawBoard.Board.Pieces | tic-tac-toe-menace/raw_board.py:49 | the pieces read in index-table order |
| RawBoard.Board.Refill | tic-tac-toe-menace/raw_board.py:50-52 | clearing and placing the pieces in order yields exactly those pieces |
| RawBoard.Board.PieceHasWon | tic-tac-toe-menace/raw_board.py:64-78 | piece_has_won iff the piece holds a line |
| RawBoard.Board.BoardFilled | tic-tac-toe-menace/raw_board.py:80-81 | board_filled() iff no position is EMPTY |
| MenaceMain.Board.constructor | tic-tac-toe-menace/main.py:33-34 | the new board holds the given pieces, and its key is their encoding |
| MenaceMain.Board.Key | tic-tac-toe-menace/main.py:64-65 | key() is val, below 4^9 |
| MenaceMain.Board.Place | tic-tac-toe-menace/main.py:67-68 | place(i) is the 2-bit field at 2 * i |
| MenaceMain.Board.PossiblePlays | tic-tac-toe-menace/main.py:36-37 | exactly the EMPTY positions, ascending, one per EMPTY piece |
| MenaceMain.Board.Clone | tic-tac-toe-menace/main.py:39-40 | a fresh board with the same pieces |
| MenaceMain.Board.Play | tic-tac-toe-menace/main.py:42-43 | on an EMPTY position it sets that piece and adds ch * 4^i to val |
| MenaceMain.Board.WithPlay | tic-tac-toe-menace/main.py:45-48 | a fresh board equal to After(cells, i, ch) |
| MenaceMain.Board.Rotate | tic-tac-toe-menace/main.py:50-55 | the board becomes Rotated(old) |
| MenaceMain.Board.Flip | tic-tac-toe-menace/main.py:57-62 | the board becomes Flipped(old) |
| MenaceMain.Board.Fields | tic-tac-toe-menace/main.py:52 | the fields read in index-table order |
| MenaceMain.Board.Refill | tic-tac-toe-menace/main.py:53-55 | resetting val and OR-ing the fields in order yields exactly those pieces |
| MenaceMain.Board.PlayerHasWon | tic-tac-toe-menace/main.py:70-79 | player_has_won iff the piece holds a line |
| MenaceMain.Board.IsDraw | tic-tac-toe-menace/main.py:81-82 | is_draw() iff no position is EMPTY |
| MenaceMain.CandidatesSound | tic-tac-toe-menace/main.py:131-145 | make_play has candidates iff a play is possible; each is a possible play whose key is in the new table with the shared weight |
| MenaceMain.AiPlayer.constructor | tic-tac-toe-menace/main.py:103-106 | empty table, no choices, the given piece |
| MenaceMain.AiPlayer.ClearChoices | tic-tac-toe-menace/main.py:108-109 | forgets the game's choices and keeps the table |
| MenaceMain.AiPlayer.RewardWin | tic-tac-toe-menace/main.py:111-113 | every key gains 1 per occurrence among the choices; the keys stay |
| MenaceMain.AiPlayer.PunishLoss | tic-tac-toe-menace/main.py:115-117 | every key loses 1 per occurrence among the choices; the keys stay |
| MenaceMain.AiPlayer.InternedChoice | tic-tac-toe-menace/main.py:119-129 | the board ends as the first known symmetric board, or as itself; its key is then in the table, added with weight 20 on a miss |
| MenaceMain.AiPlayer.SearchRound | tic-tac-toe-menace/main.py:121-125 | one round stops at the first known rotation, or turns the board full circle with none of the four known |
| MenaceMain.AiPlayer.InternPlay | tic-tac-toe-menace/main.py:132-138 | the board after the play, interned; its key and the table are InternKey and InternTable |
| MenaceMain.AiPlayer.MakePlay | tic-tac-toe-menace/main.py:131-148 | None (the raise) iff no play is possible; otherwise it plays a random candidate on the board and records its key |
| MenaceMain.AiPlayer.ScanPlays | tic-tac-toe-menace/main.py:136-143 | the loop computes the candidates of ZeroScan over the interned plays |
| MenaceLearning.FirstSymmetry | tic-tac-toe-menace/ai.py:26-36 | the search result is an index of the eight symmetric boards at or after the start |
| MenaceLearning.FirstSymmetrySound | tic-tac-toe-menace/ai.py:26-36 | the found board's key is known, and no earlier symmetric board's key is |
| MenaceLearning.UnseenNext | tic-tac-toe-menace/ai.py:29-33 | one more unknown key extends the unsuccessful prefix |
| MenaceLearning.SearchHit | tic-tac-toe-menace/ai.py:31-32 | a known key after an unsuccessful prefix is the first hit |
| MenaceLearning.SearchMiss | tic-tac-toe-menace/ai.py:26-36 | eight unknown keys mean the search finds nothing |
| MenaceLearning.SearchEndKey | tic-tac-toe-menace/ai.py:35-36 | for main.py and ai.py the key settled on is that of the board the search leaves behind |
| MenaceLearning.InternSound | tic-tac-toe-menace/dt_model.py:45-55 | after the search its key is in the table; a hit changes nothing; a miss adds exactly that new key with the start weight; the table grows by at most one |
| MenaceLearning.InternPlaysStep | tic-tac-toe-menace/dt_model.py:32-35 | searching one more play extends the pass |
| MenaceLearning.InternPreserves | tic-tac-toe-menace/dt_model.py:45-55 | one search keeps every entry and adds at most one, with the start weight |
| MenaceLearning.PreservesTrans | tic-tac-toe-menace/dt_model.py:32-35 | keeping entries composes over searches |
| MenaceLearning.InternPlaysGrow | tic-tac-toe-menace/dt_model.py:32-35 | a pass keeps old entries, gives new ones the start weight and adds at most one per play |
| MenaceLearning.InternPlaysKeys | tic-tac-toe-menace/dt_model.py:32-36 | each play, in order, gets a key that is in the final table with its final weight |
| MenaceLearning.InternPlaysNext | tic-tac-toe-menace/dt_model.py:32-36 | one more search continues the pass, and the earlier weights stay |
| MenaceLearning.Weigh | tic-tac-toe-menace/dt_model.py:36 | each play is paired with its key's weight, in order |
| MenaceLearning.WeighGrown | tic-tac-toe-menace/dt_model.py:36 | weights of entries that did not change are read alike |
| MenaceLearning.ZeroScanSound | tic-tac-toe-menace/main.py:134-145 | make_play's scan has candidates iff a play was scored, and all of them carry the weight in hand |
| MenaceLearning.ZeroScanNearBest | tic-tac-toe-menace/main.py:139-141 | while no weight is 0, no scored weight exceeds the one in hand by more than 4 |
| MenaceLearning.ZeroWeightIsForgotten | tic-tac-toe-menace/main.py:134-141 | a play of weight 0 is forgotten when a worse one follows, because 0 also means "nothing yet" |
| MenaceLearning.ZeroScanStep | tic-tac-toe-menace/main.py:139-143 | one loop turn: reset on a zero in hand or a weight more than 4 higher, append on an equal weight |
| MenaceLearning.MaxWeightSound | tic-tac-toe-menace/dt_model.py:37 | max() is None (it raises) iff there is no play; otherwise it is some play's weight and no weight exceeds it |
| MenaceLearning.WithinToleranceSound | tic-tac-toe-menace/ai.py:50-68 | exactly the plays with weight at least max - 4 are kept, in order |
| MenaceLearning.ToleranceKeepsBest | tic-tac-toe-menace/ai.py:69-71 | a best play is always kept, so the "unreachable" raise is unreachable |
| MenaceLearning.TolerantSound | tic-tac-toe-menace/dt_model.py:36-40 | the tolerant choice is None iff there is no play; otherwise it is non-empty, drawn from the plays, and holds exactly the plays within 4 of a best one |
| MenaceLearning.TolerantPositions | tic-tac-toe-menace/dt_model.py:38 | every candidate is one of the possible positions |
| MenaceLearning.TolerantPick | tic-tac-toe-menace/dt_model.py:40-41 | the random candidate is a possible position and its key is known |
| MenaceLearning.TolerantCandidatesSound | tic-tac-toe-menace/ai.py:38-71 | candidates exist iff a play does; then they are non-empty possible plays, exactly those within 4 of a best one |
| MenaceLearning.RandIndex | tic-tac-toe-menace/ai.py:79 | randint(0, n - 1) gives an index below n |
| MenaceLearning.RandIndexReaches | tic-tac-toe-menace/ai.py:79 | every index can come out |
| MenaceLearning.AddAllExact | tic-tac-toe-menace/dt_model.py:18-24 | each key gains delta once per occurrence among the choices; the keys stay |
| MenaceLearning.AddEach | tic-tac-toe-menace/dt_model.py:18-20 | the reward loop on the table computes AddAll |
| MenaceAi.DTModel.constructor | tic-tac-toe-menace/ai.py:9-13 | empty table, no choices, the given piece |
| MenaceAi.DTModel.ClearChoices | tic-tac-toe-menace/ai.py:15-16 | forgets the game's choices and keeps the table |
| MenaceAi.DTModel.Reward | tic-tac-toe-menace/ai.py:18-20 | every key gains 1 per occurrence among the choices |
| MenaceAi.DTModel.Punish | tic-tac-toe-menace/ai.py:22-24 | every key loses 1 per occurrence among the choices |
| MenaceAi.DTModel.InternedChoice | tic-tac-toe-menace/ai.py:26-36 | the board ends as the first known symmetric board, or as itself; its key is in the table, added with weight 0 on a miss |
| MenaceAi.DTModel.SearchRound | tic-tac-toe-menace/ai.py:30-34 | one round stops at the first known rotation, or turns the board full circle |
| MenaceAi.DTModel.Look | tic-tac-toe-menace/ai.py:31-33 | one turn: a known key is the first hit; otherwise the board is rotated |
| MenaceAi.DTModel.ChoiceAtPosition | tic-tac-toe-menace/ai.py:58-59 | the key of the interned board after the play, and the grown table |
| MenaceAi.DTModel.ChoicesAtPositions | tic-tac-toe-menace/ai.py:61 | the list comprehension computes InternPlays over the possible plays |
| MenaceAi.DTModel.ViableChoices | tic-tac-toe-menace/ai.py:38-71 | None (max() raising) iff no play is possible; otherwise the non-empty tolerant candidates |
| MenaceAi.DTModel.RandomViableChoice | tic-tac-toe-menace/ai.py:73-79 | a random viable choice: a possible play whose key is in the table |
| MenaceAi.DTModel.MakeChoice | tic-tac-toe-menace/ai.py:81-84 | the chosen candidate's position, with its key recorded |
| DtModel.DrawConsequence | tic-tac-toe-menace/dt_model.py:26-29 | randint(-1, 1) lies in -1 .. 1, and each value can come out |
| DtModel.DTModel.constructor | tic-tac-toe-menace/dt_model.py:9-13 | empty table, no choices, the given piece |
| DtModel.DTModel.ClearChoices | tic-tac-toe-menace/dt_model.py:15-16 | forgets the game's choices and keeps the table |
| DtModel.DTModel.ReportWin | tic-tac-toe-menace/dt_model.py:18-20 | every key gains 4 per occurrence among the choices |
| DtModel.DTModel.ReportLoss | tic-tac-toe-menace/dt_model.py:22-24 | every key loses 4 per occurrence among the choices |
| DtModel.DTModel.ReportDraw | tic-tac-toe-menace/dt_model.py:26-29 | every key moves by one drawn consequence per occurrence |
| DtModel.DTModel.PrunedChoice | tic-tac-toe-menace/dt_model.py:45-55 | returns the first known symmetric key; on a miss it inserts the last key looked at with weight 0 and the board returns to how it was; on a hit the board is left at the symmetric board found |
| DtModel.DTModel.SearchRound | tic-tac-toe-menace/dt_model.py:47-52 | one round stops at the first known rotation, or turns full circle, holding the last hash taken |
| DtModel.DTModel.Look | tic-tac-toe-menace/dt_model.py:49-52 | one turn takes the hash; a known key is the first hit; otherwise the board is rotated |
| DtModel.DTModel.PrunePlay | tic-tac-toe-menace/dt_model.py:32-35 | the key pruned_choice finds for the board after the play, and the grown table |
| DtModel.DTModel.PrunePlays | tic-tac-toe-menace/dt_model.py:32-35 | `choice_hashes` computes InternPlays over the possible plays |
| DtModel.DTModel.MakeChoice | tic-tac-toe-menace/dt_model.py:31-43 | None (max() raising) iff no play is possible; otherwise a random tolerant candidate's position, with its key recorded |
| DtModel.DTModel.Size | tic-tac-toe-menace/dt_model.py:57-58 | the number of entries is the number of keys |

## Left out

- Board printing, `Board::print`, `Board::as_mx1`, `__repr__` and the
  console: output only.
- `save_to_file` / `load_from_file`: file I/O and JSON.
- `main()` of `main.py`, `train`, `train_dt_model`, `game.py` and
  `src/main.cpp`: the training and interactive loops drive the learners
  through I/O. The model covers the operations they call.
- `DtModel.DTModel.Size`: returns the number of entries only, because
  `sys.getsizeof` measures interpreter memory.
- `std::rand()` and `random.randint`: they become caller-supplied numbers
  (`rand`, `pick`). Their distribution is not modelled.
- `std::exit` on a missing candidate and Python's raise from `max()` on an
  empty list: both are modelled as `None`. The model proves when that
  happens (a full board, or no possible play).
- `MenaceAi`: `ai.py` calls `as_key()` on a `board.py` board, which has none.
  The model takes it as `hash()`, the same integer that `raw_board.py`'s
  `as_key()` returns.
- `ConnectFour.Board.WinPossibilitiesAtPos`: the inner `col > width ||
  row > height` guard cannot fire after the earlier return, so it is not
  modelled. `col` and `row` are `uint16_t`, so the model requires them
  below 2^16.
- `DeciTree.DeciTreeAi`: `deci_tree_ai.cpp` uses `weight_min` and
  `weight_max`, but neither `deci_tree_ai.hpp` nor `board.hpp` defines them.
  They are taken as the `int16_t` bounds that `next_move`'s `INT16_MIN`
  start suggests.
- `DeciTree.Zeros`: `deci_tree_ai.cpp` uses `ColWeights`, but neither
  `deci_tree_ai.hpp` nor `board.hpp` defines it. The model takes it as seven `int` weights, one per column, so that
  `ColWeights { 0 }` is seven zeros.
- `DeciTree.DeciTreeAi.RewardPunish`: requires the reward to be an `int`
  value. `reward_punish_current_choices` is only called with -2 .. 2.
- `DeciTree.DeciTreeAi`: the `m_depth`, `incr_depth` and `report_move`
  declarations of the header have no definitions in `deci_tree_ai.cpp`.
- `DeciTree.DeciTreeAi.NextMove`: the weight vector is looked up by value
  rather than through the pointer `lookup_choices` returns. It is not
  changed in between.
- `ConnectFour.Board.FlippedHash`: the mirror law a flipped hash would
  promise does not hold, because the code returns 0
  (`BoardSpec.RedTokenHashNonZero` shows that any board holding a Red token
  hashes to something else). The contract states what the code computes.
  The loop that never runs is written as its result rather than as a
  `while` loop.
- `MinimaxAi.Minimax`: the recursion is not bounded by fuel. The board is
  copied before each trial move, as the by-value parameters do. The
  allocation of those copies is not counted.
- `src/nn_model.cpp`, `src/console.cpp` and the other directories of the
  repository (`dup-guesser`, `simple_neural_net`, `tic-tac-toe-guesser`):
  not part of this model.
- `piece.py` defines only EMPTY = 0, CROSS = 1, CIRCLE = 2 and two
  string functions. It has no `Piece` class and no `piece_board_str`, yet
  `raw_board.py` imports `Piece` and `board.py` imports `piece_board_str`.
  As written, these two modules and `ai.py` and `dt_model.py`, which import
  `board`, stop at import. The model treats those imports as if they worked
  and takes a piece to be its integer value.
- `RawBoard.Board.PieceHasWon`: takes the integer that `piece.value` would
  hold, since the `Piece` class it expects is not defined anywhere.
  `Piece(...).to_str()` and `to_colored_and_indexed_str` are used only for
  printing, which is left out.
