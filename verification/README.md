# SPMGAME city builder: a verified model

SPMGAME is a console city-building game. The player places buildings on a
grid of plots, one per turn. The tags are residential `R`, industry `I`,
commercial `C`, `O` and park `*`, and an empty plot is `P`. After each
placement the whole grid is rescored. There are two programs:

- `gamefolder/samplegame.py` has an arcade mode: a 20 x 20 grid, 16 starting
  coins, coins generated by industries, and a high-score list at game over.
  It also has a free-play mode: it starts at 5 x 5, buildings may go
  anywhere, and the grid grows by five plots on every side when a building
  lands on its edge.
- `npcity.py` has an arcade mode with different scoring rules. It starts
  with 10 coins and refuses occupied plots, but it does not require a
  neighbour.

The model has five modules:

- `Sums`: a row-major fold `GridSum` over a cell function. Both scoring
  loops are this fold, and the module holds the generic lemmas about it:
  monotone, additive, zero, non-negative, and invariant under a window
  shift.
- `Grids`: the grid, placing a building, counting tags
  (Python's `list.count`), and `get_adjacent_positions` with the neighbour
  lists built from it.
- `SampleGame`: the rules of `gamefolder/samplegame.py`. These are arcade and
  free-play scoring, additional coins, the placement check, `expand_grid`,
  and one turn of each mode as a pure state transition.
- `NpCity`: the scoring rules and the arcade turn of `npcity.py`, kept
  separate from the other file's rules.
- `Leaderboard`: the list logic of `save_high_score`. It appends the new
  score, sorts by score from highest to lowest, and keeps at most ten entries.

In both scoring modules, `CellScore` counts a cell's neighbours direction
by direction. `Rule` is the rule as the loop writes it, over the list
`adjacent_buildings`. `CellScoreMatchesRule` proves that the two agree for
every cell of every grid.

Side effects become inputs:

- The two random buildings offered each turn are a parameter `offer`.
- The player's answer is `(b, row, col)`.
- The timestamp written with a high score is a parameter `date`.

## Model

| member | source | states |
|---|---|---|
| Grids.AdjacentPositions | gamefolder/samplegame.py:6-12 | at most four positions; p is listed exactly when it is inside the bounds and at Manhattan distance one; listed in the order up, down, left, right |
| Grids.NeighbourhoodSize | npcity.py:3-9 | an interior cell has four neighbours, a corner cell two, the single cell of a 1 x 1 grid none |
| Grids.EmptyGrid | gamefolder/samplegame.py:227 | a rows x cols grid of empty plots |
| Grids.Place | gamefolder/samplegame.py:247 | `grid[row][col] = b` changes that one cell and keeps every other cell and every row length |
| Grids.CountBounds | npcity.py:30-32 | a count of a tag is at most the list's length, and positive exactly when the tag occurs |
| Grids.CountAppend | npcity.py:15 | counting over two lists joined is the sum of the counts |
| Grids.CountUpdate | npcity.py:116 | overwriting one entry moves one occurrence from the old tag to the new one |
| Grids.CountGridPlace | npcity.py:116 | placing b on a cell changes the grid's count of a tag only through that cell |
| Grids.CountGridZero | npcity.py:15 | a grid counts zero of a tag exactly when no cell holds it |
| Grids.RowSumIndicator | npcity.py:44 | a row scoring k per tagged cell sums to k times the row's count |
| Grids.GridSumIndicator | npcity.py:15 | a grid scoring k per tagged cell sums to k times the grid's count |
| Grids.TagSum | npcity.py:15 | the k-per-tagged-cell sum over the whole grid is k times the grid's count |
| Grids.NeighbourTagsMatchPositions | gamefolder/samplegame.py:6-27 | the neighbour list is the tag of each position `get_adjacent_positions` returns, in the same order |
| Grids.LookCount | gamefolder/samplegame.py:9-10 | one step in one direction contributes an occurrence of t exactly when it stays inside the bounds and lands on t |
| Grids.NeighbourCountAgrees | gamefolder/samplegame.py:26-35 | `adjacent_buildings.count(t)` equals the direction-by-direction count, and `t in adjacent_buildings` exactly when that count is positive |
| Grids.NeighbourOtherThan | gamefolder/samplegame.py:303 | the neighbour list holds a tag other than t exactly when some in-bounds orthogonal neighbour is not t |
| Grids.CountGrows | gamefolder/samplegame.py:30-44 | when only empty entries are overwritten, a count of a building never falls and a building present stays present |
| Grids.PlaceGrowsNeighbours | gamefolder/samplegame.py:247 | building on an empty plot only turns empty entries of any neighbour list into buildings |
| Grids.NeighbourCountGrows | gamefolder/samplegame.py:247 | building on an empty plot never lowers a cell's count of neighbours carrying a building tag |
| Sums.GridSumMono | gamefolder/samplegame.py:21-44 | a pointwise smaller cell contribution gives a smaller total |
| Sums.GridSumAdd | npcity.py:17-44 | totals are additive in the cell contribution |
| Sums.GridSumPlus5 | npcity.py:17-44 | adding five contributions cell by cell totals the sum of their five totals |
| Sums.GridSumSame | npcity.py:17-44 | contributions that agree on every cell give the same total |
| Sums.GridSumZero | gamefolder/samplegame.py:24-25 | contributions that are all zero total zero |
| Sums.GridSumNonneg | npcity.py:17-44 | contributions that are never negative total at least zero |
| Sums.GridSumWindow | gamefolder/samplegame.py:274-284 | a contribution that is zero outside a shifted window totals what the unshifted contribution totals over the window |
| SampleGame.CellScoreMatchesRule | gamefolder/samplegame.py:26-44 | a cell's points, counted direction by direction, are what the rules award its tag for the list `adjacent_buildings`: R always 1, I and C one per same-tag neighbour, O and park 1 when a same-tag neighbour is present; its coins are the R count of that list for an industry and nothing otherwise |
| SampleGame.CellFacts | gamefolder/samplegame.py:29-44 | a residential earns at least one point, an empty plot none; a cell's coins are at most four, and only an industry earns any |
| SampleGame.SumFacts | gamefolder/samplegame.py:14-46 | the score is at least the number of residentials, coins are at most four per industry, and an empty grid earns nothing |
| SampleGame.ScoreAndCoins | gamefolder/samplegame.py:14-46 | arcade scoring: score at least the number of residentials, coins between zero and four per industry, an empty grid scores (0, 0) |
| SampleGame.NoIndustryNoCoins | gamefolder/samplegame.py:34-36 | without an industry the pass generates no coins |
| SampleGame.ScoreFreePlay | gamefolder/samplegame.py:86-116 | free-play score at least the number of residentials; an empty grid scores 0 |
| SampleGame.FreePlayMatchesArcade | gamefolder/samplegame.py:86-116 | on a 20 x 20 grid the free-play score equals the arcade score |
| SampleGame.AdditionalCoins | gamefolder/samplegame.py:48-54 | a commercial building earns one coin per in-bounds residential neighbour; anything else earns none; never more than four |
| SampleGame.CellScoreGrows | gamefolder/samplegame.py:26-44 | building on an empty plot lowers no cell's points |
| SampleGame.PlaceRaisesScore | gamefolder/samplegame.py:247-252 | building on an empty plot never lowers the arcade score |
| SampleGame.PlacementVerdict | gamefolder/samplegame.py:302-308 | out of range exactly when outside the grid; free play and the first building are accepted anywhere inside; otherwise accepted exactly when the plot is empty and has a built-up orthogonal neighbour |
| SampleGame.ExpandGrid | gamefolder/samplegame.py:274-284 | a square of side rows + 2m holding the old grid at offset (m, m), empty everywhere else |
| SampleGame.ExpandCropRoundTrip | gamefolder/samplegame.py:274-284 | reading the rows x cols block at (m, m) back out of the expanded grid gives the original grid |
| SampleGame.ExpandFramed | gamefolder/samplegame.py:274-284 | every cell of the expanded grid, read m rows down and m columns right, holds what the old grid holds, with empty plots outside both |
| SampleGame.HitShift | gamefolder/samplegame.py:6-12 | one step from a cell and from its shifted copy finds the same building, because the new border is empty |
| SampleGame.NeighbourCountShift | gamefolder/samplegame.py:97-98 | a cell and its shifted copy have the same neighbour count of every building |
| SampleGame.CellShift | gamefolder/samplegame.py:100-114 | a cell and its copy in the expanded grid earn the same free-play points |
| SampleGame.CopyCells | gamefolder/samplegame.py:100-114 | every cell of the copied block earns what the matching cell of the old grid earns |
| SampleGame.FrameCells | gamefolder/samplegame.py:100-114 | every cell of the new border earns no points |
| SampleGame.WindowScore | gamefolder/samplegame.py:86-116 | a square grid earning nothing outside a window and, inside it, what the old grid earns, has the old grid's free-play score |
| SampleGame.FramedScore | gamefolder/samplegame.py:86-116 | a grid holding the old grid framed by empty plots has the old grid's free-play score |
| SampleGame.ExpandKeepsFreePlayScore | gamefolder/samplegame.py:402-409 | expanding does not change the free-play score, so the score computed before expanding is that of the grown grid |
| SampleGame.StartArcade | gamefolder/samplegame.py:240 | a started arcade game keeps the given grid, coins and score, and expects a first building exactly when the grid holds no building of any tag |
| SampleGame.NewArcadeFacts | gamefolder/samplegame.py:227-240 | a new arcade game is empty, has 16 coins, scores 0, expects a first building and satisfies the invariant |
| SampleGame.ArcadeTurn | gamefolder/samplegame.py:242-252 | an unaccepted choice changes nothing; an accepted one places the building, pays one coin, adds the generated coins, records the new score and ends the first-building rule |
| SampleGame.ArcadeTurnKeepsInvariant | gamefolder/samplegame.py:240-252 | a turn keeps the grid 20 x 20, the score equal to the grid's score, and the first-building rule tied to an empty grid; the score never falls; an accepted turn fills exactly one empty plot |
| SampleGame.FinishArcade | gamefolder/samplegame.py:259-260 | with coins left the list is untouched; at game over the score is saved, and the list stays ordered with min(n + 1, 10) entries |
| SampleGame.OnEdgeFewerNeighbours | gamefolder/samplegame.py:408 | a cell of a square grid is on the edge, the test that triggers growth, exactly when it has fewer than four neighbours |
| SampleGame.FreePlayTurn | gamefolder/samplegame.py:395-409 | accepted exactly for an offered building inside the grid; a refused choice changes nothing; an accepted one places it, scores the grid before growth, and ends the first-building rule; on an edge the grid grows into the placed grid surrounded by five rings of empty plots, otherwise it is the placed grid |
| SampleGame.NewFreePlayFacts | gamefolder/samplegame.py:381-393 | a new free-play game is 5 x 5, expects a first building and its score 0 is the grid's score |
| SampleGame.FreePlayTurnKeepsInvariant | gamefolder/samplegame.py:395-409 | a free-play turn keeps the grid square and the recorded score equal to the score of the grid on show |
| NpCity.CellScoreMatchesRule | npcity.py:19-44 | a cell's points, counted direction by direction, are what the rules award its tag for the list `adjacent_buildings`, its row and the industry count: R 1 next to an industry and otherwise R + C + 2 O neighbours, I the industry count, C and O the same-tag neighbours, a park the parks in its row; I and C earn a coin per R in the list |
| NpCity.CellBounds | npcity.py:19-44 | no cell earns negative points or coins; an empty plot earns nothing; a park earns at least one point; only I and C earn coins, at most four |
| NpCity.CoinSum | npcity.py:35-39 | coins total between zero and four per industry and commercial building |
| NpCity.BusinessSum | npcity.py:33-39 | four per industry and per commercial building totals four times their combined count |
| NpCity.CoinPointwise | npcity.py:35-39 | every cell's coins lie between zero and its four-per-business allowance |
| NpCity.ScoreSum | npcity.py:11-46 | the score is never negative |
| NpCity.EmptySums | npcity.py:11-46 | an empty grid earns no points and no coins |
| NpCity.ScoreAndCoins | npcity.py:11-46 | score at least zero; coins between zero and four per industry and commercial building; an empty grid scores (0, 0) |
| NpCity.CellShares | npcity.py:22-44 | every cell's points go to the share of its own tag and to no other share |
| NpCity.ScoreSplit | npcity.py:25-44 | the score is the sum of the points earned by the R, I, C, O and park cells |
| NpCity.IndustryShare | npcity.py:15-34 | industries together earn the square of the number of industries |
| NpCity.ParkRows | npcity.py:43-44 | over the first m rows, parks earn the sum of the squares of each row's park count |
| NpCity.ParkShare | npcity.py:43-44 | parks together earn the sum over rows of the square of each row's park count |
| NpCity.NewGame | npcity.py:85-91 | a new game is an empty 20 x 20 grid with 10 coins |
| NpCity.ChosenInGrid | npcity.py:61-74 | on the 20 x 20 grid a choice (`Chosen`) is returned exactly for an offered building on a cell inside the grid |
| NpCity.ArcadeTurn | npcity.py:104-121 | a choice not returned or an occupied plot changes nothing; otherwise the building is placed, one coin is paid, generated coins are added and the new score recorded |
| NpCity.ArcadeTurnProgress | npcity.py:104-121 | a turn keeps the score equal to the grid's score; a building turn fills exactly one empty plot |
| Leaderboard.Insert | gamefolder/samplegame.py:184 | inserting into a descending list keeps it descending and adds exactly the new entry |
| Leaderboard.InsertLast | gamefolder/samplegame.py:184 | putting the last entry back after the rest with the new entry keeps order and contents |
| Leaderboard.SortDesc | gamefolder/samplegame.py:184 | the result is ordered by descending score and is a permutation of the input |
| Leaderboard.SaveHighScore | gamefolder/samplegame.py:169-184 | ordered; holds min(n + 1, 10) entries, each from the old list or the new one; keeps everything when there was room; no dropped entry outscores a kept one |
| Leaderboard.KeepBest | gamefolder/samplegame.py:184 | the first k entries of an ordered list are ordered, and none of the rest outscores them |
| Leaderboard.Provenance | gamefolder/samplegame.py:181-184 | every kept entry is an old one or the new one, and nothing is dropped while there is room |
| Leaderboard.SaveAllShape | gamefolder/samplegame.py:169-184 | after one or more saves the list is ordered and holds min(n + k, 10) entries |

## Left out

- Console I/O is not modelled: the menus, `input` prompts, grid printing and messages. The player's answer is an input to a turn.
- `random.sample` is not modelled: the two offered buildings are the parameter `offer`.
- A re-prompt after an invalid position is modelled as a turn that changes nothing. So is the `None` return for a building that was not offered. Either way the loop runs again.
- JSON persistence is not modelled: `save_game`, `load_game`, `save_game_free_play`, `load_game_free_play`, `load_freeplaygame`, `load_high_scores` and `display_high_scores`. `StartArcade` takes a loaded grid, coins and score as plain values.
- The free-play load branch is not modelled. With no save, line 375 of `gamefolder/samplegame.py` raises `UnboundLocalError`, because `rows` and `cols` are assigned only at line 381; with a save, lines 381-384 overwrite what was loaded.
- `datetime.now()` is not modelled: the date is a parameter of `SaveHighScore`.
- The first `choose_building` (lines 119-145) and `choose_building_freeplay` are not modelled. The later `choose_building` replaces the first when the module is loaded, and nothing calls `choose_building_freeplay`.
- Free play's coin count is not modelled. The loop never spends it; it is only written out by the save at line 414, which is left out with the rest of persistence.
- Leaderboard.SortDesc: Python's `sorted` is stable. The model's insertion places equal scores in the same order, but the contract states only order and permutation, not stability.
- SampleGame.ScoreAndCoins: requires a 20 x 20 grid. The source clips neighbours to the default 20 x 20 bounds while looping over the grid's own size, and arcade grids are always 20 x 20.
- NpCity.ScoreAndCoins: requires a 20 x 20 grid, for the same reason.
- SampleGame.AdditionalCoins: for a commercial building it requires a 20 x 20 grid, because the source probes neighbours under the default 20 x 20 bounds. Any other building needs no grid at all, since the source never reads it.
- SampleGame.ExpandGrid: requires at least as many rows as columns. The new side is computed from the row count alone. The source also accepts a grid with up to m more columns than rows, which leaves a narrower right border, and raises IndexError beyond that. Free-play grids are always square, so the model states only the square-or-taller case.
- SampleGame.FinishArcade: states the shape of the saved list. The contents follow from `Leaderboard.SaveHighScore`.
- The arcade loop's chaining from turn to turn and its final `break` are left to the caller of `ArcadeTurn`. The game ends when the coins reach zero or less, and `FinishArcade` models that end.

## Notes on the source

- In `gamefolder/samplegame.py` at lines 29-33, a residential earns one point whether or not an industry is adjacent. Both branches add 1, and the model keeps both branches.
- Scoring in `npcity.py` is not monotone in the way the other file's is. A new industry next to a residential sets that residential's points to 1 (`npcity.py` lines 27-28). For example, an R whose only neighbours are three O plots scores 6 and the O plots score 0. After an I is placed on its fourth side, the R scores 1 and the lone I scores 1, so the total falls from 6 to 2. So no counterpart of `SampleGame.PlaceRaisesScore` is stated for it.
- In `npcity.py`, the arcade turn checks the plot is empty but not that it has a neighbour. Its turn model follows that.
