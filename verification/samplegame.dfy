/**
  The rules of gamefolder/samplegame.py: arcade scoring with coin
  generation, free-play scoring, the placement check of `choose_building`,
  grid expansion, and one turn of each mode as a state transition.
 */
module SampleGame {
  import opened Sums
  import opened Grids
  import Leaderboard

  // ---------------------------------------------------------------------
  // Scoring

  /**
    The points a building tagged b earns when its neighbours carry the tags
    adj, written as the scoring loop reads the neighbour list. Arcade
    scoring and free-play scoring share these rules.
   */
  function Rule(b: char, adj: seq<char>): int
  {
    if b == Empty then 0
    // both branches of the source award one point
    else if b == 'R' then (if 'I' in adj then 1 else 1)
    else if b == 'I' then Count(adj, 'I')
    else if b == 'C' then Count(adj, 'C')
    else if b == 'O' then (if 'O' in adj then 1 else 0)
    else if b == '*' then (if '*' in adj then 1 else 0)
    else 0
  }

  /**
    The points one cell earns, with its neighbours clipped to
    [0, rows) x [0, cols). Arcade scoring passes the default 20 x 20 bounds,
    free-play scoring the grid's own size. The neighbours are counted
    direction by direction; CellScoreMatchesRule shows this is Rule applied
    to the cell's neighbour list.
   */
  function CellScore(g: Grid, r: int, c: int, rows: int, cols: int): int
  {
    var b := TagAt(g, r, c);
    if b == Empty then 0
    else if b == 'R' then 1
    else if b == 'I' then NeighbourCount(g, r, c, rows, cols, 'I')
    else if b == 'C' then NeighbourCount(g, r, c, rows, cols, 'C')
    else if b == 'O' then (if NeighbourCount(g, r, c, rows, cols, 'O') > 0 then 1 else 0)
    else if b == '*' then (if NeighbourCount(g, r, c, rows, cols, '*') > 0 then 1 else 0)
    else 0
  }

  /**
    Every cell earns the points and coins the rules award its tag for its
    list of neighbour tags.
   */
  lemma CellScoreMatchesRule(g: Grid, r: int, c: int, rows: int, cols: int)
    ensures CellScore(g, r, c, rows, cols) == Rule(TagAt(g, r, c), NeighbourTags(g, r, c, rows, cols))
    ensures CellCoins(g, r, c) == (if TagAt(g, r, c) == 'I' then Count(NeighbourTags(g, r, c, Side, Side), 'R') else 0)
  {
    NeighbourCountAgrees(g, r, c, Side, Side, 'R');
    NeighbourCountAgrees(g, r, c, rows, cols, 'I');
    NeighbourCountAgrees(g, r, c, rows, cols, 'C');
    NeighbourCountAgrees(g, r, c, rows, cols, 'O');
    NeighbourCountAgrees(g, r, c, rows, cols, '*');
  }

  /** The coins one cell generates in arcade scoring: an industry earns one per residential neighbour. */
  function CellCoins(g: Grid, r: int, c: int): int
  {
    if TagAt(g, r, c) == 'I' then NeighbourCount(g, r, c, Side, Side, 'R') else 0
  }

  function ScoreFn(g: Grid, rows: int, cols: int): (int, int) -> int
  {
    (r, c) => CellScore(g, r, c, rows, cols)
  }

  function CoinFn(g: Grid): (int, int) -> int
  {
    (r, c) => CellCoins(g, r, c)
  }

  /** What a single cell contributes, read against its tag. */
  lemma CellFacts(g: Grid, r: int, c: int, rows: int, cols: int)
    ensures CellScore(g, r, c, rows, cols) >= (if TagAt(g, r, c) == 'R' then 1 else 0)
    ensures TagAt(g, r, c) == Empty ==> CellScore(g, r, c, rows, cols) == 0
    ensures 0 <= CellCoins(g, r, c) <= (if TagAt(g, r, c) == 'I' then 4 else 0)
  {
  }

  /** The sums behind the contract of ScoreAndCoins and ScoreFreePlay. */
  lemma {:induction false} SumFacts(g: Grid, rows: nat, cols: nat)
    requires IsGrid(g, rows, cols)
    ensures GridSum(ScoreFn(g, rows, cols), rows, cols) >= CountGrid(g, 'R')
    ensures AllEmpty(g) ==> GridSum(ScoreFn(g, rows, cols), rows, cols) == 0
    ensures rows == Side && cols == Side ==> 0 <= GridSum(CoinFn(g), rows, cols) <= 4 * CountGrid(g, 'I')
    ensures AllEmpty(g) ==> GridSum(CoinFn(g), rows, cols) == 0
  {
    var score, coins := ScoreFn(g, rows, cols), CoinFn(g);
    forall r, c | 0 <= r < rows && 0 <= c < cols
      ensures TagFn(g, 'R', 1)(r, c) <= score(r, c)
      ensures 0 <= coins(r, c) <= TagFn(g, 'I', 4)(r, c)
    {
      CellFacts(g, r, c, rows, cols);
    }
    GridSumMono(TagFn(g, 'R', 1), score, rows, cols);
    TagSum(g, 'R', 1, rows, cols);
    GridSumMono(coins, TagFn(g, 'I', 4), rows, cols);
    TagSum(g, 'I', 4, rows, cols);
    GridSumNonneg(coins, rows, cols);
    assert g[..rows] == g;
    if AllEmpty(g) {
      forall r, c | 0 <= r < rows && 0 <= c < cols
        ensures score(r, c) == 0 && coins(r, c) == 0
      {
        CellFacts(g, r, c, rows, cols);
      }
      GridSumZero(score, rows, cols);
      GridSumZero(coins, rows, cols);
    }
  }

  /**
    calculate_score_and_coins: one pass over the 20 x 20 arcade grid. Every
    residential counts at least a point, coins come only from industries
    (at most four each), and an empty grid is worth nothing.
   */
  function ScoreAndCoins(g: Grid): (t: Tally)
    requires IsGrid(g, Side, Side)
    ensures t.score >= CountGrid(g, 'R')
    ensures 0 <= t.coins <= 4 * CountGrid(g, 'I')
    ensures AllEmpty(g) ==> t == Tally(0, 0)
  {
    SumFacts(g, Side, Side);
    Tally(GridSum(ScoreFn(g, Side, Side), |g|, |g[0]|), GridSum(CoinFn(g), |g|, |g[0]|))
  }

  /** With no industry on the grid, arcade scoring generates no coins. */
  lemma NoIndustryNoCoins(g: Grid)
    requires IsGrid(g, Side, Side)
    requires forall r, c :: 0 <= r < Side && 0 <= c < Side ==> g[r][c] != 'I'
    ensures ScoreAndCoins(g).coins == 0
  {
    CountGridZero(g, 'I');
    assert CountGrid(g, 'I') == 0;
  }

  /**
    calculate_score_free_play: the same points as arcade scoring, with the
    neighbourhood clipped to the grid's own size, which grows in free play.
   */
  function ScoreFreePlay(g: Grid): (score: int)
    requires WellFormed(g)
    ensures score >= CountGrid(g, 'R')
    ensures AllEmpty(g) ==> score == 0
  {
    SumFacts(g, |g|, |g[0]|);
    GridSum(ScoreFn(g, |g|, |g[0]|), |g|, |g[0]|)
  }

  /**
    On a 20 x 20 grid, free-play scoring and arcade scoring award the same
    points. The two loops of the source give identical points per cell, so
    the model defines both with the one CellScore. This lemma holds by
    unfolding and records that decision; it is not a proof step.
   */
  lemma FreePlayMatchesArcade(g: Grid)
    requires IsGrid(g, Side, Side)
    ensures ScoreFreePlay(g) == ScoreAndCoins(g).score
  {
  }

  /**
    calculate_additional_coins: a commercial building placed at (row, col)
    would earn a coin per residential neighbour; any other building nothing.
   */
  function AdditionalCoins(g: Grid, b: char, row: int, col: int): (coins: int)
    requires b == 'C' ==> IsGrid(g, Side, Side)
    ensures coins == (if b == 'C' then NeighbourCount(g, row, col, Side, Side, 'R') else 0)
    ensures 0 <= coins <= 4
  {
    NeighbourCountAgrees(g, row, col, Side, Side, 'R');
    if b == 'C' then Count(NeighbourTags(g, row, col, Side, Side), 'R') else 0
  }

  // ---------------------------------------------------------------------
  // Building on an empty plot never lowers the arcade score

  /** No cell loses points when an empty plot gets a building. */
  lemma CellScoreGrows(g: Grid, row: int, col: int, b: char, r: int, c: int, rows: int, cols: int)
    requires 0 <= row < |g| && 0 <= col < |g[row]|
    requires g[row][col] == Empty
    ensures CellScore(g, r, c, rows, cols) <= CellScore(Place(g, row, col, b), r, c, rows, cols)
  {
    var g' := Place(g, row, col, b);
    if r == row && c == col {
      CellFacts(g', r, c, rows, cols);
    } else {
      assert TagAt(g', r, c) == TagAt(g, r, c);
      NeighbourCountGrows(g, row, col, b, r, c, rows, cols, 'I');
      NeighbourCountGrows(g, row, col, b, r, c, rows, cols, 'C');
      NeighbourCountGrows(g, row, col, b, r, c, rows, cols, 'O');
      NeighbourCountGrows(g, row, col, b, r, c, rows, cols, '*');
    }
  }

  /** Arcade points never decrease when a building goes onto an empty plot. */
  lemma PlaceRaisesScore(g: Grid, row: int, col: int, b: char)
    requires IsGrid(g, Side, Side)
    requires 0 <= row < Side && 0 <= col < Side && g[row][col] == Empty
    ensures ScoreAndCoins(g).score <= ScoreAndCoins(Place(g, row, col, b)).score
  {
    var g' := Place(g, row, col, b);
    forall r, c | 0 <= r < Side && 0 <= c < Side
      ensures ScoreFn(g, Side, Side)(r, c) <= ScoreFn(g', Side, Side)(r, c)
    {
      CellScoreGrows(g, row, col, b, r, c, Side, Side);
    }
    GridSumMono(ScoreFn(g, Side, Side), ScoreFn(g', Side, Side), Side, Side);
  }

  // ---------------------------------------------------------------------
  // Placement

  /** Why a requested position is turned down: outside the grid, or taken / not next to a building. */
  datatype Verdict = Accepted | OutOfRange | Refused

  /**
    The position check of the `choose_building` that takes `free_play`.
    Free play and the first building of a game may go on any in-bounds
    cell, even an occupied one; otherwise the cell must be empty and have a
    built-up orthogonal neighbour.
   */
  function PlacementVerdict(g: Grid, row: int, col: int, first: bool, freePlay: bool): (v: Verdict)
    requires WellFormed(g)
    ensures v == OutOfRange <==> !InBounds(Pos(row, col), |g|, |g[0]|)
    ensures InBounds(Pos(row, col), |g|, |g[0]|) && (freePlay || first) ==> v == Accepted
    ensures !freePlay && !first ==>
              (v == Accepted <==>
                 && InBounds(Pos(row, col), |g|, |g[0]|)
                 && g[row][col] == Empty
                 && exists p :: InBounds(p, |g|, |g[0]|) && Adjacent(p, Pos(row, col)) && TagAt(g, p.row, p.col) != Empty)
  {
    var adj := NeighbourTags(g, row, col, |g|, |g[0]|);
    NeighbourOtherThan(g, row, col, |g|, |g[0]|, Empty);
    if !(0 <= row < |g| && 0 <= col < |g[0]|) then OutOfRange
    else if freePlay || first || (g[row][col] == Empty && exists i :: 0 <= i < |adj| && adj[i] != Empty) then Accepted
    else Refused
  }

  // ---------------------------------------------------------------------
  // Grid expansion

  /**
    expand_grid: a new square grid of side rows + 2m, empty except for the
    old grid copied in at offset (m, m). The side is taken from the row
    count alone, so a grid wider than tall is excluded here; the source also
    accepts up to m extra columns.
   */
  function ExpandGrid(g: Grid, m: nat): (e: Grid)
    requires WellFormed(g) && |g[0]| <= |g|
    ensures IsGrid(e, |g| + 2 * m, |g| + 2 * m)
    ensures forall r, c :: 0 <= r < |g| && 0 <= c < |g[0]| ==> e[r + m][c + m] == g[r][c]
    ensures forall r, c :: (0 <= r < |e| && 0 <= c < |e| && !(m <= r < m + |g| && m <= c < m + |g[0]|))
              ==> e[r][c] == Empty
  {
    var rows, cols := |g|, |g[0]|;
    var side := rows + 2 * m;
    seq(side, r requires 0 <= r < side =>
      seq(side, c requires 0 <= c < side =>
        if m <= r < m + rows && m <= c < m + cols then g[r - m][c - m] else Empty))
  }

  /**
    e is g surrounded by d rings of empty plots: it is d cells wider on
    every side, holds g at offset (d, d), and every other cell is empty.
   */
  predicate Embeds(e: Grid, g: Grid, d: nat)
    requires WellFormed(g)
  {
    && IsGrid(e, |g| + 2 * d, |g[0]| + 2 * d)
    && (forall r, c :: 0 <= r < |g| && 0 <= c < |g[0]| ==> e[r + d][c + d] == g[r][c])
    && forall r, c :: 0 <= r < |e| && 0 <= c < |e[r]| && !(d <= r < d + |g| && d <= c < d + |g[0]|) ==> e[r][c] == Empty
  }

  /** The rows x cols block of e whose top-left corner is (m, m). */
  function Crop(e: Grid, m: nat, rows: nat, cols: nat): Grid
    requires m + rows <= |e|
    requires forall r :: 0 <= r < |e| ==> m + cols <= |e[r]|
  {
    seq(rows, r requires 0 <= r < rows => e[r + m][m .. m + cols])
  }

  /** Expanding and then reading back the block at (m, m) gives the original grid. */
  lemma ExpandCropRoundTrip(g: Grid, m: nat)
    requires WellFormed(g) && |g[0]| <= |g|
    ensures Crop(ExpandGrid(g, m), m, |g|, |g[0]|) == g
  {
    var e := ExpandGrid(g, m);
    var back := Crop(e, m, |g|, |g[0]|);
    forall r | 0 <= r < |g| ensures back[r] == g[r] {
      assert forall c :: 0 <= c < |g[0]| ==> back[r][c] == e[r + m][c + m];
    }
  }

  /**
    e is g expanded by m: a square of side rows + 2m in which every cell,
    read m rows down and m columns right, holds what g holds, reading
    outside either grid as an empty plot.
   */
  ghost predicate Framed(e: Grid, g: Grid, m: nat)
    requires WellFormed(g)
  {
    && IsGrid(e, |g| + 2 * m, |g| + 2 * m)
    && |g[0]| <= |g|
    && forall r, c :: TagAt(e, r + m, c + m) == TagAt(g, r, c)
  }

  /** The expanded grid is framed: the old grid at offset (m, m), empty plots all around. */
  lemma ExpandFramed(g: Grid, m: nat)
    requires WellFormed(g) && |g[0]| <= |g|
    ensures Framed(ExpandGrid(g, m), g, m)
  {
    var e := ExpandGrid(g, m);
    forall r, c ensures TagAt(e, r + m, c + m) == TagAt(g, r, c) {
      if 0 <= r < |g| && 0 <= c < |g[0]| {
        assert e[r + m][c + m] == g[r][c];
      }
    }
  }

  /** Looking one step from a cell of g, or from its copy in e, finds the same building (the frame is all empty). */
  lemma HitShift(e: Grid, g: Grid, m: nat, p: Pos, t: char)
    requires WellFormed(g) && Framed(e, g, m) && t != Empty
    ensures Hit(e, Pos(p.row + m, p.col + m), |e|, |e|, t) == Hit(g, p, |g|, |g[0]|, t)
  {
    assert TagAt(e, p.row + m, p.col + m) == TagAt(g, p.row, p.col);
  }

  lemma NeighbourCountShift(e: Grid, g: Grid, m: nat, r: int, c: int, t: char)
    requires WellFormed(g) && Framed(e, g, m) && t != Empty
    ensures NeighbourCount(e, r + m, c + m, |e|, |e|, t) == NeighbourCount(g, r, c, |g|, |g[0]|, t)
  {
    var up, down, left, right := Pos(r - 1, c), Pos(r + 1, c), Pos(r, c - 1), Pos(r, c + 1);
    HitShift(e, g, m, up, t);
    HitShift(e, g, m, down, t);
    HitShift(e, g, m, left, t);
    HitShift(e, g, m, right, t);
    assert Pos(up.row + m, up.col + m) == Pos(r + m - 1, c + m);
    assert Pos(down.row + m, down.col + m) == Pos(r + m + 1, c + m);
    assert Pos(left.row + m, left.col + m) == Pos(r + m, c + m - 1);
    assert Pos(right.row + m, right.col + m) == Pos(r + m, c + m + 1);
  }

  /** A cell of g earns in free play what its copy earns in the expanded grid. */
  lemma CellShift(e: Grid, g: Grid, m: nat, r: int, c: int)
    requires WellFormed(g) && Framed(e, g, m)
    requires 0 <= r < |g| && 0 <= c < |g[0]|
    ensures CellScore(e, r + m, c + m, |e|, |e|) == CellScore(g, r, c, |g|, |g[0]|)
  {
    assert TagAt(e, r + m, c + m) == TagAt(g, r, c);
    NeighbourCountShift(e, g, m, r, c, 'I');
    NeighbourCountShift(e, g, m, r, c, 'C');
    NeighbourCountShift(e, g, m, r, c, 'O');
    NeighbourCountShift(e, g, m, r, c, '*');
  }

  /** Every cell of the copy of g earns what the cell of g earns. */
  lemma CopyCells(e: Grid, g: Grid, m: nat)
    requires WellFormed(g) && Framed(e, g, m)
    ensures forall r, c :: 0 <= r < |g| && 0 <= c < |g[0]| ==>
              CellScore(e, r + m, c + m, |e|, |e|) == CellScore(g, r, c, |g|, |g[0]|)
  {
    forall r, c | 0 <= r < |g| && 0 <= c < |g[0]|
      ensures CellScore(e, r + m, c + m, |e|, |e|) == CellScore(g, r, c, |g|, |g[0]|)
    {
      CellShift(e, g, m, r, c);
    }
  }

  /** The empty frame around the copy of g earns no points. */
  lemma FrameCells(e: Grid, g: Grid, m: nat)
    requires WellFormed(g) && Framed(e, g, m)
    ensures forall r, c :: 0 <= r < |e| && 0 <= c < |e| && !(m <= r < m + |g| && m <= c < m + |g[0]|) ==>
              CellScore(e, r, c, |e|, |e|) == 0
  {
    forall r, c | 0 <= r < |e| && 0 <= c < |e| && !(m <= r < m + |g| && m <= c < m + |g[0]|)
      ensures CellScore(e, r, c, |e|, |e|) == 0
    {
      assert TagAt(e, (r - m) + m, (c - m) + m) == TagAt(g, r - m, c - m);
    }
  }

  /**
    A square grid whose cells outside a window earn nothing, and whose
    cells inside it earn what the cells of g earn, scores what g scores.
   */
  lemma {:induction false} WindowScore(e: Grid, g: Grid, m: nat)
    requires WellFormed(g) && |g[0]| <= |g| && IsGrid(e, |g| + 2 * m, |g| + 2 * m)
    requires forall r, c :: 0 <= r < |e| && 0 <= c < |e| && !(m <= r < m + |g| && m <= c < m + |g[0]|) ==>
               CellScore(e, r, c, |e|, |e|) == 0
    requires forall r, c :: 0 <= r < |g| && 0 <= c < |g[0]| ==>
               CellScore(e, r + m, c + m, |e|, |e|) == CellScore(g, r, c, |g|, |g[0]|)
    ensures GridSum(ScoreFn(e, |e|, |e[0]|), |e|, |e[0]|) == GridSum(ScoreFn(g, |g|, |g[0]|), |g|, |g[0]|)
  {
    var f, h := ScoreFn(e, |e|, |e|), ScoreFn(g, |g|, |g[0]|);
    assert |e[0]| == |e|;
    forall r, c | 0 <= r < |e| && 0 <= c < |e| && !(m <= r < m + |g| && m <= c < m + |g[0]|)
      ensures f(r, c) == 0
    {
    }
    forall r, c | 0 <= r < |g| && 0 <= c < |g[0]| ensures f(r + m, c + m) == h(r, c) {
    }
    GridSumWindow(f, h, |e|, |e|, m, m, |g|, |g[0]|);
  }

  /** A grid framed by empty plots scores what the grid inside the frame scores. */
  lemma {:induction false} FramedScore(e: Grid, g: Grid, m: nat)
    requires WellFormed(g) && Framed(e, g, m)
    ensures GridSum(ScoreFn(e, |e|, |e[0]|), |e|, |e[0]|) == GridSum(ScoreFn(g, |g|, |g[0]|), |g|, |g[0]|)
  {
    FrameCells(e, g, m);
    CopyCells(e, g, m);
    WindowScore(e, g, m);
  }

  /**
    Growing the grid does not change its free-play score: the new border is
    empty, and an empty neighbour adds nothing to any rule. So the score
    free play records before expanding is also that of the grown grid.
   */
  lemma ExpandKeepsFreePlayScore(g: Grid, m: nat)
    requires WellFormed(g) && |g[0]| <= |g|
    ensures ScoreFreePlay(ExpandGrid(g, m)) == ScoreFreePlay(g)
  {
    ExpandFramed(g, m);
    FramedScore(ExpandGrid(g, m), g, m);
  }

  // ---------------------------------------------------------------------
  // Arcade mode

  const ArcadeCoins: int := 16

  datatype ArcadeState = ArcadeState(grid: Grid, coins: int, score: int, first: bool)

  /** A game resumed or begun on grid g: the next building is the first exactly when g is still empty. */
  function StartArcade(g: Grid, coins: int, score: int): (st: ArcadeState)
    ensures st.grid == g && st.coins == coins && st.score == score
    ensures st.first <==> forall t :: t != Empty ==> CountGrid(g, t) == 0
  {
    AllEmptyNoBuildings(g);
    ArcadeState(g, coins, score, AllEmpty(g))
  }

  /** A fresh arcade game: an empty 20 x 20 grid, 16 coins, no points. */
  function NewArcade(): ArcadeState
  {
    StartArcade(EmptyGrid(Side, Side), ArcadeCoins, 0)
  }

  /** What the arcade loop keeps true: the score is that of the grid, and the first-building flag implies an empty grid. */
  predicate ArcadeInv(st: ArcadeState)
  {
    && IsGrid(st.grid, Side, Side)
    && st.score == ScoreAndCoins(st.grid).score
    && (st.first ==> AllEmpty(st.grid))
  }

  /** A fresh game is about to place its first building, and satisfies the loop invariant. */
  lemma NewArcadeFacts()
    ensures NewArcade().first && NewArcade().coins == ArcadeCoins
    ensures ArcadeInv(NewArcade())
  {
  }

  /** Whether a turn builds: the chosen building was offered and the position passes the placement check. */
  predicate ArcadeBuilds(st: ArcadeState, offer: seq<char>, b: char, row: int, col: int)
    requires WellFormed(st.grid)
  {
    b in offer && PlacementVerdict(st.grid, row, col, st.first, false) == Accepted
  }

  /**
    One pass of the arcade loop, entered while coins remain: build b at
    (row, col), pay a coin, rescore the whole grid, and add every coin the
    grid generates. A building that was not offered, or a position the
    placement check turns down, leaves the game as it was.
   */
  function ArcadeTurn(st: ArcadeState, offer: seq<char>, b: char, row: int, col: int): (st': ArcadeState)
    requires IsGrid(st.grid, Side, Side) && st.coins > 0
    ensures IsGrid(st'.grid, Side, Side)
    ensures !ArcadeBuilds(st, offer, b, row, col) ==> st' == st
    ensures ArcadeBuilds(st, offer, b, row, col) ==>
              && st'.grid == Place(st.grid, row, col, b)
              && st'.coins == st.coins - 1 + ScoreAndCoins(st'.grid).coins
              && st'.score == ScoreAndCoins(st'.grid).score
              && !st'.first
  {
    if !ArcadeBuilds(st, offer, b, row, col) then st
    else
      var g := Place(st.grid, row, col, b);
      var t := ScoreAndCoins(g);
      ArcadeState(g, st.coins - 1 + t.coins, t.score, false)
  }

  /**
    Every arcade turn keeps the loop invariant and never lowers the score:
    a building only ever goes onto an empty plot, because the first one is
    placed on an empty grid and later ones must pass the emptiness check.
   */
  lemma ArcadeTurnKeepsInvariant(st: ArcadeState, offer: seq<char>, b: char, row: int, col: int)
    requires ArcadeInv(st) && st.coins > 0
    ensures ArcadeInv(ArcadeTurn(st, offer, b, row, col))
    ensures ArcadeTurn(st, offer, b, row, col).score >= st.score
    ensures b != Empty ==>
              CountGrid(ArcadeTurn(st, offer, b, row, col).grid, Empty)
                == CountGrid(st.grid, Empty) - (if ArcadeBuilds(st, offer, b, row, col) then 1 else 0)
  {
    if ArcadeBuilds(st, offer, b, row, col) {
      assert st.grid[row][col] == Empty;
      PlaceRaisesScore(st.grid, row, col, b);
      CountGridPlace(st.grid, row, col, b, Empty);
    }
  }

  /** When a turn leaves no coins, the arcade game ends by recording its score on the leaderboard. */
  function FinishArcade(st: ArcadeState, board: seq<Leaderboard.Entry>, date: string): (board': seq<Leaderboard.Entry>)
    ensures st.coins > 0 ==> board' == board
    ensures st.coins <= 0 ==> Leaderboard.SortedDesc(board') && |board'| == Leaderboard.Min(|board| + 1, Leaderboard.Capacity)
  {
    if st.coins <= 0 then Leaderboard.SaveHighScore(board, st.score, date) else board
  }

  // ---------------------------------------------------------------------
  // Free-play mode

  const FreePlaySide: nat := 5
  const Expansion: nat := 5

  /** Free play keeps no coin count: its coins are a sentinel that is never spent. */
  datatype FreePlayState = FreePlayState(grid: Grid, score: int, first: bool)

  predicate Square(g: Grid)
  {
    |g| >= 1 && IsGrid(g, |g|, |g|)
  }

  function NewFreePlay(): FreePlayState
  {
    FreePlayState(EmptyGrid(FreePlaySide, FreePlaySide), 0, true)
  }

  predicate FreePlayBuilds(st: FreePlayState, offer: seq<char>, b: char, row: int, col: int)
    requires WellFormed(st.grid)
  {
    b in offer && PlacementVerdict(st.grid, row, col, st.first, true) == Accepted
  }

  /** A placement on the outermost ring of the grid. */
  predicate OnEdge(g: Grid, row: int, col: int)
    requires |g| >= 1
  {
    row == 0 || row == |g| - 1 || col == 0 || col == |g[0]| - 1
  }

  /** A cell of a square grid is on the edge exactly when it has fewer than four neighbours. */
  lemma OnEdgeFewerNeighbours(g: Grid, row: int, col: int)
    requires Square(g) && InBounds(Pos(row, col), |g|, |g|)
    ensures OnEdge(g, row, col) <==> |AdjacentPositions(row, col, |g|, |g|)| < 4
  {
  }

  /**
    One pass of the free-play loop: build b at any in-bounds (row, col),
    even over another building, rescore, and grow the grid by five on every
    side when the building went onto the edge. The score is computed before
    the grid grows.
   */
  function FreePlayTurn(st: FreePlayState, offer: seq<char>, b: char, row: int, col: int): (st': FreePlayState)
    requires Square(st.grid)
    ensures Square(st'.grid)
    ensures FreePlayBuilds(st, offer, b, row, col) <==> b in offer && InBounds(Pos(row, col), |st.grid|, |st.grid|)
    ensures !FreePlayBuilds(st, offer, b, row, col) ==> st' == st
    ensures FreePlayBuilds(st, offer, b, row, col) ==>
              && Embeds(st'.grid, Place(st.grid, row, col, b), if OnEdge(st.grid, row, col) then Expansion else 0)
              && st'.score == ScoreFreePlay(Place(st.grid, row, col, b))
              && !st'.first
  {
    if !FreePlayBuilds(st, offer, b, row, col) then st
    else
      var g := Place(st.grid, row, col, b);
      var g' := if OnEdge(g, row, col) then ExpandGrid(g, Expansion) else g;
      FreePlayState(g', ScoreFreePlay(g), false)
  }

  /** The recorded free-play score is always the score of the grid on show. */
  predicate FreePlayInv(st: FreePlayState)
  {
    Square(st.grid) && st.score == ScoreFreePlay(st.grid)
  }

  lemma NewFreePlayFacts()
    ensures FreePlayInv(NewFreePlay())
    ensures |NewFreePlay().grid| == FreePlaySide && NewFreePlay().first
  {
    var g := NewFreePlay().grid;
    assert AllEmpty(g);
  }

  /**
    A free-play turn keeps the score in step with the grid: scoring before
    growing gives the same number as scoring after, since the new border
    is empty.
   */
  lemma FreePlayTurnKeepsInvariant(st: FreePlayState, offer: seq<char>, b: char, row: int, col: int)
    requires FreePlayInv(st)
    ensures FreePlayInv(FreePlayTurn(st, offer, b, row, col))
  {
    if FreePlayBuilds(st, offer, b, row, col) {
      var g := Place(st.grid, row, col, b);
      if OnEdge(g, row, col) {
        ExpandKeepsFreePlayScore(g, Expansion);
      }
    }
  }
}
