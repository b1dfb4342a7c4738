/**
  The rules of npcity.py: its own scoring, which awards every industry
  the number of industries on the whole grid and every park ('*') the
  number of parks in its row, and its arcade turn, which refuses an
  occupied plot but needs no neighbour.
 */
module NpCity {
  import opened Sums
  import opened Grids

  /** Row r of g, or nothing when r is outside the grid. */
  function RowAt(g: Grid, r: int): seq<char>
  {
    if 0 <= r < |g| then g[r] else []
  }

  /**
    The points a building tagged b earns, written as the scoring loop reads
    it: adj is the list of neighbour tags, row the building's row and
    industry the number of industries on the whole grid, counted once
    before the pass.
   */
  function Rule(b: char, adj: seq<char>, row: seq<char>, industry: int): int
  {
    if b == Empty then 0
    else if b == 'R' then
      (if 'I' in adj then 1 else Count(adj, 'R') + Count(adj, 'C') + 2 * Count(adj, 'O'))
    else if b == 'I' then industry
    else if b == 'C' then Count(adj, 'C')
    else if b == 'O' then Count(adj, 'O')
    else if b == '*' then Count(row, '*')
    else 0
  }

  /**
    The points one cell earns, with the neighbours counted direction by
    direction; CellScoreMatchesRule shows this is Rule applied to the
    cell's neighbour list.
   */
  function CellScore(g: Grid, r: int, c: int, industry: int): int
  {
    var b := TagAt(g, r, c);
    if b == Empty then 0
    else if b == 'R' then
      (if NeighbourCount(g, r, c, Side, Side, 'I') > 0 then 1
       else NeighbourCount(g, r, c, Side, Side, 'R') + NeighbourCount(g, r, c, Side, Side, 'C')
            + 2 * NeighbourCount(g, r, c, Side, Side, 'O'))
    else if b == 'I' then industry
    else if b == 'C' then NeighbourCount(g, r, c, Side, Side, 'C')
    else if b == 'O' then NeighbourCount(g, r, c, Side, Side, 'O')
    else if b == '*' then Count(RowAt(g, r), '*')
    else 0
  }

  /** The coins one cell generates: industries and commercial buildings earn one per residential neighbour. */
  function CellCoins(g: Grid, r: int, c: int): int
  {
    var b := TagAt(g, r, c);
    if b == 'I' || b == 'C' then NeighbourCount(g, r, c, Side, Side, 'R') else 0
  }

  function ScoreFn(g: Grid, industry: int): (int, int) -> int
  {
    (r, c) => CellScore(g, r, c, industry)
  }

  function CoinFn(g: Grid): (int, int) -> int
  {
    (r, c) => CellCoins(g, r, c)
  }

  /** The cells tagged t keep their points, every other cell counts nothing. */
  function ShareFn(g: Grid, t: char, industry: int): (int, int) -> int
  {
    (r, c) => if TagAt(g, r, c) == t then CellScore(g, r, c, industry) else 0
  }

  function BusinessFn(g: Grid): (int, int) -> int
  {
    (r, c) => if TagAt(g, r, c) == 'I' || TagAt(g, r, c) == 'C' then 4 else 0
  }

  /**
    Every cell earns what the rules award its tag for its list of neighbour
    tags, and an industry or commercial building earns a coin per 'R' in
    that list.
   */
  lemma CellScoreMatchesRule(g: Grid, r: int, c: int, industry: int)
    ensures CellScore(g, r, c, industry) == Rule(TagAt(g, r, c), NeighbourTags(g, r, c, Side, Side), RowAt(g, r), industry)
    ensures CellCoins(g, r, c) ==
              (if TagAt(g, r, c) in "IC" then Count(NeighbourTags(g, r, c, Side, Side), 'R') else 0)
  {
    NeighbourCountAgrees(g, r, c, Side, Side, 'I');
    NeighbourCountAgrees(g, r, c, Side, Side, 'R');
    NeighbourCountAgrees(g, r, c, Side, Side, 'C');
    NeighbourCountAgrees(g, r, c, Side, Side, 'O');
  }

  /**
    No cell earns negative points or coins, an empty plot earns nothing, a
    park earns at least the point for itself, and only industries and
    commercial buildings earn coins, at most four.
   */
  lemma CellBounds(g: Grid, r: int, c: int, industry: int)
    requires industry >= 0
    ensures CellScore(g, r, c, industry) >= 0
    ensures TagAt(g, r, c) == Empty ==> CellScore(g, r, c, industry) == 0
    ensures TagAt(g, r, c) == '*' ==> CellScore(g, r, c, industry) >= 1
    ensures 0 <= CellCoins(g, r, c) <= (if TagAt(g, r, c) == 'I' || TagAt(g, r, c) == 'C' then 4 else 0)
  {
    if TagAt(g, r, c) == '*' {
      CountBounds(g[r], '*');
    }
  }

  /** Coins are bounded by four per industry and per commercial building. */
  lemma {:induction false} CoinSum(g: Grid)
    requires IsGrid(g, Side, Side)
    ensures 0 <= GridSum(CoinFn(g), Side, Side) <= 4 * (CountGrid(g, 'I') + CountGrid(g, 'C'))
  {
    CoinPointwise(g);
    GridSumNonneg(CoinFn(g), Side, Side);
    GridSumMono(CoinFn(g), BusinessFn(g), Side, Side);
    BusinessSum(g);
  }

  lemma {:induction false} BusinessSum(g: Grid)
    requires IsGrid(g, Side, Side)
    ensures GridSum(BusinessFn(g), Side, Side) == 4 * (CountGrid(g, 'I') + CountGrid(g, 'C'))
  {
    var ind, com := TagFn(g, 'I', 4), TagFn(g, 'C', 4);
    forall r, c | 0 <= r < Side && 0 <= c < Side
      ensures BusinessFn(g)(r, c) == ind(r, c) + com(r, c)
    {
      var t := TagAt(g, r, c);
      assert BusinessFn(g)(r, c) == if t == 'I' || t == 'C' then 4 else 0;
      assert ind(r, c) == if t == 'I' then 4 else 0;
      assert com(r, c) == if t == 'C' then 4 else 0;
    }
    GridSumAdd(BusinessFn(g), ind, com, Side, Side);
    TagSum(g, 'I', 4, Side, Side);
    TagSum(g, 'C', 4, Side, Side);
  }

  lemma CoinPointwise(g: Grid)
    ensures forall r, c :: 0 <= r < Side && 0 <= c < Side ==> 0 <= CoinFn(g)(r, c) <= BusinessFn(g)(r, c)
  {
    forall r, c | 0 <= r < Side && 0 <= c < Side
      ensures 0 <= CoinFn(g)(r, c) <= BusinessFn(g)(r, c)
    {
      CellBounds(g, r, c, 0);
    }
  }

  /** Points are never negative. */
  lemma {:induction false} ScoreSum(g: Grid)
    requires IsGrid(g, Side, Side)
    ensures GridSum(ScoreFn(g, CountGrid(g, 'I')), Side, Side) >= 0
  {
    var k := CountGrid(g, 'I');
    forall r, c | 0 <= r < Side && 0 <= c < Side ensures ScoreFn(g, k)(r, c) >= 0 {
      CellBounds(g, r, c, k);
    }
    GridSumNonneg(ScoreFn(g, k), Side, Side);
  }

  /** An empty grid earns neither points nor coins. */
  lemma {:induction false} EmptySums(g: Grid)
    requires IsGrid(g, Side, Side)
    ensures AllEmpty(g) ==> GridSum(ScoreFn(g, CountGrid(g, 'I')), Side, Side) == 0
    ensures AllEmpty(g) ==> GridSum(CoinFn(g), Side, Side) == 0
  {
    if AllEmpty(g) {
      var k := CountGrid(g, 'I');
      forall r, c | 0 <= r < Side && 0 <= c < Side
        ensures ScoreFn(g, k)(r, c) == 0 && CoinFn(g)(r, c) == 0
      {
        CellBounds(g, r, c, k);
      }
      GridSumZero(ScoreFn(g, k), Side, Side);
      GridSumZero(CoinFn(g), Side, Side);
    }
  }

  /**
    calculate_score_and_coins of npcity.py on the 20 x 20 grid. Points and
    coins are never negative, coins come only from industries and
    commercial buildings (at most four each), and an empty grid is worth
    nothing.
   */
  function ScoreAndCoins(g: Grid): (t: Tally)
    requires IsGrid(g, Side, Side)
    ensures t.score >= 0
    ensures 0 <= t.coins <= 4 * (CountGrid(g, 'I') + CountGrid(g, 'C'))
    ensures AllEmpty(g) ==> t == Tally(0, 0)
  {
    var industry := CountGrid(g, 'I');
    CoinSum(g);
    ScoreSum(g);
    EmptySums(g);
    Tally(GridSum(ScoreFn(g, industry), |g|, |g[0]|), GridSum(CoinFn(g), |g|, |g[0]|))
  }

  /** The points earned by the cells tagged t. */
  function Share(g: Grid, t: char): int
    requires IsGrid(g, Side, Side)
  {
    GridSum(ShareFn(g, t, CountGrid(g, 'I')), Side, Side)
  }

  /** The five shares, added cell by cell. */
  function SharesFn(g: Grid, k: int): (int, int) -> int
  {
    Plus(Plus(Plus(Plus(ShareFn(g, 'R', k), ShareFn(g, 'I', k)), ShareFn(g, 'C', k)), ShareFn(g, 'O', k)), ShareFn(g, '*', k))
  }

  /** A cell's points all go to the share of its own tag. */
  lemma CellShares(g: Grid, k: int, r: int, c: int)
    ensures ScoreFn(g, k)(r, c) == SharesFn(g, k)(r, c)
  {
  }

  /** The score is the sum of what residential, industry, commercial, 'O' and park cells earn. */
  lemma ScoreSplit(g: Grid)
    requires IsGrid(g, Side, Side)
    ensures ScoreAndCoins(g).score == Share(g, 'R') + Share(g, 'I') + Share(g, 'C') + Share(g, 'O') + Share(g, '*')
  {
    var k := CountGrid(g, 'I');
    var parts := SharesFn(g, k);
    forall r, c | 0 <= r < Side && 0 <= c < Side
      ensures ScoreFn(g, k)(r, c) == parts(r, c)
    {
      CellShares(g, k, r, c);
    }
    GridSumSame(ScoreFn(g, k), parts, Side, Side);
    GridSumPlus5(ShareFn(g, 'R', k), ShareFn(g, 'I', k), ShareFn(g, 'C', k), ShareFn(g, 'O', k), ShareFn(g, '*', k), Side, Side);
  }

  /** Every industry earns the number of industries, so industries together earn that number squared. */
  lemma {:induction false} IndustryShare(g: Grid)
    requires IsGrid(g, Side, Side)
    ensures Share(g, 'I') == CountGrid(g, 'I') * CountGrid(g, 'I')
  {
    var k := CountGrid(g, 'I');
    GridSumIndicator(ShareFn(g, 'I', k), g, 'I', k, Side, Side);
    assert g[..Side] == g;
  }

  /** The sum over the first m rows of the square of each row's count of t. */
  function RowSquares(g: Grid, t: char, m: nat): nat
    requires m <= |g|
  {
    if m == 0 then 0 else RowSquares(g, t, m - 1) + Count(g[m - 1], t) * Count(g[m - 1], t)
  }

  lemma {:induction false} ParkRows(g: Grid, m: nat)
    requires IsGrid(g, Side, Side) && m <= Side
    ensures GridSum(ShareFn(g, '*', CountGrid(g, 'I')), m, Side) == RowSquares(g, '*', m)
  {
    if m > 0 {
      var f := ShareFn(g, '*', CountGrid(g, 'I'));
      var n := Count(g[m - 1], '*');
      ParkRows(g, m - 1);
      RowSumIndicator(f, g[m - 1], '*', n, m - 1, Side);
      assert g[m - 1][..Side] == g[m - 1];
    }
  }

  /**
    Every park earns the number of parks in its own row, itself included,
    so parks together earn the sum over rows of that count squared; a
    park alone in its row earns one point.
   */
  lemma {:induction false} ParkShare(g: Grid)
    requires IsGrid(g, Side, Side)
    ensures Share(g, '*') == RowSquares(g, '*', Side)
  {
    ParkRows(g, Side);
  }

  // ---------------------------------------------------------------------
  // Arcade mode

  const ArcadeCoins: int := 10

  datatype GameState = GameState(grid: Grid, coins: int, score: int)

  /** A fresh game: an empty 20 x 20 grid and ten coins. */
  function NewGame(): (st: GameState)
    ensures IsGrid(st.grid, Side, Side) && AllEmpty(st.grid) && st.coins == ArcadeCoins
  {
    GameState(EmptyGrid(Side, Side), ArcadeCoins, 0)
  }

  /**
    The check of choosebuilding: a choice is returned only for an offered
    building on a position inside the 20 x 20 grid.
   */
  predicate Chosen(offer: seq<char>, b: char, row: int, col: int)
  {
    b in offer && 0 <= row < Side && 0 <= col < Side
  }

  /**
    On the 20 x 20 grid of the game, a choice is returned exactly for an
    offered building on a cell of the grid, so placing it never falls off
    the grid.
   */
  lemma ChosenInGrid(g: Grid, offer: seq<char>, b: char, row: int, col: int)
    requires IsGrid(g, Side, Side)
    ensures Chosen(offer, b, row, col) <==> b in offer && InBounds(Pos(row, col), |g|, |g[0]|)
  {
  }

  /**
    One pass of the arcade loop, entered while coins remain. A choice that
    was not returned, or an occupied plot, changes nothing; otherwise the
    building is placed, a coin is paid, the grid is rescored and every coin
    it generates is added.
   */
  function ArcadeTurn(st: GameState, offer: seq<char>, b: char, row: int, col: int): (st': GameState)
    requires IsGrid(st.grid, Side, Side) && st.coins > 0
    ensures IsGrid(st'.grid, Side, Side)
    ensures !Chosen(offer, b, row, col) ==> st' == st
    ensures Chosen(offer, b, row, col) && st.grid[row][col] != Empty ==> st' == st
    ensures Chosen(offer, b, row, col) && st.grid[row][col] == Empty ==>
              && st'.grid == Place(st.grid, row, col, b)
              && st'.coins == st.coins - 1 + ScoreAndCoins(st'.grid).coins
              && st'.score == ScoreAndCoins(st'.grid).score
  {
    if !Chosen(offer, b, row, col) then st
    else if st.grid[row][col] != Empty then st
    else
      var g := Place(st.grid, row, col, b);
      var t := ScoreAndCoins(g);
      GameState(g, st.coins - 1 + t.coins, t.score)
  }

  /** The score on show is the score of the grid, and the grid stays 20 x 20. */
  predicate ArcadeInv(st: GameState)
  {
    IsGrid(st.grid, Side, Side) && st.score == ScoreAndCoins(st.grid).score
  }

  /**
    A turn keeps the score in step with the grid, and a turn that builds
    fills exactly one empty plot, so at most 400 turns can build.
   */
  lemma ArcadeTurnProgress(st: GameState, offer: seq<char>, b: char, row: int, col: int)
    requires IsGrid(st.grid, Side, Side) && st.coins > 0 && b != Empty
    ensures ArcadeInv(st) ==> ArcadeInv(ArcadeTurn(st, offer, b, row, col))
    ensures CountGrid(ArcadeTurn(st, offer, b, row, col).grid, Empty)
              == CountGrid(st.grid, Empty) - (if Chosen(offer, b, row, col) && TagAt(st.grid, row, col) == Empty then 1 else 0)
  {
    if Chosen(offer, b, row, col) && st.grid[row][col] == Empty {
      CountGridPlace(st.grid, row, col, b, Empty);
    }
  }
}
