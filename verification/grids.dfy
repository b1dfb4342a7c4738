/**
  The city grid: rows of single-character cell tags, with 'P' marking an
  empty plot, and the orthogonal neighbourhood of a cell.
 */
module Grids {
  import opened Sums

  type Grid = seq<seq<char>>

  /** What one scoring pass over a grid yields: points, and coins generated. */
  datatype Tally = Tally(score: int, coins: int)

  /** The tag of an empty plot. */
  const Empty: char := 'P'

  /** The default bounds of get_adjacent_positions, and the arcade grid size. */
  const Side: nat := 20

  /** g has exactly `rows` rows of exactly `cols` cells each. */
  predicate IsGrid(g: Grid, rows: nat, cols: nat)
  {
    |g| == rows && forall r :: 0 <= r < rows ==> |g[r]| == cols
  }

  /** A rectangular grid with at least one row, so that `len(grid[0])` is defined. */
  predicate WellFormed(g: Grid)
  {
    |g| >= 1 && IsGrid(g, |g|, |g[0]|)
  }

  /** The tag at (r, c), reading outside the grid as an empty plot. */
  function TagAt(g: Grid, r: int, c: int): char
  {
    if 0 <= r < |g| && 0 <= c < |g[r]| then g[r][c] else Empty
  }

  predicate AllEmpty(g: Grid)
  {
    forall r, c :: 0 <= r < |g| && 0 <= c < |g[r]| ==> g[r][c] == Empty
  }

  /** A rows x cols grid of empty plots. */
  function EmptyGrid(rows: nat, cols: nat): (g: Grid)
    ensures IsGrid(g, rows, cols)
    ensures AllEmpty(g)
  {
    seq(rows, _ => seq(cols, _ => Empty))
  }

  /** The grid after `grid[row][col] = b`. */
  function Place(g: Grid, row: int, col: int, b: char): (g': Grid)
    requires 0 <= row < |g| && 0 <= col < |g[row]|
    ensures |g'| == |g|
    ensures forall r :: 0 <= r < |g| ==> |g'[r]| == |g[r]|
    ensures forall r, c :: 0 <= r < |g| && 0 <= c < |g[r]| ==>
              g'[r][c] == (if r == row && c == col then b else g[r][c])
  {
    g[row := g[row][col := b]]
  }

  // ---------------------------------------------------------------------
  // Counting tags

  /** The number of occurrences of t in s (Python's `s.count(t)`). */
  function Count(s: seq<char>, t: char): nat
  {
    if |s| == 0 then 0 else Count(s[..|s| - 1], t) + (if s[|s| - 1] == t then 1 else 0)
  }

  /** The number of cells tagged t, row by row (`sum(row.count(t) for row in grid)`). */
  function CountGrid(g: Grid, t: char): nat
  {
    if |g| == 0 then 0 else CountGrid(g[..|g| - 1], t) + Count(g[|g| - 1], t)
  }

  lemma {:induction false} CountBounds(s: seq<char>, t: char)
    ensures Count(s, t) <= |s|
    ensures Count(s, t) > 0 <==> t in s
  {
    if |s| > 0 {
      CountBounds(s[..|s| - 1], t);
      assert s == s[..|s| - 1] + [s[|s| - 1]];
    }
  }

  lemma {:induction false} CountAppend(a: seq<char>, b: seq<char>, t: char)
    ensures Count(a + b, t) == Count(a, t) + Count(b, t)
  {
    if |b| > 0 {
      assert (a + b)[..|a + b| - 1] == a + b[..|b| - 1];
      CountAppend(a, b[..|b| - 1], t);
    } else {
      assert a + b == a;
    }
  }

  /** Overwriting one cell moves one occurrence from the old tag to the new one. */
  lemma CountUpdate(s: seq<char>, i: int, b: char, t: char)
    requires 0 <= i < |s|
    ensures Count(s[i := b], t) == Count(s, t) - (if s[i] == t then 1 else 0) + (if b == t then 1 else 0)
  {
    var front, back := s[..i], s[i + 1..];
    assert s == front + [s[i]] + back;
    assert s[i := b] == front + [b] + back;
    CountAppend(front + [s[i]], back, t);
    CountAppend(front, [s[i]], t);
    CountAppend(front + [b], back, t);
    CountAppend(front, [b], t);
    assert [s[i]][..0] == [] && [b][..0] == [];
  }

  /** Placing b on one cell changes the grid's count of t only through that cell. */
  lemma {:induction false} CountGridPlace(g: Grid, row: int, col: int, b: char, t: char)
    requires 0 <= row < |g| && 0 <= col < |g[row]|
    ensures CountGrid(Place(g, row, col, b), t) == CountGrid(g, t) - (if g[row][col] == t then 1 else 0) + (if b == t then 1 else 0)
  {
    var g' := Place(g, row, col, b);
    var last := |g| - 1;
    if row == last {
      assert g'[..last] == g[..last];
      CountUpdate(g[row], col, b, t);
    } else {
      assert g'[..last] == Place(g[..last], row, col, b);
      assert g'[last] == g[last];
      CountGridPlace(g[..last], row, col, b, t);
    }
  }

  /** A grid with no cell tagged t counts zero of them, and conversely. */
  lemma {:induction false} CountGridZero(g: Grid, t: char)
    ensures CountGrid(g, t) == 0 <==> forall r, c :: 0 <= r < |g| && 0 <= c < |g[r]| ==> g[r][c] != t
  {
    if |g| > 0 {
      var last := g[|g| - 1];
      CountGridZero(g[..|g| - 1], t);
      CountBounds(last, t);
      if CountGrid(g, t) == 0 {
        forall r, c | 0 <= r < |g| && 0 <= c < |g[r]| ensures g[r][c] != t {
          if r < |g| - 1 {
            assert g[r] == g[..|g| - 1][r];
          } else {
            assert g[r][c] in last;
          }
        }
      } else if Count(last, t) > 0 {
        var c :| 0 <= c < |last| && last[c] == t;
        assert g[|g| - 1][c] == t;
      } else {
        var r, c :| 0 <= r < |g| - 1 && 0 <= c < |g[..|g| - 1][r]| && g[..|g| - 1][r][c] == t;
        assert g[r][c] == t;
      }
    }
  }

  /** A grid is all empty plots exactly when it counts none of any building tag. */
  lemma AllEmptyNoBuildings(g: Grid)
    ensures AllEmpty(g) <==> forall t :: t != Empty ==> CountGrid(g, t) == 0
  {
    if AllEmpty(g) {
      forall t | t != Empty ensures CountGrid(g, t) == 0 {
        CountGridZero(g, t);
      }
    } else {
      var r, c :| 0 <= r < |g| && 0 <= c < |g[r]| && g[r][c] != Empty;
      CountGridZero(g, g[r][c]);
    }
  }

  /**
    A row whose cells contribute k when tagged t and nothing otherwise sums
    to k times the row's count of t.
   */
  lemma {:induction false} RowSumIndicator(f: (int, int) -> int, s: seq<char>, t: char, k: int, r: int, n: nat)
    requires n <= |s|
    requires forall c :: 0 <= c < n ==> f(r, c) == (if s[c] == t then k else 0)
    ensures RowSum(f, r, n) == k * Count(s[..n], t)
  {
    if n > 0 {
      RowSumIndicator(f, s, t, k, r, n - 1);
      assert s[..n][..n - 1] == s[..n - 1];
      calc {
        RowSum(f, r, n);
        k * Count(s[..n - 1], t) + f(r, n - 1);
        k * Count(s[..n - 1], t) + k * (if s[n - 1] == t then 1 else 0);
        k * (Count(s[..n - 1], t) + (if s[n - 1] == t then 1 else 0));
        k * Count(s[..n], t);
      }
    } else {
      assert s[..0] == [];
    }
  }

  /**
    A grid whose cells contribute k when tagged t and nothing otherwise sums
    to k times the grid's count of t.
   */
  lemma {:induction false} GridSumIndicator(f: (int, int) -> int, g: Grid, t: char, k: int, m: nat, n: nat)
    requires m <= |g|
    requires forall r :: 0 <= r < m ==> |g[r]| == n
    requires forall r, c :: 0 <= r < m && 0 <= c < n ==> f(r, c) == (if g[r][c] == t then k else 0)
    ensures GridSum(f, m, n) == k * CountGrid(g[..m], t)
  {
    if m > 0 {
      var last := m - 1;
      GridSumIndicator(f, g, t, k, last, n);
      RowSumIndicator(f, g[last], t, k, last, n);
      assert g[last][..n] == g[last];
      CountGridPrefix(g, t, m);
      Distribute(k, CountGrid(g[..last], t), Count(g[last], t));
    }
  }

  /** Counting over the first m rows adds the count of row m - 1 to the count over the rows before it. */
  lemma CountGridPrefix(g: Grid, t: char, m: nat)
    requires 0 < m <= |g|
    ensures CountGrid(g[..m], t) == CountGrid(g[..m - 1], t) + Count(g[m - 1], t)
  {
    assert g[..m][..m - 1] == g[..m - 1];
  }

  lemma Distribute(k: int, a: int, b: int)
    ensures k * a + k * b == k * (a + b)
  {
  }

  /** Each cell tagged t contributes k, every other cell nothing. */
  function TagFn(g: Grid, t: char, k: int): (int, int) -> int
  {
    (r, c) => if TagAt(g, r, c) == t then k else 0
  }

  /** Summing TagFn over a grid counts its cells tagged t, k apiece. */
  lemma {:induction false} TagSum(g: Grid, t: char, k: int, rows: nat, cols: nat)
    requires IsGrid(g, rows, cols)
    ensures GridSum(TagFn(g, t, k), rows, cols) == k * CountGrid(g, t)
  {
    GridSumIndicator(TagFn(g, t, k), g, t, k, rows, cols);
    assert g[..rows] == g;
  }

  // ---------------------------------------------------------------------
  // Neighbourhoods

  datatype Pos = Pos(row: int, col: int)

  predicate InBounds(p: Pos, rows: int, cols: int)
  {
    0 <= p.row < rows && 0 <= p.col < cols
  }

  function Abs(x: int): nat
  {
    if x < 0 then -x else x
  }

  /** p and q are orthogonal neighbours: at Manhattan distance 1. */
  predicate Adjacent(p: Pos, q: Pos)
  {
    Abs(p.row - q.row) + Abs(p.col - q.col) == 1
  }

  /** The rank of p in the probing order up, down, left, right around o; 4 when p is not a neighbour. */
  function Direction(o: Pos, p: Pos): nat
  {
    if p == Pos(o.row - 1, o.col) then 0
    else if p == Pos(o.row + 1, o.col) then 1
    else if p == Pos(o.row, o.col - 1) then 2
    else if p == Pos(o.row, o.col + 1) then 3
    else 4
  }

  function Keep(p: Pos, rows: int, cols: int): seq<Pos>
  {
    if InBounds(p, rows, cols) then [p] else []
  }

  /**
    get_adjacent_positions: the orthogonal neighbours of (row, col) inside
    [0, rows) x [0, cols), probed in the order up, down, left, right.
   */
  function AdjacentPositions(row: int, col: int, rows: int, cols: int): (ps: seq<Pos>)
    ensures |ps| <= 4
    ensures forall p :: p in ps <==> InBounds(p, rows, cols) && Adjacent(p, Pos(row, col))
    ensures forall i, j :: 0 <= i < j < |ps| ==> Direction(Pos(row, col), ps[i]) < Direction(Pos(row, col), ps[j])
  {
    var o := Pos(row, col);
    var up, down, left, right := Pos(row - 1, col), Pos(row + 1, col), Pos(row, col - 1), Pos(row, col + 1);
    assert Direction(o, up) == 0 && Direction(o, down) == 1 && Direction(o, left) == 2 && Direction(o, right) == 3;
    assert forall p :: Adjacent(p, o) <==> p == up || p == down || p == left || p == right;
    Keep(up, rows, cols) + Keep(down, rows, cols) + Keep(left, rows, cols) + Keep(right, rows, cols)
  }

  /** An interior cell has four neighbours, a corner cell two, the cell of a 1 x 1 grid none. */
  lemma NeighbourhoodSize(row: int, col: int, rows: int, cols: int)
    requires InBounds(Pos(row, col), rows, cols)
    ensures 0 < row < rows - 1 && 0 < col < cols - 1 ==> |AdjacentPositions(row, col, rows, cols)| == 4
    ensures (rows >= 2 && cols >= 2 && (row == 0 || row == rows - 1) && (col == 0 || col == cols - 1))
            ==> |AdjacentPositions(row, col, rows, cols)| == 2
    ensures rows == 1 && cols == 1 ==> AdjacentPositions(row, col, rows, cols) == []
  {
  }

  /** The tags found at the positions ps, in order. */
  function TagsOf(g: Grid, ps: seq<Pos>): seq<char>
  {
    seq(|ps|, i requires 0 <= i < |ps| => TagAt(g, ps[i].row, ps[i].col))
  }

  /** The tag one step away at p, as a list of one tag, or an empty list when p is outside the grid. */
  function Look(g: Grid, p: Pos, rows: int, cols: int): seq<char>
  {
    if InBounds(p, rows, cols) then [TagAt(g, p.row, p.col)] else []
  }

  /**
    `[grid[r][c] for r, c in get_adjacent_positions(row, col, rows, cols)]`,
    written direction by direction; NeighbourTagsMatchPositions shows it is
    the list built from AdjacentPositions.
   */
  function NeighbourTags(g: Grid, row: int, col: int, rows: int, cols: int): seq<char>
  {
    Look(g, Pos(row - 1, col), rows, cols) + Look(g, Pos(row + 1, col), rows, cols)
      + Look(g, Pos(row, col - 1), rows, cols) + Look(g, Pos(row, col + 1), rows, cols)
  }

  lemma TagsOfAppend(g: Grid, a: seq<Pos>, b: seq<Pos>)
    ensures TagsOf(g, a + b) == TagsOf(g, a) + TagsOf(g, b)
  {
  }

  lemma TagsOfKeep(g: Grid, p: Pos, rows: int, cols: int)
    ensures TagsOf(g, Keep(p, rows, cols)) == Look(g, p, rows, cols)
  {
  }

  /** The neighbour list holds, in order, the tags at the positions get_adjacent_positions returns. */
  lemma NeighbourTagsMatchPositions(g: Grid, row: int, col: int, rows: int, cols: int)
    ensures NeighbourTags(g, row, col, rows, cols) == TagsOf(g, AdjacentPositions(row, col, rows, cols))
  {
    var up, down, left, right := Pos(row - 1, col), Pos(row + 1, col), Pos(row, col - 1), Pos(row, col + 1);
    var a, b, c, d := Keep(up, rows, cols), Keep(down, rows, cols), Keep(left, rows, cols), Keep(right, rows, cols);
    assert AdjacentPositions(row, col, rows, cols) == a + b + c + d;
    TagsOfAppend(g, a + b + c, d);
    TagsOfAppend(g, a + b, c);
    TagsOfAppend(g, a, b);
    TagsOfKeep(g, up, rows, cols);
    TagsOfKeep(g, down, rows, cols);
    TagsOfKeep(g, left, rows, cols);
    TagsOfKeep(g, right, rows, cols);
  }

  function Hit(g: Grid, p: Pos, rows: int, cols: int, t: char): nat
  {
    if InBounds(p, rows, cols) && TagAt(g, p.row, p.col) == t then 1 else 0
  }

  /**
    The number of in-bounds orthogonal neighbours of (row, col) tagged t,
    counted direction by direction; the reference the list-based
    `adjacent_buildings.count(t)` is proved against.
   */
  function NeighbourCount(g: Grid, row: int, col: int, rows: int, cols: int, t: char): nat
  {
    Hit(g, Pos(row - 1, col), rows, cols, t) + Hit(g, Pos(row + 1, col), rows, cols, t)
      + Hit(g, Pos(row, col - 1), rows, cols, t) + Hit(g, Pos(row, col + 1), rows, cols, t)
  }

  lemma {:induction false} LookCount(g: Grid, p: Pos, rows: int, cols: int, t: char)
    ensures Count(Look(g, p, rows, cols), t) == Hit(g, p, rows, cols, t)
  {
    if InBounds(p, rows, cols) {
      assert [TagAt(g, p.row, p.col)][..0] == [];
    }
  }

  /** Counting a tag in the neighbour list agrees with counting it direction by direction. */
  lemma {:induction false} NeighbourCountAgrees(g: Grid, row: int, col: int, rows: int, cols: int, t: char)
    ensures Count(NeighbourTags(g, row, col, rows, cols), t) == NeighbourCount(g, row, col, rows, cols, t)
    ensures t in NeighbourTags(g, row, col, rows, cols) <==> NeighbourCount(g, row, col, rows, cols, t) > 0
  {
    var up, down, left, right := Pos(row - 1, col), Pos(row + 1, col), Pos(row, col - 1), Pos(row, col + 1);
    var ta, tb := Look(g, up, rows, cols), Look(g, down, rows, cols);
    var tc, td := Look(g, left, rows, cols), Look(g, right, rows, cols);
    CountAppend(ta + tb + tc, td, t);
    CountAppend(ta + tb, tc, t);
    CountAppend(ta, tb, t);
    LookCount(g, up, rows, cols, t);
    LookCount(g, down, rows, cols, t);
    LookCount(g, left, rows, cols, t);
    LookCount(g, right, rows, cols, t);
    CountBounds(NeighbourTags(g, row, col, rows, cols), t);
  }

  /**
    Some neighbour in the list carries a tag other than t exactly when some
    in-bounds orthogonal neighbour of (row, col) does.
   */
  lemma NeighbourOtherThan(g: Grid, row: int, col: int, rows: int, cols: int, t: char)
    ensures (exists i :: 0 <= i < |NeighbourTags(g, row, col, rows, cols)| && NeighbourTags(g, row, col, rows, cols)[i] != t)
        <==> (exists p :: InBounds(p, rows, cols) && Adjacent(p, Pos(row, col)) && TagAt(g, p.row, p.col) != t)
  {
    var ps := AdjacentPositions(row, col, rows, cols);
    var ts := NeighbourTags(g, row, col, rows, cols);
    NeighbourTagsMatchPositions(g, row, col, rows, cols);
    if p :| InBounds(p, rows, cols) && Adjacent(p, Pos(row, col)) && TagAt(g, p.row, p.col) != t {
      assert p in ps;
      var i :| 0 <= i < |ps| && ps[i] == p;
      assert ts[i] != t;
    }
    if i :| 0 <= i < |ts| && ts[i] != t {
      assert ps[i] in ps;
    }
  }

  /**
    `b` grows `a` when both have the same length and every entry of `a`
    is either kept in `b` or was an empty plot.
   */
  predicate Grows(a: seq<char>, b: seq<char>)
  {
    |a| == |b| && forall i :: 0 <= i < |a| ==> a[i] == b[i] || a[i] == Empty
  }

  /** Filling empty plots never lowers the count of a building tag, nor removes one. */
  lemma {:induction false} CountGrows(a: seq<char>, b: seq<char>, t: char)
    requires Grows(a, b)
    requires t != Empty
    ensures Count(a, t) <= Count(b, t)
    ensures t in a ==> t in b
  {
    if |a| > 0 {
      CountGrows(a[..|a| - 1], b[..|b| - 1], t);
    }
    if t in a {
      var i :| 0 <= i < |a| && a[i] == t;
      assert b[i] == t;
    }
  }

  lemma GrowsAppend(a: seq<char>, b: seq<char>, a': seq<char>, b': seq<char>)
    requires Grows(a, a') && Grows(b, b')
    ensures Grows(a + b, a' + b')
  {
    forall i | 0 <= i < |a + b| ensures (a + b)[i] == (a' + b')[i] || (a + b)[i] == Empty {
      if i >= |a| {
        assert (a + b)[i] == b[i - |a|] && (a' + b')[i] == b'[i - |a|];
      }
    }
  }

  /** One step in one direction finds the same tag after building on an empty plot, or finds that plot. */
  lemma LookGrows(g: Grid, row: int, col: int, b: char, p: Pos, rows: int, cols: int)
    requires 0 <= row < |g| && 0 <= col < |g[row]|
    requires g[row][col] == Empty
    ensures Grows(Look(g, p, rows, cols), Look(Place(g, row, col, b), p, rows, cols))
  {
  }

  /** Building on an empty plot grows every cell's neighbour list. */
  lemma PlaceGrowsNeighbours(g: Grid, row: int, col: int, b: char, r: int, c: int, rows: int, cols: int)
    requires 0 <= row < |g| && 0 <= col < |g[row]|
    requires g[row][col] == Empty
    ensures Grows(NeighbourTags(g, r, c, rows, cols), NeighbourTags(Place(g, row, col, b), r, c, rows, cols))
  {
    var g' := Place(g, row, col, b);
    var up, down, left, right := Pos(r - 1, c), Pos(r + 1, c), Pos(r, c - 1), Pos(r, c + 1);
    LookGrows(g, row, col, b, up, rows, cols);
    LookGrows(g, row, col, b, down, rows, cols);
    LookGrows(g, row, col, b, left, rows, cols);
    LookGrows(g, row, col, b, right, rows, cols);
    var a, a' := Look(g, up, rows, cols), Look(g', up, rows, cols);
    GrowsAppend(a, Look(g, down, rows, cols), a', Look(g', down, rows, cols));
    a, a' := a + Look(g, down, rows, cols), a' + Look(g', down, rows, cols);
    GrowsAppend(a, Look(g, left, rows, cols), a', Look(g', left, rows, cols));
    a, a' := a + Look(g, left, rows, cols), a' + Look(g', left, rows, cols);
    GrowsAppend(a, Look(g, right, rows, cols), a', Look(g', right, rows, cols));
  }

  /**
    Building on an empty plot never lowers the number of neighbours of a
    cell that carry a building tag t.
   */
  lemma NeighbourCountGrows(g: Grid, row: int, col: int, b: char, r: int, c: int, rows: int, cols: int, t: char)
    requires 0 <= row < |g| && 0 <= col < |g[row]|
    requires g[row][col] == Empty && t != Empty
    ensures NeighbourCount(g, r, c, rows, cols, t) <= NeighbourCount(Place(g, row, col, b), r, c, rows, cols, t)
  {
    var g' := Place(g, row, col, b);
    PlaceGrowsNeighbours(g, row, col, b, r, c, rows, cols);
    CountGrows(NeighbourTags(g, r, c, rows, cols), NeighbourTags(g', r, c, rows, cols), t);
    NeighbourCountAgrees(g, r, c, rows, cols, t);
    NeighbourCountAgrees(g', r, c, rows, cols, t);
  }
}
