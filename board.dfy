/** The Gomoku board: a fixed 19 x 19 grid whose cells are empty or hold a
    black or white stone, the legality test for a move, the placement of one
    stone, and the row-major list of empty cells used by the timeout move. */
module Board {

  /** The two players; black moves first. */
  datatype Player = Black | White

  /** One intersection of the board: `None` in the source, or a player's stone. */
  datatype Cell = Empty | Stone(owner: Player)

  /** Number of rows and of columns (`board_size`). */
  const Size: nat := 19

  /** The board as rows of cells, indexed `grid[row][col]`. */
  type Grid = seq<seq<Cell>>

  /** A grid of the fixed size. */
  predicate WellFormed(g: Grid) {
    |g| == Size && forall r :: 0 <= r < |g| ==> |g[r]| == Size
  }

  predicate InBounds(row: int, col: int) {
    0 <= row < Size && 0 <= col < Size
  }

  /** A freshly created n x n board: every cell empty. */
  function EmptyGrid(n: nat): (g: Grid)
    ensures |g| == n && forall r :: 0 <= r < n ==> |g[r]| == n
    ensures forall r, c :: 0 <= r < n && 0 <= c < n ==> g[r][c] == Empty
  {
    seq(n, _ => seq(n, _ => Empty))
  }

  /** A move at (row, col) is legal when it is on the board and the cell is free. */
  predicate IsLegal(g: Grid, row: int, col: int)
    requires WellFormed(g)
  {
    InBounds(row, col) && g[row][col] == Empty
  }

  /** The player whose turn follows `p`'s. */
  function Opponent(p: Player): (q: Player)
    ensures q != p
  {
    if p == Black then White else Black
  }

  lemma OpponentInvolution(p: Player)
    ensures Opponent(Opponent(p)) == p
  {
  }

  /** The grid with `p`'s stone written into (row, col). */
  function Place(g: Grid, row: int, col: int, p: Player): (h: Grid)
    requires WellFormed(g) && InBounds(row, col)
    ensures WellFormed(h)
    ensures h[row][col] == Stone(p)
    ensures forall r, c :: InBounds(r, c) && (r != row || c != col) ==> h[r][c] == g[r][c]
  {
    g[row := g[row][col := Stone(p)]]
  }

  /** Row-major order on positions. */
  predicate Before(p: (int, int), q: (int, int)) {
    p.0 < q.0 || (p.0 == q.0 && p.1 < q.1)
  }

  /** Strictly increasing in row-major order; in particular no position twice. */
  predicate Increasing(s: seq<(int, int)>) {
    forall i, j :: 0 <= i < j < |s| ==> Before(s[i], s[j])
  }

  lemma {:induction false} IncreasingConcat(a: seq<(int, int)>, b: seq<(int, int)>)
    requires Increasing(a) && Increasing(b)
    requires forall x, y :: x in a && y in b ==> Before(x, y)
    ensures Increasing(a + b)
  {
    forall i, j | 0 <= i < j < |a + b|
      ensures Before((a + b)[i], (a + b)[j])
    {
      if j < |a| {
        assert (a + b)[i] == a[i] && (a + b)[j] == a[j];
      } else if i < |a| {
        assert (a + b)[i] == a[i] && a[i] in a;
        assert (a + b)[j] == b[j - |a|] && b[j - |a|] in b;
      } else {
        assert (a + b)[i] == b[i - |a|] && (a + b)[j] == b[j - |a|];
      }
    }
  }

  /** The empty cells of row `r` from column `c` on, left to right, followed
      by `tail` (the cells of the later rows). */
  function EmptyInRow(g: Grid, r: int, c: int, tail: seq<(int, int)>): (s: seq<(int, int)>)
    requires WellFormed(g) && 0 <= r < Size && 0 <= c <= Size
    decreases Size - c
  {
    if c == Size then tail
    else if g[r][c] == Empty then [(r, c)] + EmptyInRow(g, r, c + 1, tail)
    else EmptyInRow(g, r, c + 1, tail)
  }

  /** The empty cells of rows `r` onwards, row after row. */
  function EmptyFrom(g: Grid, r: int): (s: seq<(int, int)>)
    requires WellFormed(g) && 0 <= r <= Size
    decreases Size - r
  {
    if r == Size then [] else EmptyInRow(g, r, 0, EmptyFrom(g, r + 1))
  }

  /** `empty_positions`: the list the timeout move chooses from. */
  function EmptyPositions(g: Grid): (s: seq<(int, int)>)
    requires WellFormed(g)
  {
    EmptyFrom(g, 0)
  }

  lemma {:induction false} EmptyInRowSpec(g: Grid, r: int, c: int, tail: seq<(int, int)>)
    requires WellFormed(g) && 0 <= r < Size && 0 <= c <= Size
    requires Increasing(tail) && forall q :: q in tail ==> q.0 > r
    ensures forall p :: p in EmptyInRow(g, r, c, tail) <==>
      (p.0 == r && c <= p.1 < Size && g[r][p.1] == Empty) || p in tail
    ensures Increasing(EmptyInRow(g, r, c, tail))
    ensures forall p :: p in EmptyInRow(g, r, c, tail) ==> p.0 > r || (p.0 == r && p.1 >= c)
    decreases Size - c
  {
    if c < Size {
      EmptyInRowSpec(g, r, c + 1, tail);
      if g[r][c] == Empty {
        IncreasingConcat([(r, c)], EmptyInRow(g, r, c + 1, tail));
      }
    }
  }

  lemma {:induction false} EmptyFromSpec(g: Grid, r: int)
    requires WellFormed(g) && 0 <= r <= Size
    ensures forall p :: p in EmptyFrom(g, r) <==> r <= p.0 < Size && 0 <= p.1 < Size && g[p.0][p.1] == Empty
    ensures Increasing(EmptyFrom(g, r))
    decreases Size - r
  {
    if r < Size {
      EmptyFromSpec(g, r + 1);
      EmptyInRowSpec(g, r, 0, EmptyFrom(g, r + 1));
    }
  }

  /** The empty-cell list holds exactly the legal moves, each once, rows
      then columns. */
  lemma EmptyPositionsSpec(g: Grid)
    requires WellFormed(g)
    ensures forall p :: p in EmptyPositions(g) <==> IsLegal(g, p.0, p.1)
    ensures Increasing(EmptyPositions(g))
  {
    EmptyFromSpec(g, 0);
  }

  /** Every legal move appears in the empty-cell list. */
  lemma LegalIsListed(g: Grid, row: int, col: int)
    requires WellFormed(g) && IsLegal(g, row, col)
    ensures (row, col) in EmptyPositions(g)
  {
    EmptyPositionsSpec(g);
  }

  /** Every entry of the empty-cell list is a legal move. */
  lemma ListedIsLegal(g: Grid, i: int)
    requires WellFormed(g) && 0 <= i < |EmptyPositions(g)|
    ensures IsLegal(g, EmptyPositions(g)[i].0, EmptyPositions(g)[i].1)
  {
    EmptyPositionsSpec(g);
    assert EmptyPositions(g)[i] in EmptyPositions(g);
  }
}
