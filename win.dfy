/** Win detection. From the stone at (row, col) the engine counts, along each
    of four axes and in both senses, the cells that follow it one after
    another, lie on the board and hold the same value; each count stops at
    the first cell that fails and never goes past four steps. The stone wins
    when 1 + forward + backward reaches five on some axis.

    A direction is written (dx, dy) as in the source: dx moves the column and
    dy the row, so step k from (row, col) is (row + k * dy, col + k * dx). */
module WinCheck {
  import opened Board

  /** Stones needed in a line. */
  const WinLength: nat := 5

  /** Steps counted on each side of the placed stone. */
  const MaxSteps: nat := 4

  /** The four axes: horizontal, vertical, and the two diagonals. */
  const Directions: seq<(int, int)> := [(1, 0), (0, 1), (1, 1), (1, -1)]

  /** Step k from (row, col) along (dx, dy) is on the board and holds the same
      value as (row, col). */
  predicate SameAt(g: Grid, row: int, col: int, dx: int, dy: int, k: int)
    requires WellFormed(g) && InBounds(row, col)
  {
    InBounds(row + k * dy, col + k * dx) && g[row + k * dy][col + k * dx] == g[row][col]
  }

  /** `n` is the capped count: steps 1..n match, and unless the cap was hit
      step n + 1 does not. */
  predicate IsRun(g: Grid, row: int, col: int, dx: int, dy: int, n: int)
    requires WellFormed(g) && InBounds(row, col)
  {
    0 <= n <= MaxSteps
    && (forall k :: 1 <= k <= n ==> SameAt(g, row, col, dx, dy, k))
    && (n < MaxSteps ==> !SameAt(g, row, col, dx, dy, n + 1))
  }

  /** Number of consecutive matching steps from step k up to step `limit`. */
  function RunFrom(g: Grid, row: int, col: int, dx: int, dy: int, k: int, limit: int): (n: nat)
    requires WellFormed(g) && InBounds(row, col) && 1 <= k <= limit + 1
    decreases limit + 1 - k
  {
    if k > limit then 0
    else if SameAt(g, row, col, dx, dy, k) then 1 + RunFrom(g, row, col, dx, dy, k + 1, limit)
    else 0
  }

  /** The steps counted from k match, and the count stops either at `limit`
      or at the first step that does not match. */
  lemma {:induction false} RunFromSpec(g: Grid, row: int, col: int, dx: int, dy: int, k: int, limit: int)
    requires WellFormed(g) && InBounds(row, col) && 1 <= k <= limit + 1
    ensures var n := RunFrom(g, row, col, dx, dy, k, limit);
      n <= limit + 1 - k
      && (forall j :: k <= j < k + n ==> SameAt(g, row, col, dx, dy, j))
      && (k + n <= limit ==> !SameAt(g, row, col, dx, dy, k + n))
    decreases limit + 1 - k
  {
    if k <= limit && SameAt(g, row, col, dx, dy, k) {
      RunFromSpec(g, row, col, dx, dy, k + 1, limit);
    }
  }

  /** The count `count_stones` returns. */
  function Run(g: Grid, row: int, col: int, dx: int, dy: int): (n: nat)
    requires WellFormed(g) && InBounds(row, col)
    ensures IsRun(g, row, col, dx, dy, n)
  {
    RunFromSpec(g, row, col, dx, dy, 1, MaxSteps);
    RunFrom(g, row, col, dx, dy, 1, MaxSteps)
  }

  /** The capped count is the only number with its defining property. */
  lemma RunUnique(g: Grid, row: int, col: int, dx: int, dy: int, n: int)
    requires WellFormed(g) && InBounds(row, col)
    requires IsRun(g, row, col, dx, dy, n)
    ensures n == Run(g, row, col, dx, dy)
  {
  }

  /** The axis through `d` completes a line for the stone at (row, col). */
  predicate WinsAlong(g: Grid, row: int, col: int, d: (int, int))
    requires WellFormed(g) && InBounds(row, col)
  {
    1 + Run(g, row, col, d.0, d.1) + Run(g, row, col, -d.0, -d.1) >= WinLength
  }

  /** `check_winner`'s answer for the stone at (row, col). */
  predicate IsWin(g: Grid, row: int, col: int)
    requires WellFormed(g) && InBounds(row, col)
  {
    exists i :: 0 <= i < |Directions| && WinsAlong(g, row, col, Directions[i])
  }

  /** Steps lo..hi along (dx, dy) all hold the value at (row, col). */
  predicate Segment(g: Grid, row: int, col: int, dx: int, dy: int, lo: int, hi: int)
    requires WellFormed(g) && InBounds(row, col)
  {
    forall k :: lo <= k <= hi ==> SameAt(g, row, col, dx, dy, k)
  }

  /** There really is a contiguous line of at least five equal cells along
      (dx, dy) through (row, col), of any length (overlines included). */
  ghost predicate HasLine(g: Grid, row: int, col: int, dx: int, dy: int)
    requires WellFormed(g) && InBounds(row, col)
  {
    exists lo, hi :: lo <= 0 <= hi && hi - lo + 1 >= WinLength && Segment(g, row, col, dx, dy, lo, hi)
  }

  /** Stepping k times backwards is stepping -k times forwards. */
  lemma SameAtFlip(g: Grid, row: int, col: int, dx: int, dy: int, k: int)
    requires WellFormed(g) && InBounds(row, col)
    ensures SameAt(g, row, col, -dx, -dy, k) == SameAt(g, row, col, dx, dy, -k)
  {
    assert k * -dy == -k * dy && k * -dx == -k * dx;
  }

  /** When the first m steps all match, the capped count is at least m or the cap. */
  lemma RunAtLeast(g: Grid, row: int, col: int, dx: int, dy: int, m: int)
    requires WellFormed(g) && InBounds(row, col)
    requires forall k :: 1 <= k <= m ==> SameAt(g, row, col, dx, dy, k)
    ensures Run(g, row, col, dx, dy) >= m || Run(g, row, col, dx, dy) == MaxSteps
  {
  }

  /** Step 0 is the cell itself. */
  lemma SameAtZero(g: Grid, row: int, col: int, dx: int, dy: int)
    requires WellFormed(g) && InBounds(row, col)
    ensures SameAt(g, row, col, dx, dy, 0)
  {
    assert row + 0 * dy == row && col + 0 * dx == col;
  }

  /** The cells counted backwards and forwards, with the cell itself, form
      one segment along (dx, dy). */
  lemma RunsFormSegment(g: Grid, row: int, col: int, dx: int, dy: int)
    requires WellFormed(g) && InBounds(row, col)
    ensures Segment(g, row, col, dx, dy, -(Run(g, row, col, -dx, -dy) as int), Run(g, row, col, dx, dy))
  {
    var fwd: int := Run(g, row, col, dx, dy);
    var bwd: int := Run(g, row, col, -dx, -dy);
    forall k | -bwd <= k <= fwd
      ensures SameAt(g, row, col, dx, dy, k)
    {
      if k < 0 {
        SameAtFlip(g, row, col, dx, dy, -k);
      } else if k == 0 {
        SameAtZero(g, row, col, dx, dy);
      }
    }
  }

  /** The capped counts on one axis reaching five exhibit a real line:
      no line is invented. */
  lemma WinsAlongGivesLine(g: Grid, row: int, col: int, dx: int, dy: int)
    requires WellFormed(g) && InBounds(row, col)
    requires WinsAlong(g, row, col, (dx, dy))
    ensures HasLine(g, row, col, dx, dy)
  {
    RunsFormSegment(g, row, col, dx, dy);
    var lo, hi := -(Run(g, row, col, -dx, -dy) as int), Run(g, row, col, dx, dy);
    assert lo <= 0 <= hi && hi - lo + 1 >= WinLength;
  }

  /** Counting either way along a segment through the cell reaches the
      segment's end or the cap. */
  lemma SegmentGivesRuns(g: Grid, row: int, col: int, dx: int, dy: int, lo: int, hi: int)
    requires WellFormed(g) && InBounds(row, col)
    requires lo <= 0 <= hi && Segment(g, row, col, dx, dy, lo, hi)
    ensures Run(g, row, col, dx, dy) >= hi || Run(g, row, col, dx, dy) == MaxSteps
    ensures Run(g, row, col, -dx, -dy) >= -lo || Run(g, row, col, -dx, -dy) == MaxSteps
  {
    RunAtLeast(g, row, col, dx, dy, hi);
    var ex, ey := -dx, -dy;
    forall k | 1 <= k <= -lo
      ensures SameAt(g, row, col, ex, ey, k)
    {
      SameAtFlip(g, row, col, dx, dy, k);
    }
    RunAtLeast(g, row, col, ex, ey, -lo);
  }

  /** A real line of five or more on one axis, overlines included, makes the
      capped counts reach five: the cap of four steps per side hides none. */
  lemma LineGivesWinsAlong(g: Grid, row: int, col: int, dx: int, dy: int)
    requires WellFormed(g) && InBounds(row, col)
    requires HasLine(g, row, col, dx, dy)
    ensures WinsAlong(g, row, col, (dx, dy))
  {
    var lo, hi :| lo <= 0 <= hi && hi - lo + 1 >= WinLength && Segment(g, row, col, dx, dy, lo, hi);
    SegmentGivesRuns(g, row, col, dx, dy, lo, hi);
  }

  /** `check_winner` is true exactly when some axis carries a contiguous line
      of five or more equal cells through (row, col). */
  lemma WinIffLine(g: Grid, row: int, col: int)
    requires WellFormed(g) && InBounds(row, col)
    ensures IsWin(g, row, col) <==>
      exists i :: 0 <= i < |Directions| && HasLine(g, row, col, Directions[i].0, Directions[i].1)
  {
    forall i | 0 <= i < |Directions|
      ensures WinsAlong(g, row, col, Directions[i]) <==> HasLine(g, row, col, Directions[i].0, Directions[i].1)
    {
      var (dx, dy) := Directions[i];
      if WinsAlong(g, row, col, (dx, dy)) {
        WinsAlongGivesLine(g, row, col, dx, dy);
      }
      if HasLine(g, row, col, dx, dy) {
        LineGivesWinsAlong(g, row, col, dx, dy);
      }
    }
  }

  /** A matching step away from (row, col) is another cell with the same value. */
  lemma StepGivesNeighbour(g: Grid, row: int, col: int, dx: int, dy: int)
    requires WellFormed(g) && InBounds(row, col)
    requires (dx != 0 || dy != 0) && SameAt(g, row, col, dx, dy, 1)
    ensures exists r, c :: InBounds(r, c) && (r != row || c != col) && g[r][c] == g[row][col]
  {
    var r, c := row + 1 * dy, col + 1 * dx;
    assert InBounds(r, c) && (r != row || c != col) && g[r][c] == g[row][col];
  }

  /** Counts adding up to five along a proper axis need a second cell with
      the same value, one step away on one side or the other. */
  lemma WinsAlongGivesNeighbour(g: Grid, row: int, col: int, dx: int, dy: int)
    requires WellFormed(g) && InBounds(row, col)
    requires (dx != 0 || dy != 0) && WinsAlong(g, row, col, (dx, dy))
    ensures exists r, c :: InBounds(r, c) && (r != row || c != col) && g[r][c] == g[row][col]
  {
    if Run(g, row, col, dx, dy) >= 1 {
      StepGivesNeighbour(g, row, col, dx, dy);
    } else {
      StepGivesNeighbour(g, row, col, -dx, -dy);
    }
  }

  /** None of the four axes is the null step. */
  lemma DirectionsProper(i: int)
    requires 0 <= i < |Directions|
    ensures Directions[i].0 != 0 || Directions[i].1 != 0
  {
    assert i == 0 || i == 1 || i == 2 || i == 3;
  }

  /** A win needs a second stone of the same colour next to the placed one. */
  lemma WinHasNeighbour(g: Grid, row: int, col: int)
    requires WellFormed(g) && InBounds(row, col)
    requires IsWin(g, row, col)
    ensures exists r, c :: InBounds(r, c) && (r != row || c != col) && g[r][c] == g[row][col]
  {
    var i :| 0 <= i < |Directions| && WinsAlong(g, row, col, Directions[i]);
    DirectionsProper(i);
    WinsAlongGivesNeighbour(g, row, col, Directions[i].0, Directions[i].1);
  }

  /** Five equal cells side by side in one row, the stone among them, win;
      this holds inside a longer run too, so overlines win. */
  lemma RowOfFiveWins(g: Grid, row: int, col: int, first: int)
    requires WellFormed(g) && InBounds(row, col)
    requires first <= col < first + WinLength
    requires forall j :: first <= j < first + WinLength ==> InBounds(row, j) && g[row][j] == g[row][col]
    ensures IsWin(g, row, col)
  {
    var lo, hi := first - col, first + WinLength - 1 - col;
    forall k | lo <= k <= hi
      ensures SameAt(g, row, col, 1, 0, k)
    {
      var j := col + k;
      assert row + k * 0 == row && col + k * 1 == j;
      assert first <= j < first + WinLength;
      assert InBounds(row, j) && g[row][j] == g[row][col];
    }
    assert Segment(g, row, col, 1, 0, lo, hi);
    LineGivesWinsAlong(g, row, col, 1, 0);
    assert WinsAlong(g, row, col, Directions[0]);
  }
}
