/**
 The pure specification of one generation of the automaton: a square grid of
 integer cells, the clipped eight-neighbour count, the birth/survival rule, the
 synchronous step `Next` and its n-fold iteration `Iterate`.
 */
module Life {

  /** A grid is addressed row-major, `g[row][col]`, 0-indexed. */
  type Grid = seq<seq<int>>

  /** Every row has as many cells as there are rows. */
  predicate Square(g: Grid) {
    forall r :: 0 <= r < |g| ==> |g[r]| == |g|
  }

  /** Every cell is dead (0) or alive (1). */
  predicate Binary(g: Grid)
    requires Square(g)
  {
    forall r, c :: 0 <= r < |g| && 0 <= c < |g| ==> g[r][c] == 0 || g[r][c] == 1
  }

  predicate InBounds(n: int, r: int, c: int) {
    0 <= r < n && 0 <= c < n
  }

  /** The value at (r, c), or 0 for a position outside the grid (clipped, not wrapped). */
  function At(g: Grid, r: int, c: int): int
    requires Square(g)
  {
    if InBounds(|g|, r, c) then g[r][c] else 0
  }

  /** The eight positions around (r, c); those at an edge or corner of the grid lie outside it. */
  function NeighbourPositions(r: int, c: int): (ps: seq<(int, int)>)
    ensures |ps| == 8
    ensures forall k, l :: 0 <= k < l < 8 ==> ps[k] != ps[l]
    ensures forall k :: 0 <= k < 8 ==> ps[k] != (r, c)
    ensures forall k :: 0 <= k < 8 ==> r - 1 <= ps[k].0 <= r + 1 && c - 1 <= ps[k].1 <= c + 1
  {
    [(r - 1, c - 1), (r - 1, c), (r - 1, c + 1),
     (r, c - 1),                 (r, c + 1),
     (r + 1, c - 1), (r + 1, c), (r + 1, c + 1)]
  }

  /** Sum of the values at ps; a position outside the grid adds nothing. */
  function SumAt(g: Grid, ps: seq<(int, int)>): int
    requires Square(g)
  {
    if ps == [] then 0 else At(g, ps[0].0, ps[0].1) + SumAt(g, ps[1..])
  }

  /** How many of the positions ps lie inside an n-by-n grid. */
  function SlotsIn(n: int, ps: seq<(int, int)>): nat {
    if ps == [] then 0 else (if InBounds(n, ps[0].0, ps[0].1) then 1 else 0) + SlotsIn(n, ps[1..])
  }

  /**
   The alive-neighbour count of cell (r, c): with 0/1 cells, between 0 and the
   number of its neighbour positions inside the grid.
   */
  function CountAlive(g: Grid, r: int, c: int): (n: int)
    requires Square(g)
    ensures Binary(g) ==> 0 <= n <= Slots(|g|, r, c)
  {
    SumAtBounds(g, NeighbourPositions(r, c));
    SumAt(g, NeighbourPositions(r, c))
  }

  /** The number of neighbour positions of (r, c) that an n-by-n grid contains. */
  function Slots(n: int, r: int, c: int): nat {
    SlotsIn(n, NeighbourPositions(r, c))
  }

  /**
   The transition rule: a count of 3 makes the cell alive, a count of 2 keeps
   its current value, any other count makes it dead.
   */
  function Rule(cell: int, count: int): (next: int)
    ensures next == 1 <==> count == 3 || (count == 2 && cell == 1)
    ensures (cell == 0 || cell == 1) ==> (next == 0 || next == 1)
  {
    if count == 3 then 1
    else if count != 2 then 0
    else cell
  }

  /** The state of cell (r, c) in the generation after g. */
  function NextCell(g: Grid, r: int, c: int): int
    requires Square(g)
    requires InBounds(|g|, r, c)
  {
    Rule(g[r][c], CountAlive(g, r, c))
  }

  /** One synchronous generation: every cell is computed from g alone. */
  function Next(g: Grid): (h: Grid)
    requires Square(g)
    ensures |h| == |g| && Square(h)
  {
    seq(|g|, r requires 0 <= r < |g| => seq(|g|, c requires 0 <= c < |g| => NextCell(g, r, c)))
  }

  /** Cell (r, c) of the next generation is the rule applied to (r, c) of g and its count in g. */
  lemma NextAt(g: Grid, r: int, c: int)
    requires Square(g) && InBounds(|g|, r, c)
    ensures Next(g)[r][c] == Rule(g[r][c], CountAlive(g, r, c))
  {
  }

  /**
   Cell (r, c) of the next generation, by its count in g: alive on a count of
   3 whatever its state, unchanged on a count of 2, dead otherwise.
   */
  lemma NextByCount(g: Grid, r: int, c: int)
    requires Square(g) && InBounds(|g|, r, c)
    ensures CountAlive(g, r, c) == 3 ==> Next(g)[r][c] == 1
    ensures CountAlive(g, r, c) == 2 ==> Next(g)[r][c] == g[r][c]
    ensures CountAlive(g, r, c) != 2 && CountAlive(g, r, c) != 3 ==> Next(g)[r][c] == 0
  {
  }

  /** The grid after n generations starting from g. */
  function Iterate(g: Grid, n: nat): (h: Grid)
    requires Square(g)
    ensures |h| == |g| && Square(h)
  {
    if n == 0 then g else Next(Iterate(g, n - 1))
  }

  /** Two square grids of one size that agree at every cell are equal. */
  lemma GridExt(g: Grid, h: Grid)
    requires Square(g) && Square(h) && |g| == |h|
    requires forall r, c :: InBounds(|g|, r, c) ==> g[r][c] == h[r][c]
    ensures g == h
  {
    forall r | 0 <= r < |g| ensures g[r] == h[r] {
      assert forall c :: 0 <= c < |g| ==> g[r][c] == h[r][c] by {
        forall c | 0 <= c < |g| ensures g[r][c] == h[r][c] {
          assert InBounds(|g|, r, c);
        }
      }
    }
  }

  // ---------------------------------------------------------------------------
  // The neighbour count

  /** With 0/1 cells, the sum over ps lies between 0 and the number of positions of ps inside the grid. */
  lemma {:induction false} SumAtBounds(g: Grid, ps: seq<(int, int)>)
    requires Square(g)
    ensures SlotsIn(|g|, ps) <= |ps|
    ensures Binary(g) ==> 0 <= SumAt(g, ps) <= SlotsIn(|g|, ps)
  {
    if ps != [] {
      SumAtBounds(g, ps[1..]);
    }
  }

  /** The eight neighbours spelled out: the count is the sum of the clipped values around (r, c). */
  lemma CountAliveExpanded(g: Grid, r: int, c: int)
    requires Square(g)
    ensures CountAlive(g, r, c) ==
      At(g, r - 1, c - 1) + At(g, r - 1, c) + At(g, r - 1, c + 1) +
      At(g, r, c - 1) + At(g, r, c + 1) +
      At(g, r + 1, c - 1) + At(g, r + 1, c) + At(g, r + 1, c + 1)
  {
    var ps := NeighbourPositions(r, c);
    assert SumAt(g, ps[0..]) == At(g, ps[0].0, ps[0].1) + SumAt(g, ps[1..]) by { assert ps[0..][1..] == ps[1..]; }
    assert SumAt(g, ps[1..]) == At(g, ps[1].0, ps[1].1) + SumAt(g, ps[2..]) by { assert ps[1..][1..] == ps[2..]; }
    assert SumAt(g, ps[2..]) == At(g, ps[2].0, ps[2].1) + SumAt(g, ps[3..]) by { assert ps[2..][1..] == ps[3..]; }
    assert SumAt(g, ps[3..]) == At(g, ps[3].0, ps[3].1) + SumAt(g, ps[4..]) by { assert ps[3..][1..] == ps[4..]; }
    assert SumAt(g, ps[4..]) == At(g, ps[4].0, ps[4].1) + SumAt(g, ps[5..]) by { assert ps[4..][1..] == ps[5..]; }
    assert SumAt(g, ps[5..]) == At(g, ps[5].0, ps[5].1) + SumAt(g, ps[6..]) by { assert ps[5..][1..] == ps[6..]; }
    assert SumAt(g, ps[6..]) == At(g, ps[6].0, ps[6].1) + SumAt(g, ps[7..]) by { assert ps[6..][1..] == ps[7..]; }
    assert SumAt(g, ps[7..]) == At(g, ps[7].0, ps[7].1) + SumAt(g, ps[8..]) by { assert ps[7..][1..] == ps[8..]; }
    assert ps[8..] == [];
  }

  /** The same unrolling for the number of in-bounds neighbour positions. */
  lemma SlotsExpanded(n: int, r: int, c: int)
    ensures Slots(n, r, c) ==
      (if InBounds(n, r - 1, c - 1) then 1 else 0) + (if InBounds(n, r - 1, c) then 1 else 0) +
      (if InBounds(n, r - 1, c + 1) then 1 else 0) + (if InBounds(n, r, c - 1) then 1 else 0) +
      (if InBounds(n, r, c + 1) then 1 else 0) + (if InBounds(n, r + 1, c - 1) then 1 else 0) +
      (if InBounds(n, r + 1, c) then 1 else 0) + (if InBounds(n, r + 1, c + 1) then 1 else 0)
  {
    var ps := NeighbourPositions(r, c);
    assert SlotsIn(n, ps[0..]) == (if InBounds(n, ps[0].0, ps[0].1) then 1 else 0) + SlotsIn(n, ps[1..]) by {
      assert ps[0..][1..] == ps[1..];
    }
    assert SlotsIn(n, ps[1..]) == (if InBounds(n, ps[1].0, ps[1].1) then 1 else 0) + SlotsIn(n, ps[2..]) by {
      assert ps[1..][1..] == ps[2..];
    }
    assert SlotsIn(n, ps[2..]) == (if InBounds(n, ps[2].0, ps[2].1) then 1 else 0) + SlotsIn(n, ps[3..]) by {
      assert ps[2..][1..] == ps[3..];
    }
    assert SlotsIn(n, ps[3..]) == (if InBounds(n, ps[3].0, ps[3].1) then 1 else 0) + SlotsIn(n, ps[4..]) by {
      assert ps[3..][1..] == ps[4..];
    }
    assert SlotsIn(n, ps[4..]) == (if InBounds(n, ps[4].0, ps[4].1) then 1 else 0) + SlotsIn(n, ps[5..]) by {
      assert ps[4..][1..] == ps[5..];
    }
    assert SlotsIn(n, ps[5..]) == (if InBounds(n, ps[5].0, ps[5].1) then 1 else 0) + SlotsIn(n, ps[6..]) by {
      assert ps[5..][1..] == ps[6..];
    }
    assert SlotsIn(n, ps[6..]) == (if InBounds(n, ps[6].0, ps[6].1) then 1 else 0) + SlotsIn(n, ps[7..]) by {
      assert ps[6..][1..] == ps[7..];
    }
    assert SlotsIn(n, ps[7..]) == (if InBounds(n, ps[7].0, ps[7].1) then 1 else 0) + SlotsIn(n, ps[8..]) by {
      assert ps[7..][1..] == ps[8..];
    }
    assert ps[8..] == [];
  }

  /**
   With 0/1 cells the count of any cell lies between 0 and its number of
   in-bounds neighbour positions, which is at most 8.
   */
  lemma CountAliveBounds(g: Grid, r: int, c: int)
    requires Square(g) && Binary(g)
    ensures 0 <= CountAlive(g, r, c) <= Slots(|g|, r, c) <= 8
  {
    SumAtBounds(g, NeighbourPositions(r, c));
  }

  /** A corner cell of a grid of side at least 2 has exactly 3 neighbour positions. */
  lemma CornerSlots(n: int, r: int, c: int)
    requires n >= 2
    requires (r == 0 || r == n - 1) && (c == 0 || c == n - 1)
    ensures Slots(n, r, c) == 3
  {
    SlotsExpanded(n, r, c);
  }

  /** A non-corner edge cell of a grid of side at least 3 has exactly 5 neighbour positions. */
  lemma EdgeSlots(n: int, r: int, c: int)
    requires n >= 3 && InBounds(n, r, c)
    requires (r == 0 || r == n - 1) != (c == 0 || c == n - 1)
    ensures Slots(n, r, c) == 5
  {
    SlotsExpanded(n, r, c);
  }

  /** An interior cell has all 8 neighbour positions. */
  lemma InteriorSlots(n: int, r: int, c: int)
    requires 0 < r < n - 1 && 0 < c < n - 1
    ensures Slots(n, r, c) == 8
  {
    SlotsExpanded(n, r, c);
  }

  /** With 0/1 cells a corner cell counts at most 3 alive neighbours, an edge cell at most 5. */
  lemma BoundaryCountBounds(g: Grid, r: int, c: int)
    requires Square(g) && Binary(g) && |g| >= 2
    requires InBounds(|g|, r, c)
    ensures (r == 0 || r == |g| - 1) && (c == 0 || c == |g| - 1) ==> CountAlive(g, r, c) <= 3
    ensures |g| >= 3 && (r == 0 || r == |g| - 1) != (c == 0 || c == |g| - 1) ==> CountAlive(g, r, c) <= 5
  {
    CountAliveBounds(g, r, c);
    if (r == 0 || r == |g| - 1) && (c == 0 || c == |g| - 1) {
      CornerSlots(|g|, r, c);
    } else if |g| >= 3 && (r == 0 || r == |g| - 1) != (c == 0 || c == |g| - 1) {
      EdgeSlots(|g|, r, c);
    }
  }

  /**
   Clipping, not wrapping: the count of the top-left corner is the sum of its
   three in-grid neighbours, and nothing from the opposite edges is added.
   */
  lemma CornerCountNoWrap(g: Grid)
    requires Square(g) && |g| >= 2
    ensures CountAlive(g, 0, 0) == g[0][1] + g[1][0] + g[1][1]
  {
    CountAliveExpanded(g, 0, 0);
  }

  /**
   Clipping, not wrapping: the count of a top-row cell is the same in two grids
   that differ only in the bottom row, so nothing is taken from the opposite edge.
   */
  lemma TopRowIgnoresBottomRow(g: Grid, h: Grid, c: int)
    requires Square(g) && Square(h) && |g| == |h| >= 3
    requires forall r', c' :: InBounds(|g|, r', c') && r' != |g| - 1 ==> g[r'][c'] == h[r'][c']
    ensures CountAlive(g, 0, c) == CountAlive(h, 0, c)
  {
    CountAliveExpanded(g, 0, c);
    CountAliveExpanded(h, 0, c);
  }

  /** Likewise for columns: the count of a left-column cell ignores the right column. */
  lemma LeftColumnIgnoresRightColumn(g: Grid, h: Grid, r: int)
    requires Square(g) && Square(h) && |g| == |h| >= 3
    requires forall r', c' :: InBounds(|g|, r', c') && c' != |g| - 1 ==> g[r'][c'] == h[r'][c']
    ensures CountAlive(g, r, 0) == CountAlive(h, r, 0)
  {
    CountAliveExpanded(g, r, 0);
    CountAliveExpanded(h, r, 0);
  }

  /** The count of (r, c) depends only on the eight cells around it. */
  lemma CountAliveLocal(g: Grid, h: Grid, r: int, c: int)
    requires Square(g) && Square(h) && |g| == |h|
    requires forall r', c' :: r - 1 <= r' <= r + 1 && c - 1 <= c' <= c + 1 ==> At(g, r', c') == At(h, r', c')
    ensures CountAlive(g, r, c) == CountAlive(h, r, c)
  {
    CountAliveExpanded(g, r, c);
    CountAliveExpanded(h, r, c);
  }

  // ---------------------------------------------------------------------------
  // The transition rule

  /**
   On 0/1 cells the rule is Conway's B3/S23: a dead cell is born with exactly
   3 alive neighbours, an alive cell survives with 2 or 3, and the result is 0 or 1.
   */
  lemma RuleIsB3S23(cell: int, count: int)
    requires cell == 0 || cell == 1
    ensures Rule(cell, count) == 0 || Rule(cell, count) == 1
    ensures cell == 0 ==> (Rule(cell, count) == 1 <==> count == 3)
    ensures cell == 1 ==> (Rule(cell, count) == 1 <==> count == 2 || count == 3)
  {
  }

  // ---------------------------------------------------------------------------
  // Generations

  /** One generation keeps every cell 0 or 1. */
  lemma NextBinary(g: Grid)
    requires Square(g) && Binary(g)
    ensures Binary(Next(g))
  {
    forall r, c | InBounds(|g|, r, c)
      ensures Next(g)[r][c] == 0 || Next(g)[r][c] == 1
    {
      NextAt(g, r, c);
      RuleIsB3S23(g[r][c], CountAlive(g, r, c));
    }
  }

  /** If every cell is 0 or 1 initially, it stays so after any number of generations. */
  lemma {:induction false} IterateBinary(g: Grid, n: nat)
    requires Square(g) && Binary(g)
    ensures Binary(Iterate(g, n))
  {
    if n > 0 {
      var prev := Iterate(g, n - 1);
      IterateBinary(g, n - 1);
      NextBinary(prev);
      assert Iterate(g, n) == Next(prev);
    }
  }

  /** Zero generations leave the grid unchanged. */
  lemma IterateZero(g: Grid)
    requires Square(g)
    ensures Iterate(g, 0) == g
  {
  }

  /** Running a then b generations is running a + b generations. */
  lemma {:induction false} IterateAdd(g: Grid, a: nat, b: nat)
    requires Square(g)
    ensures Iterate(Iterate(g, a), b) == Iterate(g, a + b)
  {
    if b > 0 {
      IterateAdd(g, a, b - 1);
    }
  }

  /** The first generation is computed from the initial grid: Iterate unrolls from the front too. */
  lemma IterateFront(g: Grid, n: nat)
    requires Square(g) && n > 0
    ensures Iterate(g, n) == Iterate(Next(g), n - 1)
  {
    IterateAdd(g, 1, n - 1);
  }

  /** A still life (Next(g) == g) never changes. */
  lemma {:induction false} StillLifeForever(g: Grid, n: nat)
    requires Square(g) && Next(g) == g
    ensures Iterate(g, n) == g
  {
    if n > 0 {
      StillLifeForever(g, n - 1);
    }
  }

  /** A period-2 oscillator (Next(Next(g)) == g) returns every two generations. */
  lemma {:induction false} Period2Forever(g: Grid, k: nat)
    requires Square(g) && Next(Next(g)) == g
    ensures Iterate(g, 2 * k) == g
    ensures Iterate(g, 2 * k + 1) == Next(g)
  {
    if k > 0 {
      Period2Forever(g, k - 1);
      assert Iterate(g, 2 * k) == Next(Iterate(g, 2 * (k - 1) + 1));
    }
  }
}
