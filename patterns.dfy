/**
 Small concrete grids and what the rules do to them: a block that never
 changes, a blinker that oscillates with period 2, a lone corner cell that
 dies, each under the clipped boundary.
 */
module Patterns {
  import opened Life

  /** The 3-by-3 grid whose middle column is alive (a vertical blinker). */
  const VerticalBlinker: Grid := [[0, 1, 0], [0, 1, 0], [0, 1, 0]]

  /** The 3-by-3 grid whose middle row is alive (a horizontal blinker). */
  const HorizontalBlinker: Grid := [[0, 0, 0], [1, 1, 1], [0, 0, 0]]

  /** A 6-by-6 grid alive exactly at rows 2-3, columns 2-3. */
  const Block: Grid := [
    [0, 0, 0, 0, 0, 0],
    [0, 0, 0, 0, 0, 0],
    [0, 0, 1, 1, 0, 0],
    [0, 0, 1, 1, 0, 0],
    [0, 0, 0, 0, 0, 0],
    [0, 0, 0, 0, 0, 0]]

  /** A 3-by-3 grid alive only at the corner (0, 0). */
  const LoneCorner: Grid := [[1, 0, 0], [0, 0, 0], [0, 0, 0]]

  /** The 3-by-3 grid with every cell dead. */
  const Empty3: Grid := [[0, 0, 0], [0, 0, 0], [0, 0, 0]]

  /** The vertical blinker turns horizontal in one generation. */
  lemma VerticalTurnsHorizontal()
    ensures Square(VerticalBlinker)
    ensures Next(VerticalBlinker) == HorizontalBlinker
  {
    var v := VerticalBlinker;
    forall r, c | InBounds(3, r, c) ensures Next(v)[r][c] == HorizontalBlinker[r][c] {
      NextAt(v, r, c);
      CountAliveExpanded(v, r, c);
    }
    GridExt(Next(v), HorizontalBlinker);
  }

  /** The horizontal blinker turns vertical in one generation. */
  lemma HorizontalTurnsVertical()
    ensures Square(HorizontalBlinker)
    ensures Next(HorizontalBlinker) == VerticalBlinker
  {
    var h := HorizontalBlinker;
    forall r, c | InBounds(3, r, c) ensures Next(h)[r][c] == VerticalBlinker[r][c] {
      NextAt(h, r, c);
      CountAliveExpanded(h, r, c);
    }
    GridExt(Next(h), VerticalBlinker);
  }

  /** The blinker oscillates with period 2: vertical after every even, horizontal after every odd generation. */
  lemma BlinkerOscillates(k: nat)
    ensures Square(VerticalBlinker)
    ensures Iterate(VerticalBlinker, 2 * k) == VerticalBlinker
    ensures Iterate(VerticalBlinker, 2 * k + 1) == HorizontalBlinker
  {
    VerticalTurnsHorizontal();
    HorizontalTurnsVertical();
    Period2Forever(VerticalBlinker, k);
  }

  /** Every cell in the upper three rows of the block grid is its own successor. */
  lemma BlockUpperCellStill(r: int, c: int)
    requires 0 <= r < 3 && 0 <= c < 6
    ensures Square(Block) && Next(Block)[r][c] == Block[r][c]
  {
    NextAt(Block, r, c);
    CountAliveExpanded(Block, r, c);
  }

  /** Every cell in the lower three rows of the block grid is its own successor. */
  lemma BlockLowerCellStill(r: int, c: int)
    requires 3 <= r < 6 && 0 <= c < 6
    ensures Square(Block) && Next(Block)[r][c] == Block[r][c]
  {
    NextAt(Block, r, c);
    CountAliveExpanded(Block, r, c);
  }

  /** The block is a still life: it is the same after any number of generations. */
  lemma BlockIsStill(n: nat)
    ensures Square(Block)
    ensures Iterate(Block, n) == Block
  {
    forall r, c | InBounds(6, r, c) ensures Next(Block)[r][c] == Block[r][c] {
      if r < 3 {
        BlockUpperCellStill(r, c);
      } else {
        BlockLowerCellStill(r, c);
      }
    }
    GridExt(Next(Block), Block);
    StillLifeForever(Block, n);
  }

  /** The lone corner cell counts only its 3 in-grid neighbours, none of them alive. */
  lemma LoneCornerCount()
    ensures Square(LoneCorner)
    ensures Slots(3, 0, 0) == 3 && CountAlive(LoneCorner, 0, 0) == 0
  {
    CornerSlots(3, 0, 0);
    CornerCountNoWrap(LoneCorner);
  }

  /** After one generation the lone corner cell is dead and so is every other cell. */
  lemma LoneCornerDies()
    ensures Square(LoneCorner)
    ensures Next(LoneCorner) == Empty3
  {
    var g := LoneCorner;
    forall r, c | InBounds(3, r, c) ensures Next(g)[r][c] == Empty3[r][c] {
      NextAt(g, r, c);
      CountAliveExpanded(g, r, c);
    }
    GridExt(Next(g), Empty3);
  }
}
