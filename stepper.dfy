/**
 The generation loop over two fixed-size buffers, `mapIn` (the program's `map`) and `mapOut`, that
 swap the roles of source and destination by the parity of the generation
 index, and the choice of the buffer that holds the result.
 */
module Stepper {
  import opened Life

  /** The grid an array buffer holds. */
  ghost function Snapshot(a: array2<int>): (g: Grid)
    reads a
    ensures |g| == a.Length0
    ensures forall r :: 0 <= r < |g| ==> |g[r]| == a.Length1
  {
    seq(a.Length0, r requires 0 <= r < a.Length0 reads a =>
      seq(a.Length1, c requires 0 <= c < a.Length1 reads a => a[r, c]))
  }

  // ---------------------------------------------------------------------------
  // Buffer roles

  /** The two buffers of the program. */
  datatype Buffer = MapIn | MapOut

  /** The buffer that generation gen reads (its source): `map` first, then alternating. */
  function ReadBuffer(gen: nat): (b: Buffer)
    ensures gen == 0 ==> b == MapIn
    ensures gen > 0 ==> b != ReadBuffer(gen - 1)
  {
    if gen % 2 == 0 then MapIn else MapOut
  }

  /** The buffer that generation gen writes (its destination): never the one it reads. */
  function WriteBuffer(gen: nat): (b: Buffer)
    ensures b != ReadBuffer(gen)
  {
    if gen % 2 == 0 then MapOut else MapIn
  }

  /**
   The buffer holding the latest grid after x generations: the initial one, or
   the last one written. It is the buffer the next generation reads.
   */
  function Holder(x: nat): (b: Buffer)
    ensures b == ReadBuffer(x)
  {
    if x == 0 then MapIn else WriteBuffer(x - 1)
  }

  /**
   C's `x % 2`: the remainder truncates toward zero, so it takes the sign of
   x and is -1, not 1, for a negative odd x.
   */
  function CRem2(x: int): (r: int)
    ensures (x - r) % 2 == 0
    ensures x >= 0 ==> 0 <= r <= 1
    ensures x < 0 ==> -1 <= r <= 0
  {
    if x >= 0 then x % 2 else -((-x) % 2)
  }

  /** The number of passes the loop `for (gen = 0; gen < X; gen++)` makes. */
  function Passes(x: int): nat {
    if x < 0 then 0 else x
  }

  /**
   The buffer the program prints, as written: `map_out` when `X % 2 != 0`
   and `mapIn` (the program's `map`) otherwise, for any integer X the command line yields.
   */
  function SelectedBuffer(x: int): (b: Buffer)
    ensures b == MapOut <==> x % 2 == 1
  {
    if CRem2(x) != 0 then MapOut else MapIn
  }

  /** For X >= 0 the parity test selects exactly the buffer holding the grid after X generations. */
  lemma SelectedIsHolder(x: nat)
    ensures SelectedBuffer(x) == Holder(Passes(x))
  {
  }

  /**
   For a negative odd X, such as -1, the loop makes no pass, so `mapIn` (the
   program's `map`) still holds the initial grid, yet `X % 2` is -1 in C and
   the program prints `map_out`, which nothing wrote.
   */
  lemma NegativeOddSelectsUnwritten(x: int)
    requires x < 0 && x % 2 == 1
    ensures Passes(x) == 0 && Holder(Passes(x)) == MapIn
    ensures SelectedBuffer(x) == MapOut
  {
  }

  /** The array behind a buffer name; distinct names give distinct arrays. */
  function Pick(b: Buffer, mapIn: array2<int>, mapOut: array2<int>): (a: array2<int>)
    ensures a == mapIn || a == mapOut
    ensures mapIn != mapOut ==> (a == mapIn <==> b == MapIn)
  {
    if b == MapIn then mapIn else mapOut
  }

  // ---------------------------------------------------------------------------
  // One cell, one pass, the whole run

  /**
   The alive-neighbour count of (i, j) in src, with the bounds tests written as
   in the program: the row above if there is one, the left and right cells, the
   row below if there is one, each corner only if its column is inside.
   */
  method CountNeighbours(src: array2<int>, i: int, j: int) returns (count: int)
    requires src.Length0 == src.Length1
    requires 0 <= i < src.Length0 && 0 <= j < src.Length1
    ensures count == CountAlive(Snapshot(src), i, j)
  {
    var y := src.Length0;
    count := 0;
    if i - 1 >= 0 {
      count := count + src[i - 1, j];
      if j - 1 >= 0 {
        count := count + src[i - 1, j - 1];
      }
      if j + 1 < y {
        count := count + src[i - 1, j + 1];
      }
    }
    if j - 1 >= 0 {
      count := count + src[i, j - 1];
    }
    if j + 1 < y {
      count := count + src[i, j + 1];
    }
    if i + 1 < y {
      count := count + src[i + 1, j];
      if j - 1 >= 0 {
        count := count + src[i + 1, j - 1];
      }
      if j + 1 < y {
        count := count + src[i + 1, j + 1];
      }
    }
    CountAliveExpanded(Snapshot(src), i, j);
  }

  /**
   One generation: every cell (i, j), row by row, is computed from src and
   written to dst at (i, j). src is never written, so every cell sees only
   the previous generation and the order of the visits does not matter.
   */
  method Step(src: array2<int>, dst: array2<int>)
    requires src != dst
    requires src.Length0 == src.Length1 == dst.Length0 == dst.Length1
    modifies dst
    ensures Snapshot(dst) == Next(Snapshot(src))
    ensures Snapshot(src) == old(Snapshot(src))
  {
    ghost var g := Snapshot(src);
    var y := src.Length0;
    var i := 0;
    while i < y
      invariant 0 <= i <= y
      invariant Snapshot(src) == g
      invariant forall r, c :: 0 <= r < i && 0 <= c < y ==> dst[r, c] == NextCell(g, r, c)
      invariant forall r, c :: i <= r < y && 0 <= c < y ==> dst[r, c] == old(dst[r, c])
    {
      var j := 0;
      while j < y
        invariant 0 <= j <= y
        invariant Snapshot(src) == g
        invariant forall r, c :: 0 <= r < i && 0 <= c < y ==> dst[r, c] == NextCell(g, r, c)
        invariant forall c :: 0 <= c < j ==> dst[i, c] == NextCell(g, i, c)
        invariant forall r, c :: i <= r < y && 0 <= c < y && (r > i || c >= j) ==> dst[r, c] == old(dst[r, c])
      {
        var cell := src[i, j];
        var count := CountNeighbours(src, i, j);
        if count == 3 {
          cell := 1;
        } else if count != 3 && count != 2 {
          cell := 0;
        }
        dst[i, j] := cell;
        j := j + 1;
      }
      i := i + 1;
    }
    forall r | 0 <= r < y
      ensures Snapshot(dst)[r] == Next(g)[r]
    {
      forall c | 0 <= c < y
        ensures Snapshot(dst)[r][c] == Next(g)[r][c]
      {
        NextAt(g, r, c);
      }
    }
  }

  /**
   The program's generation loop and result choice, as written, for any
   integer X: `for (gen = 0; gen < X; gen++)`, generation gen reading `mapIn`
   (the program's `map`) when gen is even and `mapOut` when it is odd and
   writing the other; then `mapOut` if `X % 2 != 0` in C and `mapIn` otherwise.
   passes is the number of generations the loop ran.
   */
  method RunAsWritten(mapIn: array2<int>, mapOut: array2<int>, x: int) returns (result: array2<int>, passes: nat)
    requires mapIn != mapOut
    requires mapIn.Length0 == mapIn.Length1 == mapOut.Length0 == mapOut.Length1
    modifies mapIn, mapOut
    ensures passes == Passes(x)
    ensures result == Pick(SelectedBuffer(x), mapIn, mapOut)
    ensures Snapshot(Pick(Holder(passes), mapIn, mapOut)) == Iterate(old(Snapshot(mapIn)), passes)
    ensures passes > 0 ==>
      Snapshot(Pick(ReadBuffer(passes - 1), mapIn, mapOut)) == Iterate(old(Snapshot(mapIn)), passes - 1)
    ensures passes == 0 ==> Snapshot(mapIn) == old(Snapshot(mapIn)) && Snapshot(mapOut) == old(Snapshot(mapOut))
  {
    ghost var init := Snapshot(mapIn);
    var gen := 0;
    while gen < x
      invariant 0 <= gen && (x >= 0 ==> gen <= x) && (x < 0 ==> gen == 0)
      invariant Snapshot(Pick(Holder(gen), mapIn, mapOut)) == Iterate(init, gen)
      invariant gen > 0 ==> Snapshot(Pick(ReadBuffer(gen - 1), mapIn, mapOut)) == Iterate(init, gen - 1)
      invariant gen == 0 ==> Snapshot(mapIn) == init && Snapshot(mapOut) == old(Snapshot(mapOut))
    {
      if gen % 2 == 0 {
        Step(mapIn, mapOut);
      } else {
        Step(mapOut, mapIn);
      }
      gen := gen + 1;
    }
    passes := gen;
    if CRem2(x) != 0 {
      result := mapOut;
    } else {
      result := mapIn;
    }
  }

  /**
   X >= 0 generations: the buffer chosen by the parity of X, `mapOut` when X is
   odd and `mapIn` (the program's `map`) when it is even, holds the X-fold
   iteration of Next from the initial `mapIn`, and the other buffer holds the
   generation before it. With X = 0 neither buffer changes.
   */
  method Run(mapIn: array2<int>, mapOut: array2<int>, x: nat) returns (result: array2<int>)
    requires mapIn != mapOut
    requires mapIn.Length0 == mapIn.Length1 == mapOut.Length0 == mapOut.Length1
    modifies mapIn, mapOut
    ensures result == Pick(Holder(x), mapIn, mapOut)
    ensures Snapshot(result) == Iterate(old(Snapshot(mapIn)), x)
    ensures x > 0 ==> Snapshot(Pick(ReadBuffer(x - 1), mapIn, mapOut)) == Iterate(old(Snapshot(mapIn)), x - 1)
    ensures x == 0 ==> result == mapIn && Snapshot(mapIn) == old(Snapshot(mapIn))
    ensures x == 0 ==> Snapshot(mapOut) == old(Snapshot(mapOut))
    ensures Binary(old(Snapshot(mapIn))) ==> Binary(Snapshot(result))
  {
    ghost var init := Snapshot(mapIn);
    var passes;
    result, passes := RunAsWritten(mapIn, mapOut, x);
    SelectedIsHolder(x);
    if Binary(init) {
      IterateBinary(init, x);
    }
  }
}
