/** Addressing of the pan's cells: one flat array of divperlength * divperwidth
    cells, cell (x, y) stored at index divperlength * y + x (panCoord). Here x runs
    along the length (0 <= x < L) and y along the width (0 <= y < W). */
module Grid {

  /** Flat index of cell (x, y) in a grid that is L cells long. */
  function PanCoord(L: nat, x: int, y: int): int
  {
    L * y + x
  }

  predicate InGrid(L: nat, W: nat, x: int, y: int)
  {
    0 <= x < L && 0 <= y < W
  }

  /** A cell with four neighbours inside the grid: the cells simulate updates. */
  predicate Interior(L: nat, W: nat, x: int, y: int)
  {
    1 <= x < L - 1 && 1 <= y < W - 1
  }

  /** The nested loops over x (outer) and y (inner) have handled (x, y) once they
      stand at (i, j). */
  predicate Visited(x: int, y: int, i: int, j: int)
  {
    x < i || (x == i && y < j)
  }

  lemma MulMono(a: nat, b: int, c: int)
    requires b <= c
    ensures a * b <= a * c
  {
    assert a * c - a * b == a * (c - b);
  }

  /** Every cell of the grid has an index in [0, L*W). */
  lemma CoordInRange(L: nat, W: nat, x: int, y: int)
    requires InGrid(L, W, x, y)
    ensures 0 <= PanCoord(L, x, y) < L * W
  {
    MulMono(L, y, W - 1);
    assert L * (W - 1) == L * W - L;
  }

  /** Distinct cells have distinct indices (x must lie within one row). */
  lemma CoordInjective(L: nat, x1: int, y1: int, x2: int, y2: int)
    requires 0 <= x1 < L && 0 <= x2 < L
    requires PanCoord(L, x1, y1) == PanCoord(L, x2, y2)
    ensures x1 == x2 && y1 == y2
  {
    if y1 < y2 {
      assert L * (y1 + 1) == L * y1 + L;
      MulMono(L, y1 + 1, y2);
    } else if y2 < y1 {
      assert L * (y2 + 1) == L * y2 + L;
      MulMono(L, y2 + 1, y1);
    }
  }

  /** The coordinates of a cell are recovered from its index. */
  lemma CoordDecode(L: nat, x: int, y: int)
    requires 0 <= x < L
    ensures PanCoord(L, x, y) % L == x && PanCoord(L, x, y) / L == y
  {
    var c := PanCoord(L, x, y);
    assert c == L * (c / L) + c % L;
    CoordInjective(L, c % L, c / L, x, y);
  }

  /** Every index in [0, L*W) is the index of exactly the cell (c % L, c / L). */
  lemma CoordOnto(L: nat, W: nat, c: int)
    requires 0 <= c < L * W
    ensures L > 0 && InGrid(L, W, c % L, c / L) && PanCoord(L, c % L, c / L) == c
  {
    assert L != 0;
    assert c == L * (c / L) + c % L;
    if c / L >= W {
      MulMono(L, W, c / L);
    }
  }

  /** For every cell simulate visits, the cell and its four neighbours
      (panfea.c lines 103-110) are inside the array, and the neighbours are
      other cells than the centre. */
  lemma NeighboursInBounds(L: nat, W: nat, i: int, j: int)
    requires Interior(L, W, i, j)
    ensures 0 <= PanCoord(L, i, j) < L * W
    ensures 0 <= PanCoord(L, i - 1, j) < L * W && 0 <= PanCoord(L, i + 1, j) < L * W
    ensures 0 <= PanCoord(L, i, j - 1) < L * W && 0 <= PanCoord(L, i, j + 1) < L * W
    ensures PanCoord(L, i - 1, j) != PanCoord(L, i, j) && PanCoord(L, i + 1, j) != PanCoord(L, i, j)
    ensures PanCoord(L, i, j - 1) != PanCoord(L, i, j) && PanCoord(L, i, j + 1) != PanCoord(L, i, j)
  {
    CoordInRange(L, W, i, j);
    CoordInRange(L, W, i - 1, j);
    CoordInRange(L, W, i + 1, j);
    CoordInRange(L, W, i, j - 1);
    CoordInRange(L, W, i, j + 1);
    assert L * (j + 1) == L * j + L;
    assert L * (j - 1) == L * j - L;
  }

  /** Index of the k-th neighbour of cell (i, j), in the order of simulate's
      adjacents array: left, right, then the two along the width. */
  function NeighbourCoord(L: nat, i: int, j: int, k: int): int
  {
    if k == 0 then PanCoord(L, i - 1, j)
    else if k == 1 then PanCoord(L, i + 1, j)
    else if k == 2 then PanCoord(L, i, j - 1)
    else PanCoord(L, i, j + 1)
  }

  /** Moving the inner loop from (i, j) to (i, j + 1) adds exactly the cell (i, j)
      to the visited ones, seen from the flat index c. */
  lemma VisitedStep(L: nat, W: nat, i: int, j: int, c: int)
    requires InGrid(L, W, i, j) && 0 <= c < L * W
    ensures Visited(c % L, c / L, i, j + 1) <==> (Visited(c % L, c / L, i, j) || c == PanCoord(L, i, j))
    ensures c == PanCoord(L, i, j) ==> !Visited(c % L, c / L, i, j)
  {
    CoordOnto(L, W, c);
    CoordDecode(L, i, j);
    if c % L == i && c / L == j {
      assert c == PanCoord(L, i, j);
    }
  }

  /** The state of an array that nested loops over x (outer) and y (inner)
      are turning from pre into target, once they stand at (i, j): cells already
      visited hold their target value, the others still hold their old one. */
  ghost predicate SweptTo<T>(cur: seq<T>, pre: seq<T>, target: seq<T>, L: nat, i: int, j: int)
  {
    |cur| == |pre| == |target| &&
    forall c :: 0 <= c < |cur| && L > 0 ==>
      cur[c] == if Visited(c % L, c / L, i, j) then target[c] else pre[c]
  }

  /** target differs from pre at interior cells only, so a sweep over the
      interior may pass the boundary cells by. */
  ghost predicate FixedOffInterior<T>(pre: seq<T>, target: seq<T>, L: nat, W: nat)
  {
    |pre| == |target| &&
    forall c :: 0 <= c < |pre| && L > 0 && !Interior(L, W, c % L, c / L) ==> target[c] == pre[c]
  }

  /** Before the loops start nothing has been visited. */
  lemma SweptStart<T>(pre: seq<T>, target: seq<T>, L: nat)
    requires |pre| == |target|
    ensures SweptTo(pre, pre, target, L, 0, 0)
  {
  }

  /** Writing the target value of cell (i, j) moves the sweep one cell on; the
      cell still held its old value. */
  lemma SweptStep<T>(cur: seq<T>, pre: seq<T>, target: seq<T>, L: nat, W: nat, i: int, j: int)
    requires |pre| == L * W && InGrid(L, W, i, j) && SweptTo(cur, pre, target, L, i, j)
    ensures 0 <= PanCoord(L, i, j) < |cur| && cur[PanCoord(L, i, j)] == pre[PanCoord(L, i, j)]
    ensures SweptTo(cur[PanCoord(L, i, j) := target[PanCoord(L, i, j)]], pre, target, L, i, j + 1)
  {
    var p := PanCoord(L, i, j);
    CoordInRange(L, W, i, j);
    VisitedStep(L, W, i, j, p);
    var next := cur[p := target[p]];
    forall c | 0 <= c < |next| && L > 0
      ensures next[c] == if Visited(c % L, c / L, i, j + 1) then target[c] else pre[c]
    {
      VisitedStep(L, W, i, j, c);
    }
  }

  /** The sweep may be said to stand at (i2, j2) instead of (i, j) when every
      cell whose visited status differs has the same old and target value. */
  lemma SweptMove<T>(cur: seq<T>, pre: seq<T>, target: seq<T>, L: nat, i: int, j: int, i2: int, j2: int)
    requires SweptTo(cur, pre, target, L, i, j)
    requires forall c :: 0 <= c < |pre| && L > 0 && Visited(c % L, c / L, i, j) != Visited(c % L, c / L, i2, j2) ==>
      target[c] == pre[c]
    ensures SweptTo(cur, pre, target, L, i2, j2)
  {
  }

  /** A sweep that has visited every cell whose target value is new is done. */
  lemma SweptAll<T>(cur: seq<T>, pre: seq<T>, target: seq<T>, L: nat, W: nat, i: int, j: int)
    requires |pre| == L * W && SweptTo(cur, pre, target, L, i, j)
    requires forall c :: 0 <= c < |pre| && L > 0 && !Visited(c % L, c / L, i, j) ==> target[c] == pre[c]
    ensures cur == target
  {
    forall c | 0 <= c < |cur|
      ensures cur[c] == target[c]
    {
      CoordOnto(L, W, c);
    }
  }

  // The loops of simulate compare a signed loop counter with an unsigned bound
  // (`i < sim->divperlength - 1`); C converts the counter to unsigned, so the
  // bound itself is computed modulo 2^32.

  const UINT_RANGE: int := 0x1_0000_0000

  type uint32 = n: int | 0 <= n < UINT_RANGE

  /** The bound `n - 1` of simulate's loops, as C computes it for an unsigned n. */
  function LoopBoundAsWritten(n: uint32): (r: uint32)
    ensures n == 0 ==> r == UINT_RANGE - 1
    ensures n > 0 ==> r == n - 1
  {
    (n - 1) % UINT_RANGE
  }

  /** With divperwidth == 0 and any divperlength >= 3, the loops as written still
      visit (1, 1), which is no interior cell: its index L + 1 (4 when L == 3)
      lies beyond the array of L * 0 == 0 cells. */
  lemma ZeroWidthOverrunsAsWritten(L: uint32)
    requires L >= 3
    ensures 1 < LoopBoundAsWritten(L) && 1 < LoopBoundAsWritten(0)
    ensures !Interior(L, 0, 1, 1)
    ensures PanCoord(L, 1, 1) == L + 1 && L * 0 == 0
  {
  }
}
