/** Cells of a ring buffer that is fed by a monotone counter. */
module RingCells {
  import opened Modular

  /** i modulo cap (CellIsMod), by repeated subtraction. */
  function Cell(i: nat, cap: nat): (c: nat)
    requires cap > 0
    ensures c < cap
  {
    if i < cap then i else Cell(i - cap, cap)
  }

  lemma {:induction false} CellIsMod(i: nat, cap: nat)
    requires cap > 0
    ensures Cell(i, cap) == i % cap
  {
    if i < cap {
      ModSmall(i, cap);
    } else {
      CellIsMod(i - cap, cap);
      ModBack(i, cap, cap);
    }
  }

  lemma {:induction false} CellStep(i: nat, d: nat, cap: nat)
    requires cap > 0 && d <= cap
    ensures Cell(i + d, cap) == if Cell(i, cap) + d < cap then Cell(i, cap) + d else Cell(i, cap) + d - cap
  {
    if i >= cap { CellStep(i - cap, d, cap); }
  }

  /** The cell m positions in front of cell p, cyclically. */
  function Behind(p: nat, m: nat, cap: nat): int { if p >= m then p - m else p - m + cap }
}
