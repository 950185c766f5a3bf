/** Index arithmetic of the physical page map: a page index is a number written
    in base P_L2_SIZE, and a node of level `k` is indexed by its digit `k`. */
module Radix {

  const P_L2_BITS: nat := 9
  const P_L2_SIZE: nat := 512

  /** Pages covered by one slot of a level-`k` node: `1 << (k * P_L2_BITS)`. */
  function Span(k: nat): (r: nat)
    ensures r >= 1
    ensures k >= 1 ==> r >= P_L2_SIZE
  {
    if k == 0 then 1 else P_L2_SIZE * Span(k - 1)
  }

  /** `(index >> (k * P_L2_BITS)) & (P_L2_SIZE - 1)` */
  function Digit(index: nat, k: nat): (d: nat)
    ensures d < P_L2_SIZE
  {
    (index / Span(k)) % P_L2_SIZE
  }

  /** First page of slot `j` in a level-`k` node whose first page is `base`. */
  function SlotLo(base: nat, k: nat, j: nat): (r: nat)
    ensures r >= base
  {
    if j == 0 then base else SlotLo(base, k, j - 1) + Span(k)
  }

  lemma {:induction false} SlotLoIsProduct(base: nat, k: nat, j: nat)
    ensures SlotLo(base, k, j) == base + j * Span(k)
  {
    if j > 0 {
      SlotLoIsProduct(base, k, j - 1);
    }
  }

  /** The slots of a node tile it. */
  lemma SlotEnd(base: nat, k: nat)
    ensures SlotLo(base, k, P_L2_SIZE) == base + Span(k + 1)
  {
    SlotLoIsProduct(base, k, P_L2_SIZE);
  }

  lemma {:induction false} SlotMono(base: nat, k: nat, i: nat, j: nat)
    requires i < j
    ensures SlotLo(base, k, i) + Span(k) <= SlotLo(base, k, j)
  {
    if i + 1 < j {
      SlotMono(base, k, i, j - 1);
    }
  }

  lemma MulMono(a: nat, b: nat, s: nat)
    requires a <= b
    ensures a * s <= b * s
  {
  }

  lemma MulStep(n: nat, r: nat, s: nat)
    requires n < r
    ensures n * s + s <= r * s
  {
    MulMono(n + 1, r, s);
    assert (n + 1) * s == n * s + s;
  }

  /** A slot lies inside its node. */
  lemma SlotInside(base: nat, k: nat, j: nat)
    requires j < P_L2_SIZE
    ensures base <= SlotLo(base, k, j)
    ensures SlotLo(base, k, j) + Span(k) <= base + Span(k + 1)
  {
    SlotMono(base, k, j, P_L2_SIZE);
    SlotEnd(base, k);
  }

  lemma DivModUnique(x: nat, s: nat, q: nat, r: nat)
    requires s >= 1 && r < s && x == q * s + r
    ensures x / s == q && x % s == r
  {
    if x / s > q {
      MulMono(q + 1, x / s, s);
    } else if x / s < q {
      MulMono(x / s + 1, q, s);
    }
  }

  /** Slots start at multiples of their span. */
  lemma SlotAligned(base: nat, k: nat, j: nat)
    requires base % Span(k + 1) == 0
    ensures SlotLo(base, k, j) % Span(k) == 0
    ensures SlotLo(base, k, j) / Span(k) == P_L2_SIZE * (base / Span(k + 1)) + j
  {
    hide SlotLo;
    SlotLoIsProduct(base, k, j);
    Multiple(base, Span(k + 1));
    SlotParts(base / Span(k + 1), j, Span(k));
  }

  lemma Multiple(x: nat, s: nat)
    requires s >= 1 && x % s == 0
    ensures x == (x / s) * s
  {
  }

  lemma SlotParts(q: nat, j: nat, s: nat)
    requires s >= 1
    ensures var x := q * (P_L2_SIZE * s) + j * s; x % s == 0 && x / s == P_L2_SIZE * q + j
  {
    Regroup(q, j, s);
    DivModUnique(q * (P_L2_SIZE * s) + j * s, s, P_L2_SIZE * q + j, 0);
  }

  lemma Regroup(q: nat, j: nat, s: nat)
    ensures q * (P_L2_SIZE * s) + j * s == (P_L2_SIZE * q + j) * s
  {
  }

  /** The digit that selects a slot is the digit of every page inside it. */
  lemma DigitOfSlot(base: nat, k: nat, j: nat, p: nat)
    requires base % Span(k + 1) == 0 && j < P_L2_SIZE
    requires SlotLo(base, k, j) <= p < SlotLo(base, k, j) + Span(k)
    ensures Digit(p, k) == j
  {
    hide SlotLo, Span;
    SlotAligned(base, k, j);
    Near(p, SlotLo(base, k, j), Span(k));
    DivModUnique(p / Span(k), P_L2_SIZE, base / Span(k + 1), j);
  }

  /** Every page of a node lies in the slot its digit selects. */
  lemma SlotOfDigit(base: nat, k: nat, p: nat)
    requires base % Span(k + 1) == 0
    requires base <= p < base + Span(k + 1)
    ensures SlotLo(base, k, Digit(p, k)) <= p < SlotLo(base, k, Digit(p, k)) + Span(k)
  {
    var j := (p - base) / Span(k);
    DivBounds(p - base, Span(k), P_L2_SIZE);
    SlotLoIsProduct(base, k, j);
    DigitOfSlot(base, k, j, p);
  }

  lemma DivBounds(x: nat, s: nat, m: nat)
    requires s >= 1 && x < m * s
    ensures x / s < m && (x / s) * s <= x < (x / s) * s + s
  {
    if x / s >= m {
      MulMono(m, x / s, s);
    }
  }

  /** A page of a slot that is a multiple of the slot's span is its first page. */
  lemma AlignedInSlot(base: nat, k: nat, j: nat, p: nat)
    requires base % Span(k + 1) == 0
    requires SlotLo(base, k, j) <= p < SlotLo(base, k, j) + Span(k)
    ensures p % Span(k) == 0 <==> p == SlotLo(base, k, j)
  {
    hide SlotLo, Span;
    SlotAligned(base, k, j);
    Near(p, SlotLo(base, k, j), Span(k));
  }

  /** A number less than `s` above a multiple of `s`. */
  lemma Near(p: nat, x: nat, s: nat)
    requires s >= 1 && x % s == 0 && x <= p < x + s
    ensures p / s == x / s && p % s == p - x
  {
    Multiple(x, s);
    DivModUnique(p, s, x / s, p - x);
  }
}
