/** Path compression of the page table, as a relation between the walks before
    and after: no hit is lost or changed, and a page that used to miss may at
    most hit a section that another page of the same slot already had. */
module Compaction {
  import opened Radix
  import opened PageTree

  /** What compaction may do to page `p` of a slot. */
  ghost predicate WidenedAt(nodes: seq<Node>, e: Entry, nodes': seq<Node>, e': Entry, level: nat, lo: nat, p: nat) {
    var h, h' := Walk(nodes, e, level, p), Walk(nodes', e', level, p);
    h' == h || (h.Miss? && Seen(nodes, e, level, lo, h'))
  }

  /** Some page of the slot walks to `h`. */
  ghost predicate Seen(nodes: seq<Node>, e: Entry, level: nat, lo: nat, h: Hit) {
    exists q :: lo <= q < lo + Span(level) && Walk(nodes, e, level, q) == h
  }

  ghost predicate Widened(nodes: seq<Node>, e: Entry, nodes': seq<Node>, e': Entry, level: nat, lo: nat) {
    forall p | lo <= p < lo + Span(level) :: WidenedAt(nodes, e, nodes', e', level, lo, p)
  }

  /** Below the slot every entry still skips at most one level. */
  ghost predicate UncompactedUnder(nodes: seq<Node>, coords: seq<Coord>, level: nat, lo: nat)
    requires |coords| == |nodes|
  {
    forall n, j | 0 <= n < |nodes| && 0 <= j < |nodes[n]| && Inside(coords[n], level, lo) ::
      nodes[n][j].skip <= 1
  }

  /** Digits below `k` depend only on the page modulo `Span(k)`. */
  lemma {:induction false} DigitMod(p: nat, q: nat, k: nat, i: nat)
    requires p % Span(k) == q % Span(k) && i < k
    ensures Digit(p, i) == Digit(q, i)
  {
    var s := Span(k - 1);
    ModOfMultiple(p, s);
    ModOfMultiple(q, s);
    if i < k - 1 {
      DigitMod(p, q, k - 1, i);
    }
  }

  lemma ModOfMultiple(p: nat, s: nat)
    requires s >= 1
    ensures p % s == (p % (P_L2_SIZE * s)) % s
    ensures (p / s) % P_L2_SIZE == (p % (P_L2_SIZE * s)) / s
  {
    var a, q, t := Split(p, s);
    SplitTwice(p, s, a, q, t);
  }

  lemma Split(p: nat, s: nat) returns (a: nat, q: nat, t: nat)
    requires s >= 1
    ensures q < P_L2_SIZE && t < s
    ensures p == a * (P_L2_SIZE * s) + (q * s + t)
  {
    var r;
    a, r := DivRem(p, P_L2_SIZE * s);
    q, t := DivRem(r, s);
    if q >= P_L2_SIZE {
      MulMono(P_L2_SIZE, q, s);
    }
  }

  lemma DivRem(x: nat, m: nat) returns (q: nat, r: nat)
    requires m >= 1
    ensures x == q * m + r && r < m
  {
    Euclid(x, m);
    q, r := x / m, x % m;
  }

  lemma Euclid(x: nat, m: nat)
    requires m >= 1
    ensures x == (x / m) * m + x % m && x % m < m
  {
  }

  lemma SplitTwice(p: nat, s: nat, a: nat, q: nat, t: nat)
    requires s >= 1 && q < P_L2_SIZE && t < s
    requires p == a * (P_L2_SIZE * s) + (q * s + t)
    ensures p / s == P_L2_SIZE * a + q && p % s == t
    ensures (q * s + t) % s == t && (q * s + t) / s == q
    ensures p % (P_L2_SIZE * s) == q * s + t
  {
    MulMono(q + 1, P_L2_SIZE, s);
    DivModUnique(p, P_L2_SIZE * s, a, q * s + t);
    Regroup(a, q, s);
    DivModUnique(p, s, P_L2_SIZE * a + q, t);
    DivModUnique(q * s + t, s, q, t);
  }

  /** A walk with `level` digits left depends only on the page modulo `Span(level)`. */
  lemma {:induction false} WalkMod(nodes: seq<Node>, e: Entry, level: nat, p: nat, q: nat)
    requires p % Span(level) == q % Span(level)
    ensures Walk(nodes, e, level, p) == Walk(nodes, e, level, q)
    decreases level
  {
    if Descends(nodes, e, level) {
      var k := level - e.skip;
      DigitMod(p, q, level, k);
      ModDown(p, q, level, k);
      WalkMod(nodes, nodes[e.ptr][Digit(p, k)], k, p, q);
    }
  }

  lemma {:induction false} ModDown(p: nat, q: nat, level: nat, k: nat)
    requires k <= level && p % Span(level) == q % Span(level)
    ensures p % Span(k) == q % Span(k)
    decreases level
  {
    if k < level {
      ModOfMultiple(p, Span(level - 1));
      ModOfMultiple(q, Span(level - 1));
      ModDown(p, q, level - 1, k);
    }
  }

  /** The page at the same place in another slot of the node. */
  lemma SamePlace(base: nat, k: nat, d: nat, v: nat, p: nat) returns (q: nat)
    requires base % Span(k + 1) == 0
    requires SlotLo(base, k, d) <= p < SlotLo(base, k, d) + Span(k)
    ensures SlotLo(base, k, v) <= q < SlotLo(base, k, v) + Span(k)
    ensures q % Span(k) == p % Span(k)
  {
    SlotAligned(base, k, d);
    SlotAligned(base, k, v);
    var r := p - SlotLo(base, k, d);
    q := SlotLo(base, k, v) + r;
    AddMultiple(SlotLo(base, k, d), Span(k), r);
    AddMultiple(SlotLo(base, k, v), Span(k), r);
  }

  lemma AddMultiple(x: nat, s: nat, r: nat)
    requires s >= 1 && x % s == 0 && r < s
    ensures (x + r) % s == r
  {
    Euclid(x, s);
    DivModUnique(x + r, s, x / s, r);
  }

  /** The entry that compaction puts in place of `Entry(1, n)` when slot `v` of
      node `n` is its only child. */
  function Lifted(child: Entry): (e: Entry) {
    if child.skip == 0 then Entry(0, child.ptr) else Entry(1 + child.skip, child.ptr)
  }

  lemma LiftedWalk(nodes: seq<Node>, child: Entry, k: nat, p: nat)
    ensures Walk(nodes, Lifted(child), k + 1, p) == Walk(nodes, child, k, p)
  {
  }

  /** Slot `m` of node `n` has been dealt with: its walks were only widened, and
      it is empty now exactly if it was before. */
  ghost predicate SlotDone(n0: seq<Node>, n1: seq<Node>, coords: seq<Coord>, n: nat, m: nat)
    requires |coords| == |n0| == |n1| && n < |n0| && m < P_L2_SIZE
    requires |n0[n]| == |n1[n]| == P_L2_SIZE
  {
    var k, lo := coords[n].level, SlotLo(coords[n].base, coords[n].level, m);
    && Widened(n0, n0[n][m], n1, n1[n][m], k, lo)
    && (n0[n][m].ptr == PHYS_MAP_NODE_NIL <==> n1[n][m].ptr == PHYS_MAP_NODE_NIL)
  }

  /** A slot whose subtree is untouched counts as done. */
  lemma UntouchedDone(n0: seq<Node>, n1: seq<Node>, coords: seq<Coord>, n: nat, m: nat)
    requires Placed(n0, coords) && |n1| == |n0| && n < |n0| && m < P_L2_SIZE == |n0[n]| == |n1[n]|
    requires n1[n][m] == n0[n][m]
    requires forall x | 0 <= x < |n0|
               && Inside(coords[x], coords[n].level, SlotLo(coords[n].base, coords[n].level, m)) ::
               n1[x] == n0[x]
    ensures SlotDone(n0, n1, coords, n, m)
  {
    var k, lo := coords[n].level, SlotLo(coords[n].base, coords[n].level, m);
    assert NodePlaced(n0, coords, n);
    forall p | lo <= p < lo + Span(k)
      ensures WidenedAt(n0, n0[n][m], n1, n1[n][m], k, lo, p)
    {
      WalkFrame(n0, n1, coords, n0[n][m], k, lo, p);
    }
  }

  /** Compacting under slot `j` leaves the other slots as done as they were. */
  lemma StaysDone(n0: seq<Node>, n1: seq<Node>, n2: seq<Node>, coords: seq<Coord>, n: nat, j: nat, m: nat)
    requires Placed(n1, coords) && |n0| == |n1| == |n2| && n < |n1|
    requires j < P_L2_SIZE && m < P_L2_SIZE && m != j && |n0[n]| == |n1[n]| == P_L2_SIZE
    requires OnlySlot(n1, n2, coords, n, j)
    requires SlotDone(n0, n1, coords, n, m)
    ensures SlotDone(n0, n2, coords, n, m)
  {
    var k, lo := coords[n].level, SlotLo(coords[n].base, coords[n].level, m);
    assert NodePlaced(n1, coords, n);
    forall x | 0 <= x < |n1| && Inside(coords[x], k, lo)
      ensures n2[x] == n1[x]
    {
      SlotsApart(coords[x], coords[n].base, k, m, j);
    }
    forall p | lo <= p < lo + Span(k)
      ensures WidenedAt(n0, n0[n][m], n2, n2[n][m], k, lo, p)
    {
      assert WidenedAt(n0, n0[n][m], n1, n1[n][m], k, lo, p);
      WalkFrame(n1, n2, coords, n1[n][m], k, lo, p);
    }
  }

  /** The slot just compacted is done, although compaction started from `n1`. */
  lemma NowDone(n0: seq<Node>, n1: seq<Node>, n2: seq<Node>, coords: seq<Coord>, n: nat, j: nat)
    requires Placed(n0, coords) && Placed(n1, coords) && |n0| == |n1| == |n2| && n < |n1| && j < P_L2_SIZE
    requires |n0[n]| == |n1[n]| == |n2[n]| == P_L2_SIZE && n1[n][j] == n0[n][j]
    requires forall x | 0 <= x < |n0|
               && Inside(coords[x], coords[n].level, SlotLo(coords[n].base, coords[n].level, j)) ::
               n1[x] == n0[x]
    requires SlotDone(n1, n2, coords, n, j)
    ensures SlotDone(n0, n2, coords, n, j)
  {
    var k, lo := coords[n].level, SlotLo(coords[n].base, coords[n].level, j);
    assert NodePlaced(n0, coords, n);
    forall p: nat
      ensures Walk(n0, n0[n][j], k, p) == Walk(n1, n1[n][j], k, p)
    {
      WalkFrame(n0, n1, coords, n0[n][j], k, lo, p);
    }
    forall p | lo <= p < lo + Span(k)
      ensures WidenedAt(n0, n0[n][j], n2, n2[n][j], k, lo, p)
    {
      assert WidenedAt(n1, n1[n][j], n2, n2[n][j], k, lo, p);
    }
  }

  /** All slots of a node done: the entry pointing at the node is done. */
  lemma NodeDone(n0: seq<Node>, n1: seq<Node>, coords: seq<Coord>, n: nat, p: nat)
    requires |coords| == |n0| == |n1| && n < |n0| && n != PHYS_MAP_NODE_NIL
    requires |n0[n]| == |n1[n]| == P_L2_SIZE && coords[n].base % Span(coords[n].level + 1) == 0
    requires forall m | 0 <= m < P_L2_SIZE :: SlotDone(n0, n1, coords, n, m)
    requires coords[n].base <= p < coords[n].base + Span(coords[n].level + 1)
    ensures WidenedAt(n0, Entry(1, n), n1, Entry(1, n), coords[n].level + 1, coords[n].base, p)
  {
    var k, base := coords[n].level, coords[n].base;
    SlotOfDigit(base, k, p);
    var d := Digit(p, k);
    assert SlotDone(n0, n1, coords, n, d);
    assert WidenedAt(n0, n0[n][d], n1, n1[n][d], k, SlotLo(base, k, d), p);
    WalkThrough(n0, n, k, p);
    WalkThrough(n1, n, k, p);
    if Walk(n1, n1[n][d], k, p) != Walk(n0, n0[n][d], k, p) {
      SeenInNode(n0, n, k, base, d, Walk(n1, n1[n][d], k, p));
    }
  }

  lemma SeenInNode(nodes: seq<Node>, n: nat, k: nat, base: nat, d: nat, h: Hit)
    requires n < |nodes| && n != PHYS_MAP_NODE_NIL && d < P_L2_SIZE == |nodes[n]|
    requires base % Span(k + 1) == 0
    requires Seen(nodes, nodes[n][d], k, SlotLo(base, k, d), h)
    ensures Seen(nodes, Entry(1, n), k + 1, base, h)
  {
    var q :| SlotLo(base, k, d) <= q < SlotLo(base, k, d) + Span(k) && Walk(nodes, nodes[n][d], k, q) == h;
    DigitOfSlot(base, k, d, q);
    SlotInside(base, k, d);
    WalkThrough(nodes, n, k, q);
  }

  /** Replacing the entry of a node with a single child by that child widens
      walks at most: pages of the other slots all used to miss. */
  lemma LiftDone(n0: seq<Node>, n1: seq<Node>, coords: seq<Coord>, n: nat, v: nat, p: nat)
    requires Placed(n0, coords) && |n0| == |n1| && n < |n0| && v < P_L2_SIZE
    requires |n0[n]| == |n1[n]| == P_L2_SIZE
    requires forall m | 0 <= m < P_L2_SIZE :: SlotDone(n0, n1, coords, n, m)
    requires forall m | 0 <= m < P_L2_SIZE && m != v :: n1[n][m].ptr == PHYS_MAP_NODE_NIL
    requires coords[n].base <= p < coords[n].base + Span(coords[n].level + 1)
    ensures WidenedAt(n0, Entry(1, n), n1, Lifted(n1[n][v]), coords[n].level + 1, coords[n].base, p)
  {
    var k, base := coords[n].level, coords[n].base;
    assert NodePlaced(n0, coords, n);
    SlotOfDigit(base, k, p);
    var d := Digit(p, k);
    WalkThrough(n0, n, k, p);
    LiftedWalk(n1, n1[n][v], k, p);
    if d == v {
      NodeDone(n0, n1, coords, n, p);
      WalkThrough(n1, n, k, p);
    } else {
      assert SlotDone(n0, n1, coords, n, d);
      assert EntryPlaced(n0, coords, n0[n][d], k, SlotLo(base, k, d));
      assert Walk(n0, n0[n][d], k, p).Miss?;
      var q := SamePlace(base, k, d, v, p);
      WalkMod(n1, n1[n][v], k, p, q);
      LiftSeen(n0, n1, coords, n, v, q);
    }
  }

  lemma LiftSeen(n0: seq<Node>, n1: seq<Node>, coords: seq<Coord>, n: nat, v: nat, q: nat)
    requires |coords| == |n0| == |n1| && n < |n0| && v < P_L2_SIZE && n != PHYS_MAP_NODE_NIL
    requires |n0[n]| == |n1[n]| == P_L2_SIZE && coords[n].base % Span(coords[n].level + 1) == 0
    requires SlotDone(n0, n1, coords, n, v)
    requires SlotLo(coords[n].base, coords[n].level, v) <= q
             < SlotLo(coords[n].base, coords[n].level, v) + Span(coords[n].level)
    ensures Seen(n0, Entry(1, n), coords[n].level + 1, coords[n].base, Walk(n1, n1[n][v], coords[n].level, q))
  {
    var k, base := coords[n].level, coords[n].base;
    var h := Walk(n1, n1[n][v], k, q);
    assert WidenedAt(n0, n0[n][v], n1, n1[n][v], k, SlotLo(base, k, v), q);
    assert Seen(n0, n0[n][v], k, SlotLo(base, k, v), h);
    SeenInNode(n0, n, k, base, v, h);
  }

  // ---- The sweep over the slots of one node ----

  /** Slot `m` of node `n`, and everything below it, is as it was in `n0`. */
  ghost predicate SlotIntact(n0: seq<Node>, n1: seq<Node>, coords: seq<Coord>, n: nat, m: nat)
    requires |coords| == |n0| == |n1| && n < |n0| && m < P_L2_SIZE
    requires |n0[n]| == |n1[n]| == P_L2_SIZE
  {
    && n1[n][m] == n0[n][m]
    && forall x | 0 <= x < |n0| && Inside(coords[x], coords[n].level, SlotLo(coords[n].base, coords[n].level, m)) ::
         n1[x] == n0[x]
  }

  /** Slots below `i` of node `n` are compacted, the others not yet touched. */
  ghost predicate Swept(n0: seq<Node>, n1: seq<Node>, coords: seq<Coord>, n: nat, i: nat) {
    && Placed(n0, coords) && Placed(n1, coords) && |n0| == |n1| && n < |n0|
    && |n0[n]| == |n1[n]| == P_L2_SIZE
    && (forall m | 0 <= m < P_L2_SIZE :: SlotDone(n0, n1, coords, n, m))
    && (forall m | i <= m < P_L2_SIZE :: SlotIntact(n0, n1, coords, n, m))
  }

  lemma SweepStart(nodes: seq<Node>, coords: seq<Coord>, n: nat)
    requires Placed(nodes, coords) && n < |nodes|
    ensures Swept(nodes, nodes, coords, n, 0)
  {
    assert NodePlaced(nodes, coords, n);
    forall m | 0 <= m < P_L2_SIZE
      ensures SlotDone(nodes, nodes, coords, n, m)
    {
      UntouchedDone(nodes, nodes, coords, n, m);
    }
  }

  lemma SweepSkip(n0: seq<Node>, n1: seq<Node>, coords: seq<Coord>, n: nat, i: nat)
    requires Swept(n0, n1, coords, n, i)
    ensures Swept(n0, n1, coords, n, i + 1)
    ensures i < P_L2_SIZE ==> n1[n][i] == n0[n][i]
  {
    if i < P_L2_SIZE {
      assert SlotIntact(n0, n1, coords, n, i);
    }
  }

  lemma SweepStep(n0: seq<Node>, n1: seq<Node>, n2: seq<Node>, coords: seq<Coord>, n: nat, i: nat)
    requires Swept(n0, n1, coords, n, i) && i < P_L2_SIZE
    requires Placed(n2, coords) && |n2| == |n1| && OnlySlot(n1, n2, coords, n, i)
    requires SlotDone(n1, n2, coords, n, i)
    ensures Swept(n0, n2, coords, n, i + 1)
  {
    assert SlotIntact(n0, n1, coords, n, i);
    NowDone(n0, n1, n2, coords, n, i);
    forall m | 0 <= m < P_L2_SIZE && m != i
      ensures SlotDone(n0, n2, coords, n, m)
    {
      StaysDone(n0, n1, n2, coords, n, i, m);
    }
    forall m | i + 1 <= m < P_L2_SIZE
      ensures SlotIntact(n0, n2, coords, n, m)
    {
      StaysIntact(n0, n1, n2, coords, n, i, m);
    }
  }

  lemma StaysIntact(n0: seq<Node>, n1: seq<Node>, n2: seq<Node>, coords: seq<Coord>, n: nat, j: nat, m: nat)
    requires |coords| == |n0| == |n1| == |n2| && n < |n1|
    requires j < P_L2_SIZE && m < P_L2_SIZE && m != j && |n0[n]| == |n1[n]| == P_L2_SIZE
    requires OnlySlot(n1, n2, coords, n, j) && SlotIntact(n0, n1, coords, n, m)
    ensures SlotIntact(n0, n2, coords, n, m)
  {
    var k, lo := coords[n].level, SlotLo(coords[n].base, coords[n].level, m);
    forall x | 0 <= x < |n1| && Inside(coords[x], k, lo)
      ensures n2[x] == n0[x]
    {
      SlotsApart(coords[x], coords[n].base, k, m, j);
    }
  }

  /** A slot not yet touched can be compacted. */
  lemma SlotReady(n0: seq<Node>, n1: seq<Node>, coords: seq<Coord>, n: nat, i: nat)
    requires Swept(n0, n1, coords, n, i) && i < P_L2_SIZE
    requires UncompactedUnder(n0, coords, coords[n].level + 1, coords[n].base)
    requires n1[n][i].skip != 0
    ensures n1[n][i].skip == 1 && coords[n].level >= 1
    ensures SlotLo(coords[n].base, coords[n].level, i) % Span(coords[n].level) == 0
    ensures UncompactedUnder(n1, coords, coords[n].level, SlotLo(coords[n].base, coords[n].level, i))
  {
    var k, base := coords[n].level, coords[n].base;
    assert NodePlaced(n0, coords, n);
    assert SlotIntact(n0, n1, coords, n, i);
    assert Inside(coords[n], k + 1, base);
    SlotAligned(base, k, i);
    SlotInside(base, k, i);
    assert EntryPlaced(n0, coords, n0[n][i], k, SlotLo(base, k, i));
    var lo := SlotLo(base, k, i);
    forall x, j | 0 <= x < |n1| && 0 <= j < |n1[x]| && Inside(coords[x], k, lo)
      ensures n1[x][j].skip <= 1
    {
      assert Inside(coords[x], k + 1, base);
    }
  }

  /** What `valid` and `valid_ptr` mean after looking at the first `i` slots. */
  ghost predicate Counted(node: Node, i: nat, valid: nat, validPtr: nat)
    requires i <= |node|
  {
    && (valid == 0 ==> forall m | 0 <= m < i :: node[m].ptr == PHYS_MAP_NODE_NIL)
    && (valid == 1 ==> validPtr < i && node[validPtr].ptr != PHYS_MAP_NODE_NIL
                       && forall m | 0 <= m < i && m != validPtr :: node[m].ptr == PHYS_MAP_NODE_NIL)
  }

  lemma CountStep(node: Node, i: nat, valid: nat, validPtr: nat)
    requires i < |node| && Counted(node, i, valid, validPtr)
    ensures if node[i].ptr == PHYS_MAP_NODE_NIL then Counted(node, i + 1, valid, validPtr)
            else Counted(node, i + 1, valid + 1, i)
  {
  }

  lemma WidenedKept(n0: seq<Node>, n1: seq<Node>, coords: seq<Coord>, n: nat)
    requires Swept(n0, n1, coords, n, P_L2_SIZE)
    ensures Widened(n0, Entry(1, n), n1, Entry(1, n), coords[n].level + 1, coords[n].base)
  {
    var level, base := coords[n].level + 1, coords[n].base;
    assert NodePlaced(n0, coords, n);
    forall p | base <= p < base + Span(level)
      ensures WidenedAt(n0, Entry(1, n), n1, Entry(1, n), level, base, p)
    {
      NodeDone(n0, n1, coords, n, p);
    }
  }

  /** Lifting the only child of node `n` into the entry `lp` above it. */
  lemma WidenedLifted(n0: seq<Node>, n1: seq<Node>, n2: seq<Node>, coords: seq<Coord>, n: nat, v: nat, lp: Loc)
    requires Swept(n0, n1, coords, n, P_L2_SIZE) && v < P_L2_SIZE
    requires Counted(n0[n], P_L2_SIZE, 1, v)
    requires |n2| == |n1| && OnlyUnder(n1, n2, coords, lp, coords[n].level + 1, coords[n].base)
    requires forall x | 0 <= x < |n1| && Inside(coords[x], coords[n].level + 1, coords[n].base) :: n2[x] == n1[x]
    ensures EntryPlaced(n1, coords, Lifted(n1[n][v]), coords[n].level + 1, coords[n].base)
    ensures Widened(n0, Entry(1, n), n2, Lifted(n1[n][v]), coords[n].level + 1, coords[n].base)
  {
    var k, base, level, e' := coords[n].level, coords[n].base, coords[n].level + 1, Lifted(n1[n][v]);
    assert NodePlaced(n1, coords, n);
    SlotInside(base, k, v);
    assert EntryPlaced(n1, coords, n1[n][v], k, SlotLo(base, k, v));
    assert EntryPlaced(n1, coords, e', level, base);
    forall m | 0 <= m < P_L2_SIZE && m != v
      ensures n1[n][m].ptr == PHYS_MAP_NODE_NIL
    {
      assert SlotDone(n0, n1, coords, n, m);
    }
    forall p | base <= p < base + Span(level)
      ensures WidenedAt(n0, Entry(1, n), n2, e', level, base, p)
    {
      LiftDone(n0, n1, coords, n, v, p);
      WalkFrame(n1, n2, coords, e', level, base, p);
    }
  }
}
