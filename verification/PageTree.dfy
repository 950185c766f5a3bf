/** The multi-level page table as a value: entries, nodes, the walk that a lookup
    performs, and the placement discipline that keeps subtrees apart. */
module PageTree {
  import opened Radix

  const PHYS_MAP_NODE_NIL: nat := 0x3ff_ffff
  const PHYS_SECTION_UNASSIGNED: nat := 0

  /** `skip` levels to the next node, 0 for a leaf; `ptr` indexes the section
      table (leaf) or the node array (non-leaf). */
  datatype Entry = Entry(skip: nat, ptr: nat)

  type Node = seq<Entry>

  /** A `PhysPageEntry *`: the map's own root entry or a slot of a node. */
  datatype Loc = Root | Slot(node: nat, idx: nat)

  /** Outcome of walking the table for one page. */
  datatype Hit = Miss | Leaf(ptr: nat)

  function SectionOf(h: Hit): (r: nat) {
    if h.Leaf? then h.ptr else PHYS_SECTION_UNASSIGNED
  }

  /** The entry followed next when the walk stands at `e` with `level` digits left. */
  predicate Descends(nodes: seq<Node>, e: Entry, level: nat) {
    && 0 < e.skip <= level
    && e.ptr != PHYS_MAP_NODE_NIL
    && e.ptr < |nodes|
    && |nodes[e.ptr]| == P_L2_SIZE
  }

  /** Walks the table for page `p` from entry `e` with `level` digits left. */
  function Walk(nodes: seq<Node>, e: Entry, level: nat, p: nat): (h: Hit)
    decreases level
  {
    if e.skip == 0 then Leaf(e.ptr)
    else if !Descends(nodes, e, level) then Miss
    else Walk(nodes, nodes[e.ptr][Digit(p, level - e.skip)], level - e.skip, p)
  }

  /** The flat page map that the tree stands for. */
  function Flat(nodes: seq<Node>, e: Entry, level: nat, p: nat): (r: nat) {
    SectionOf(Walk(nodes, e, level, p))
  }

  /** Page `p` is resolved by a leaf that covers more than one page. */
  ghost predicate UnderSuper(nodes: seq<Node>, e: Entry, level: nat, p: nat)
    decreases level
  {
    if e.skip == 0 then level > 0
    else Descends(nodes, e, level) &&
         UnderSuper(nodes, nodes[e.ptr][Digit(p, level - e.skip)], level - e.skip, p)
  }

  /** Where a node sits: it is indexed by digit `level` and covers
      `Span(level + 1)` pages from page `base`. */
  datatype Coord = Coord(level: nat, base: nat)

  /** The node at `c` lies strictly below a slot of `Span(level)` pages at `lo`. */
  ghost predicate Inside(c: Coord, level: nat, lo: nat) {
    c.level < level && lo <= c.base && c.base + Span(c.level + 1) <= lo + Span(level)
  }

  /** Entry `e`, sitting in a slot of `Span(level)` pages at `lo`, is a leaf, is
      empty, or points at a node below its own slot. */
  ghost predicate EntryPlaced(nodes: seq<Node>, coords: seq<Coord>, e: Entry, level: nat, lo: nat)
    requires |coords| == |nodes|
  {
    if e.skip == 0 then e.ptr <= 0xffff
    else
    (e.skip <= level &&
     (e.ptr == PHYS_MAP_NODE_NIL ||
      (e.ptr < |nodes| && coords[e.ptr].level == level - e.skip && Inside(coords[e.ptr], level, lo))))
  }

  ghost predicate NodePlaced(nodes: seq<Node>, coords: seq<Coord>, n: nat)
    requires |coords| == |nodes| && n < |nodes|
  {
    && |nodes[n]| == P_L2_SIZE
    && coords[n].base % Span(coords[n].level + 1) == 0
    && forall j | 0 <= j < P_L2_SIZE ::
         EntryPlaced(nodes, coords, nodes[n][j], coords[n].level, SlotLo(coords[n].base, coords[n].level, j))
  }

  ghost predicate Placed(nodes: seq<Node>, coords: seq<Coord>) {
    && |coords| == |nodes| <= PHYS_MAP_NODE_NIL
    && forall n | 0 <= n < |nodes| :: NodePlaced(nodes, coords, n)
  }

  /** Before compaction every non-leaf entry skips exactly one level. */
  ghost predicate Uncompacted(nodes: seq<Node>) {
    forall n, j | 0 <= n < |nodes| && 0 <= j < |nodes[n]| :: nodes[n][j].skip <= 1
  }

  /** Whatever happens to nodes elsewhere, a walk that starts in a slot is not
      affected: it only ever visits nodes below that slot. */
  lemma {:induction false} WalkFrame(nodes: seq<Node>, nodes': seq<Node>, coords: seq<Coord>,
                                     e: Entry, level: nat, lo: nat, p: nat)
    requires Placed(nodes, coords) && |nodes| <= |nodes'|
    requires EntryPlaced(nodes, coords, e, level, lo)
    requires forall n | 0 <= n < |nodes| && Inside(coords[n], level, lo) :: nodes'[n] == nodes[n]
    ensures Walk(nodes', e, level, p) == Walk(nodes, e, level, p)
    ensures UnderSuper(nodes', e, level, p) == UnderSuper(nodes, e, level, p)
    decreases level
  {
    if Descends(nodes, e, level) {
      var n, k := e.ptr, level - e.skip;
      assert NodePlaced(nodes, coords, n);
      var d := Digit(p, k);
      var lo' := SlotLo(coords[n].base, k, d);
      SlotInside(coords[n].base, k, d);
      assert forall m | 0 <= m < |nodes| && Inside(coords[m], k, lo') :: Inside(coords[m], level, lo);
      WalkFrame(nodes, nodes', coords, nodes[n][d], k, lo', p);
    }
  }

  /** Regions of different slots of one node have no node in common. */
  lemma SlotsApart(c: Coord, base: nat, level: nat, i: nat, j: nat)
    requires i != j
    requires Inside(c, level, SlotLo(base, level, i))
    ensures !Inside(c, level, SlotLo(base, level, j))
  {
    if i < j {
      SlotMono(base, level, i, j);
    } else {
      SlotMono(base, level, j, i);
    }
  }

  /** Changing slot `j` of node `n`, and nodes below that slot, leaves the walks
      through every other slot of `n` as they were. */
  lemma OtherSlots(nodes: seq<Node>, nodes': seq<Node>, coords: seq<Coord>, n: nat, j: nat, p: nat)
    requires Placed(nodes, coords) && n < |nodes| && OnlySlot(nodes, nodes', coords, n, j)
    requires Digit(p, coords[n].level) != j
    ensures var k := coords[n].level; var d := Digit(p, k);
            && Walk(nodes', nodes'[n][d], k, p) == Walk(nodes, nodes[n][d], k, p)
            && UnderSuper(nodes', nodes'[n][d], k, p) == UnderSuper(nodes, nodes[n][d], k, p)
  {
    var k, b := coords[n].level, coords[n].base;
    var d := Digit(p, k);
    assert NodePlaced(nodes, coords, n);
    forall m | 0 <= m < |nodes| && Inside(coords[m], k, SlotLo(b, k, d))
      ensures nodes'[m] == nodes[m]
    {
      SlotsApart(coords[m], b, k, d, j);
    }
    WalkFrame(nodes, nodes', coords, nodes[n][d], k, SlotLo(b, k, d), p);
  }

  // ---- Building: what one update does to the pages of a slot ----

  /** Between (`nodes`, `e`) and (`nodes'`, `e'`), page `p` got section `leaf` if it
      is in `[a, b)` and kept its section otherwise; a leaf wider than a page
      covers it only if one did before or it is in `[a, b)`. */
  ghost predicate PaintedAt(nodes: seq<Node>, e: Entry, nodes': seq<Node>, e': Entry,
                            level: nat, p: nat, a: nat, b: nat, leaf: nat)
  {
    && Flat(nodes', e', level, p) == (if a <= p < b then leaf else Flat(nodes, e, level, p))
    && (UnderSuper(nodes', e', level, p) ==> a <= p < b || UnderSuper(nodes, e, level, p))
  }

  /** The pages `[a, b)` of a slot got section `leaf`, no other page of it changed. */
  ghost predicate Painted(nodes: seq<Node>, e: Entry, nodes': seq<Node>, e': Entry,
                          level: nat, lo: nat, a: nat, b: nat, leaf: nat)
  {
    forall p | lo <= p < lo + Span(level) :: PaintedAt(nodes, e, nodes', e', level, p, a, b, leaf)
  }

  lemma PaintedTrans(n0: seq<Node>, e0: Entry, n1: seq<Node>, e1: Entry, n2: seq<Node>, e2: Entry,
                     level: nat, lo: nat, a: nat, b: nat, c: nat, leaf: nat)
    requires a <= b <= c
    requires Painted(n0, e0, n1, e1, level, lo, a, b, leaf)
    requires Painted(n1, e1, n2, e2, level, lo, b, c, leaf)
    ensures Painted(n0, e0, n2, e2, level, lo, a, c, leaf)
  {
    forall p | lo <= p < lo + Span(level)
      ensures PaintedAt(n0, e0, n2, e2, level, p, a, c, leaf)
    {
      assert PaintedAt(n0, e0, n1, e1, level, p, a, b, leaf);
      assert PaintedAt(n1, e1, n2, e2, level, p, b, c, leaf);
    }
  }

  /** Only slot `j` of node `n`, nodes below that slot and new nodes differ. */
  ghost predicate OnlySlot(nodes: seq<Node>, nodes': seq<Node>, coords: seq<Coord>, n: nat, j: nat)
    requires |coords| == |nodes| && n < |nodes|
  {
    && |nodes| <= |nodes'|
    && j < P_L2_SIZE == |nodes[n]| == |nodes'[n]|
    && (forall i | 0 <= i < P_L2_SIZE && i != j :: nodes'[n][i] == nodes[n][i])
    && (forall m | 0 <= m < |nodes| && m != n
          && !Inside(coords[m], coords[n].level, SlotLo(coords[n].base, coords[n].level, j)) ::
          nodes'[m] == nodes[m])
  }

  /** Painting inside one slot of a node is painting inside the node. */
  lemma PaintSlot(nodes: seq<Node>, nodes': seq<Node>, coords: seq<Coord>, n: nat, j: nat,
                  a: nat, b: nat, leaf: nat)
    requires Placed(nodes, coords) && n < |nodes| && OnlySlot(nodes, nodes', coords, n, j)
    requires SlotLo(coords[n].base, coords[n].level, j) <= a <= b
             <= SlotLo(coords[n].base, coords[n].level, j) + Span(coords[n].level)
    requires Painted(nodes, nodes[n][j], nodes', nodes'[n][j], coords[n].level,
                     SlotLo(coords[n].base, coords[n].level, j), a, b, leaf)
    ensures Painted(nodes, Entry(1, n), nodes', Entry(1, n), coords[n].level + 1,
                    coords[n].base, a, b, leaf)
  {
    var k, base := coords[n].level, coords[n].base;
    var level := k + 1;
    forall p | base <= p < base + Span(level)
      ensures PaintedAt(nodes, Entry(1, n), nodes', Entry(1, n), level, p, a, b, leaf)
    {
      PaintSlotAt(nodes, nodes', coords, n, j, p, a, b, leaf);
    }
  }

  lemma PaintSlotAt(nodes: seq<Node>, nodes': seq<Node>, coords: seq<Coord>, n: nat, j: nat, p: nat,
                    a: nat, b: nat, leaf: nat)
    requires Placed(nodes, coords) && n < |nodes| && OnlySlot(nodes, nodes', coords, n, j)
    requires SlotLo(coords[n].base, coords[n].level, j) <= a <= b
             <= SlotLo(coords[n].base, coords[n].level, j) + Span(coords[n].level)
    requires Painted(nodes, nodes[n][j], nodes', nodes'[n][j], coords[n].level,
                     SlotLo(coords[n].base, coords[n].level, j), a, b, leaf)
    requires coords[n].base <= p < coords[n].base + Span(coords[n].level + 1)
    ensures PaintedAt(nodes, Entry(1, n), nodes', Entry(1, n), coords[n].level + 1, p, a, b, leaf)
  {
    hide Walk, UnderSuper, Digit, EntryPlaced, Inside, SlotLo, Span;
    var k, base := coords[n].level, coords[n].base;
    assert NodePlaced(nodes, coords, n);
    SlotOfDigit(base, k, p);
    var d := Digit(p, k);
    WalkThrough(nodes, n, k, p);
    WalkThrough(nodes', n, k, p);
    if d == j {
      assert PaintedAt(nodes, nodes[n][j], nodes', nodes'[n][j], k, p, a, b, leaf);
    } else {
      OtherSlots(nodes, nodes', coords, n, j, p);
      assert !(a <= p < b) by {
        if a <= p < b {
          DigitOfSlot(base, k, j, p);
        }
      }
    }
  }

  /** One step of a walk through an uncompacted entry. */
  lemma WalkThrough(nodes: seq<Node>, n: nat, k: nat, p: nat)
    requires n < |nodes| && n != PHYS_MAP_NODE_NIL && |nodes[n]| == P_L2_SIZE
    ensures Walk(nodes, Entry(1, n), k + 1, p) == Walk(nodes, nodes[n][Digit(p, k)], k, p)
    ensures UnderSuper(nodes, Entry(1, n), k + 1, p) == UnderSuper(nodes, nodes[n][Digit(p, k)], k, p)
  {
  }

  /** Only the entry `lp`, whose slot is `Span(level)` pages at `lo`, nodes below
      that slot and new nodes differ. */
  ghost predicate OnlyUnder(nodes: seq<Node>, nodes': seq<Node>, coords: seq<Coord>,
                            lp: Loc, level: nat, lo: nat)
    requires |coords| == |nodes|
  {
    && |nodes| <= |nodes'|
    && forall m | 0 <= m < |nodes| && !Inside(coords[m], level, lo) ::
         SameBut(nodes[m], nodes'[m], lp, m)
  }

  /** Nodes agree, except that node `m` may differ in the entry `lp`. */
  ghost predicate SameBut(node: Node, node': Node, lp: Loc, m: nat) {
    if lp.Slot? && lp.node == m
    then |node| == |node'| && forall i | 0 <= i < |node| && i != lp.idx :: node'[i] == node[i]
    else node' == node
  }

  /** A change under slot `j` of node `n` is a change under the entry `lp` of `n`. */
  lemma UnderParent(n0: seq<Node>, n1: seq<Node>, n2: seq<Node>, c0: seq<Coord>, c1: seq<Coord>,
                    lp: Loc, level: nat, lo: nat, n: nat, j: nat)
    requires |c0| == |n0| <= |n1| == |c1| && c0 == c1[..|c0|]
    requires OnlyUnder(n0, n1, c0, lp, level + 1, lo)
    requires n < |n1| && c1[n] == Coord(level, lo) && j < P_L2_SIZE
    requires OnlyUnder(n1, n2, c1, Slot(n, j), level, SlotLo(lo, level, j))
    ensures OnlyUnder(n0, n2, c0, lp, level + 1, lo)
  {
    SlotInside(lo, level, j);
    forall m | 0 <= m < |n0| && !Inside(c0[m], level + 1, lo)
      ensures SameBut(n0[m], n2[m], lp, m)
    {
      assert SameBut(n0[m], n1[m], lp, m);
      assert c1[m] == c0[m] && m != n;
      assert !Inside(c1[m], level, SlotLo(lo, level, j));
      assert SameBut(n1[m], n2[m], Slot(n, j), m);
    }
  }

  lemma UnderSlot(nodes: seq<Node>, nodes': seq<Node>, coords: seq<Coord>, n: nat, j: nat)
    requires |coords| == |nodes| && n < |nodes| && j < P_L2_SIZE == |nodes[n]|
    requires OnlyUnder(nodes, nodes', coords, Slot(n, j), coords[n].level,
                       SlotLo(coords[n].base, coords[n].level, j))
    ensures OnlySlot(nodes, nodes', coords, n, j)
  {
    assert SameBut(nodes[n], nodes'[n], Slot(n, j), n);
    forall m | 0 <= m < |nodes| && m != n
          && !Inside(coords[m], coords[n].level, SlotLo(coords[n].base, coords[n].level, j))
      ensures nodes'[m] == nodes[m]
    {
      assert SameBut(nodes[m], nodes'[m], Slot(n, j), m);
    }
  }

  lemma PlacedUpdate(nodes: seq<Node>, coords: seq<Coord>, n: nat, j: nat, e: Entry)
    requires Placed(nodes, coords) && n < |nodes| && j < P_L2_SIZE
    requires |nodes[n]| == P_L2_SIZE
    requires EntryPlaced(nodes, coords, e, coords[n].level, SlotLo(coords[n].base, coords[n].level, j))
    ensures Placed(nodes[n := nodes[n][j := e]], coords)
  {
    var nodes' := nodes[n := nodes[n][j := e]];
    forall m | 0 <= m < |nodes'|
      ensures NodePlaced(nodes', coords, m)
    {
      assert NodePlaced(nodes, coords, m);
    }
  }

  lemma PlacedAppend(nodes: seq<Node>, coords: seq<Coord>, node: Node, c: Coord)
    requires Placed(nodes, coords) && |nodes| < PHYS_MAP_NODE_NIL
    requires |node| == P_L2_SIZE && c.base % Span(c.level + 1) == 0
    requires forall j | 0 <= j < P_L2_SIZE ::
               if node[j].skip == 0 then node[j].ptr <= 0xffff
               else node[j].skip <= c.level && node[j].ptr == PHYS_MAP_NODE_NIL
    ensures Placed(nodes + [node], coords + [c])
  {
    var nodes', coords' := nodes + [node], coords + [c];
    forall m | 0 <= m < |nodes'|
      ensures NodePlaced(nodes', coords', m)
    {
      if m < |nodes| {
        assert NodePlaced(nodes, coords, m);
      }
    }
  }
}
