/** The physical page map of exec.c: a radix tree over page indices, updated in
    place, path-compressed once at commit, and read by `PageFind`. */
module PhysMap {
  import opened Radix
  import opened Pages
  import opened PageTree
  import opened Compaction
  import opened Sections

  class PhysPageMap {
    var root: Entry
    var nodes: seq<Node>
    var nodesAlloc: nat
    ghost var coords: seq<Coord>

    /** Well-formed, compacted or not. */
    ghost predicate Valid()
      reads this
    {
      && Placed(nodes, coords)
      && |nodes| <= nodesAlloc
      && EntryPlaced(nodes, coords, root, P_L2_LEVELS, 0)
    }

    /** Well-formed and still under construction. */
    ghost predicate Growing()
      reads this
    {
      Valid() && Uncompacted(nodes) && root.skip == 1
    }

    /** The section number of page `p`. */
    ghost function PageMap(p: nat): (r: nat)
      reads this
    {
      Flat(nodes, root, P_L2_LEVELS, p)
    }

    ghost predicate Super(p: nat)
      reads this
    {
      UnderSuper(nodes, root, P_L2_LEVELS, p)
    }

    /** `lp` is an entry whose slot has `level` digits below it and starts at page `lo`. */
    ghost predicate At(lp: Loc, level: nat, lo: nat)
      reads this
    {
      match lp
      case Root => level == P_L2_LEVELS && lo == 0
      case Slot(n, j) =>
        && n < |nodes| && n < |coords| && j < P_L2_SIZE && |nodes[n]| == P_L2_SIZE
        && level == coords[n].level && lo == SlotLo(coords[n].base, level, j)
    }

    predicate InBounds(lp: Loc)
      reads this
    {
      lp.Slot? ==> lp.node < |nodes| && lp.idx < |nodes[lp.node]|
    }

    function Get(lp: Loc): (e: Entry)
      requires InBounds(lp)
      reads this
    {
      if lp.Root? then root else nodes[lp.node][lp.idx]
    }

    method Set(lp: Loc, e: Entry)
      requires InBounds(lp)
      modifies this`root, this`nodes
      ensures lp.Root? ==> root == e && nodes == old(nodes)
      ensures lp.Slot? ==> root == old(root) &&
                           nodes == old(nodes)[lp.node := old(nodes)[lp.node][lp.idx := e]]
      ensures InBounds(lp) && Get(lp) == e
    {
      match lp
      case Root => root := e;
      case Slot(n, j) => nodes := nodes[n := nodes[n][j := e]];
    }

    /** The empty map that `mem_begin` installs. */
    constructor ()
      ensures Growing() && nodes == [] && nodesAlloc == 0
      ensures forall p: nat :: PageMap(p) == PHYS_SECTION_UNASSIGNED && !Super(p)
    {
      root := Entry(1, PHYS_MAP_NODE_NIL);
      nodes, coords, nodesAlloc := [], [], 0;
    }

    method NodeReserve(n: nat)
      modifies this`nodesAlloc
      ensures nodesAlloc >= old(nodesAlloc) && nodesAlloc >= |nodes| + n
      ensures |nodes| + n <= old(nodesAlloc) ==> nodesAlloc == old(nodesAlloc)
    {
      if |nodes| + n > nodesAlloc {
        nodesAlloc := Max(nodesAlloc * 2, 16);
        nodesAlloc := Max(nodesAlloc, |nodes| + n);
      }
    }

    /** Takes the next node of the reserved array; both assertions of the source
        are the first two preconditions. */
    method NodeAlloc(leaf: bool, ghost c: Coord) returns (ret: nat)
      requires |nodes| != PHYS_MAP_NODE_NIL
      requires |nodes| < nodesAlloc
      modifies this`nodes, this`coords
      ensures ret == |old(nodes)| && coords == old(coords) + [c]
      ensures nodes == old(nodes) + [FreshNode(leaf)]
    {
      ret := |nodes|;
      nodes := nodes + [FreshNode(leaf)];
      coords := coords + [c];
    }

    /** First step of `phys_page_set_level`: the node under entry `lp`, allocated if
        the entry is empty. */
    method EnsureNode(lp: Loc, level: nat, ghost lo: nat, ghost index: nat, ghost leaf: nat) returns (n: nat)
      requires Growing() && InBounds(lp) && At(lp, level + 1, lo) && Get(lp).skip == 1
      requires lo % Span(level + 1) == 0
      requires |nodes| < PHYS_MAP_NODE_NIL && |nodes| < nodesAlloc
      modifies this`root, this`nodes, this`coords
      ensures Growing() && InBounds(lp) && At(lp, level + 1, lo)
      ensures n < |nodes| && Get(lp) == Entry(1, n) && coords[n] == Coord(level, lo)
      ensures old(Get(lp)).ptr == PHYS_MAP_NODE_NIL ==> nodes[n] == FreshNode(level == 0)
      ensures Painted(old(nodes), old(Get(lp)), nodes, Get(lp), level + 1, lo, index, index, leaf)
      ensures |old(coords)| <= |coords| && old(coords) == coords[..|old(coords)|]
      ensures OnlyUnder(old(nodes), nodes, old(coords), lp, level + 1, lo)
      ensures lp.Slot? ==> root == old(root)
      ensures |nodes| <= |old(nodes)| + 1
    {
      hide Painted, FreshNode, Uncompacted, Walk, UnderSuper;
      if Get(lp).ptr == PHYS_MAP_NODE_NIL {
        n := NodeAlloc(level == 0, Coord(level, lo));
        Set(lp, Entry(1, n));
        HungPlaced(old(nodes), old(coords), lp, level, lo);
        FreshPaints(old(nodes), nodes, old(Get(lp)), n, level, lo, index, leaf);
      } else {
        n := Get(lp).ptr;
        assert lp.Slot? ==> NodePlaced(nodes, coords, lp.node);
        SamePainted(nodes, Get(lp), level + 1, lo, index, leaf);
      }
    }

    /** Makes slot `j` of node `n` a leaf. */
    method PutLeaf(n: nat, j: nat, leaf: nat, ghost level: nat, ghost lo: nat)
      requires Growing() && n < |nodes| && InBounds(Slot(n, j)) && At(Slot(n, j), level, lo) && leaf <= 0xffff
      modifies this`root, this`nodes
      ensures Growing() && root == old(root) && nodes == old(nodes)[n := old(nodes)[n][j := Entry(0, leaf)]]
      ensures OnlyUnder(old(nodes), nodes, coords, Slot(n, j), level, lo)
      ensures Painted(old(nodes), old(nodes)[n][j], nodes, Entry(0, leaf), level, lo, lo, lo + Span(level), leaf)
    {
      hide Painted, OnlyUnder, Placed, Uncompacted, SlotLo;
      LeafSlot(nodes, coords, n, j, leaf);
      Set(Slot(n, j), Entry(0, leaf));
    }

    /** One round of the loop in `phys_page_set_level`: slot `j` of node `n`. */
    method SetSlot(n: nat, j: nat, index: nat, nb: nat, leaf: nat, level: nat, ghost lo: nat)
      returns (index': nat, nb': nat)
      requires Growing() && n < |nodes| && coords[n] == Coord(level, lo)
      requires j < P_L2_SIZE && nb > 0 && InSlot(lo, level, j, index) && leaf <= 0xffff
      requires Open(nodes, Entry(1, n), level + 1, index, Min(index + nb, lo + Span(level + 1)))
      requires |nodes| + SlotBound(level, SlotLo(lo, level, j), index, nb) <= PHYS_MAP_NODE_NIL
      requires |nodes| + SlotBound(level, SlotLo(lo, level, j), index, nb) <= nodesAlloc
      modifies this`root, this`nodes, this`coords
      ensures Growing() && root == old(root)
      ensures index' == Min(index + nb, SlotLo(lo, level, j) + Span(level)) && index' + nb' == index + nb
      ensures |old(coords)| <= |coords| && old(coords) == coords[..|old(coords)|]
      ensures OnlyUnder(old(nodes), nodes, old(coords), Slot(n, j), level, SlotLo(lo, level, j))
      ensures Painted(old(nodes), Entry(1, n), nodes, Entry(1, n), level + 1, lo, index, index', leaf)
      ensures |nodes| <= |old(nodes)| + SlotBound(level, SlotLo(lo, level, j), index, nb)
      ensures Alone(old(nodes)[n] == FreshNode(false), level, index, nb) ==>
                nb' == 0 && MeetsLoneLeaf(nodes, Entry(1, n), level + 1, index, leaf)
      decreases level, 0
    {
      hide Painted, OnlyUnder, OnlySlot, Placed, Uncompacted, Open, MeetsLoneLeaf, Alone, FreshNode, SlotLo;
      ghost var lo' := SlotLo(lo, level, j);
      NodeShape(nodes, coords, n);
      SlotAligned(lo, level, j);
      AlignedInSlot(lo, level, j, index);
      SlotInside(lo, level, j);
      var step := Span(level);
      if index % step == 0 && nb >= step {
        AloneHere(nodes, n, j, level, index, nb, leaf);
        PutLeaf(n, j, leaf, level, lo');
        index', nb' := index + step, nb - step;
      } else {
        SlotOpen(nodes, coords, n, j, index, nb);
        AloneBelow(nodes[n], j, level, index, nb);
        index', nb' := SetLevel(Slot(n, j), index, nb, leaf, level - 1, lo');
        MeetsBelow(nodes, n, j, level, lo, index, leaf);
      }
      UnderSlot(old(nodes), nodes, old(coords), n, j);
      PaintSlot(old(nodes), nodes, old(coords), n, j, index, index', leaf);
    }

    /** How far the loop of `phys_page_set_level` on entry `lp`, now pointing at node
        `n`, has come since (`n0`, `c0`): pages `[index, i)` are painted. */
    ghost predicate Reached(n0: seq<Node>, c0: seq<Coord>, lp: Loc, r0: Entry, e0: Entry, n: nat, level: nat,
                            lo: nat, index: nat, i: nat, leaf: nat)
      reads this
    {
      && Growing() && InBounds(lp) && At(lp, level + 1, lo) && (lp.Slot? ==> root == r0)
      && n < |nodes| && Get(lp) == Entry(1, n) && coords[n] == Coord(level, lo)
      && |c0| == |n0| <= |coords| && c0 == coords[..|c0|]
      && OnlyUnder(n0, nodes, c0, lp, level + 1, lo)
      && Painted(n0, e0, nodes, Entry(1, n), level + 1, lo, index, i, leaf)
    }

    /** `SetSlot`, seen from the entry that the node hangs under. */
    method Advance(lp: Loc, n: nat, j: nat, i: nat, left: nat, leaf: nat, level: nat, ghost lo: nat,
                   ghost index: nat, ghost nb: nat,
                   ghost n0: seq<Node>, ghost c0: seq<Coord>, ghost r0: Entry, ghost e0: Entry)
      returns (i': nat, left': nat)
      requires Reached(n0, c0, lp, r0, e0, n, level, lo, index, i, leaf)
      requires left > 0 && j < P_L2_SIZE && lo <= index && i + left == index + nb && leaf <= 0xffff
      requires Cursor(level, lo, index, j, i, left)
      requires Open(n0, e0, level + 1, index, Min(index + nb, lo + Span(level + 1)))
      requires |nodes| <= |n0| + Spent(level, lo, index, nb, i)
      requires |n0| + AllocBound(level, lo, index, nb) <= PHYS_MAP_NODE_NIL
      requires |n0| + AllocBound(level, lo, index, nb) <= nodesAlloc
      modifies this`root, this`nodes, this`coords
      ensures Reached(n0, c0, lp, r0, e0, n, level, lo, index, i', leaf)
      ensures i' + left' == index + nb && Cursor(level, lo, index, j + 1, i', left')
      ensures |nodes| <= |n0| + Spent(level, lo, index, nb, i')
      ensures Alone(old(nodes)[n] == FreshNode(false), level, i, left) ==>
                left' == 0 && MeetsLoneLeaf(nodes, Entry(1, n), level + 1, i, leaf)
      decreases level, 1
    {
      hide MeetsLoneLeaf, Alone, FreshNode, Painted, Open, Uncompacted, NodePlaced, EntryPlaced;
      ghost var nodes0, coords0 := nodes, coords;
      SpentStep(level, lo, index, nb, j, i, left);
      StillOpen(n0, e0, nodes, Entry(1, n), level + 1, lo, index, i, leaf, Min(index + nb, lo + Span(level + 1)));
      i', left' := SetSlot(n, j, i, left, leaf, level, lo);
      if lp.Slot? {
        assert SameBut(nodes0[lp.node], nodes[lp.node], Slot(n, j), lp.node);
      }
      UnderParent(n0, nodes0, nodes, c0, coords0, lp, level, lo, n, j);
      PaintedTrans(n0, e0, nodes0, Entry(1, n), nodes, Entry(1, n), level + 1, lo, index, i, i', leaf);
    }

    /** `phys_page_set_level`: gives the pages from `index` on, `nb` of them or up to
        the end of the entry's slot, to section `leaf`. */
    method SetLevel(lp: Loc, index: nat, nb: nat, leaf: nat, level: nat, ghost lo: nat)
      returns (index': nat, nb': nat)
      requires Growing() && InBounds(lp) && At(lp, level + 1, lo) && Get(lp).skip == 1
      requires lo % Span(level + 1) == 0 && lo <= index < lo + Span(level + 1) && leaf <= 0xffff
      requires Open(nodes, Get(lp), level + 1, index, Min(index + nb, lo + Span(level + 1)))
      requires |nodes| + AllocBound(level, lo, index, nb) <= PHYS_MAP_NODE_NIL
      requires |nodes| + AllocBound(level, lo, index, nb) <= nodesAlloc
      modifies this`root, this`nodes, this`coords
      ensures Growing() && InBounds(lp) && At(lp, level + 1, lo) && Get(lp).skip == 1
      ensures index' == Min(index + nb, lo + Span(level + 1)) && index' + nb' == index + nb
      ensures Painted(old(nodes), old(Get(lp)), nodes, Get(lp), level + 1, lo, index, index', leaf)
      ensures |old(coords)| <= |coords| && old(coords) == coords[..|old(coords)|]
      ensures OnlyUnder(old(nodes), nodes, old(coords), lp, level + 1, lo)
      ensures lp.Slot? ==> root == old(root)
      ensures |nodes| <= |old(nodes)| + AllocBound(level, lo, index, nb)
      ensures Alone(old(Get(lp)).ptr == PHYS_MAP_NODE_NIL, level, index, nb) ==>
                nb' == 0 && MeetsLoneLeaf(nodes, Get(lp), level + 1, index, leaf)
      decreases level, 2
    {
      hide MeetsLoneLeaf, Painted, NodePlaced, EntryPlaced, Uncompacted, Open, FreshNode;
      ghost var n0, c0, r0, e0 := nodes, coords, root, Get(lp);
      var n := EnsureNode(lp, level, lo, index, leaf);
      var j := Digit(index, level);
      SlotOfDigit(lo, level, index);
      SlotEnd(lo, level);
      index', nb' := index, nb;
      while nb' > 0 && j < P_L2_SIZE
        invariant Reached(n0, c0, lp, r0, e0, n, level, lo, index, index', leaf)
        invariant index' + nb' == index + nb && Cursor(level, lo, index, j, index', nb')
        invariant |nodes| <= |n0| + Spent(level, lo, index, nb, index')
        invariant Alone(e0.ptr == PHYS_MAP_NODE_NIL, level, index, nb) ==>
                    if nb' > 0 then index' == index && nb' == nb && nodes[n] == FreshNode(false)
                    else MeetsLoneLeaf(nodes, Entry(1, n), level + 1, index, leaf)
        decreases P_L2_SIZE - j
      {
        index', nb' := Advance(lp, n, j, index', nb', leaf, level, lo, index, nb, n0, c0, r0, e0);
        j := j + 1;
      }
    }

    /** `phys_page_set`: exactly a pointwise update of the flat page map. The
        reservation is made once, before the walk, and always suffices. */
    method PageSet(index: nat, nb: nat, leaf: nat)
      requires Growing() && leaf <= 0xffff
      requires index < Span(P_L2_LEVELS) && index + nb <= Span(P_L2_LEVELS)
      requires forall p | index <= p < index + nb :: !Super(p)
      requires |nodes| + 2 * P_L2_LEVELS - 1 <= PHYS_MAP_NODE_NIL
      modifies this
      ensures Growing()
      ensures forall p | 0 <= p < Span(P_L2_LEVELS) ::
                PageMap(p) == if index <= p < index + nb then leaf else old(PageMap(p))
      ensures forall p | 0 <= p < Span(P_L2_LEVELS) && Super(p) :: index <= p < index + nb || old(Super(p))
      ensures |nodes| <= |old(nodes)| + 2 * P_L2_LEVELS - 1
      ensures Alone(old(root).ptr == PHYS_MAP_NODE_NIL, P_L2_LEVELS - 1, index, nb) ==>
                MeetsLoneLeaf(nodes, root, P_L2_LEVELS, index, leaf)
    {
      hide MeetsLoneLeaf, Alone;
      ghost var n0, e0 := nodes, root;
      assert Open(n0, e0, P_L2_LEVELS, index, index + nb) by {
        assert forall p | index <= p < index + nb :: Super(p) == UnderSuper(n0, e0, P_L2_LEVELS, p);
      }
      NodeReserve(3 * P_L2_LEVELS);
      var index', nb' := SetLevel(Root, index, nb, leaf, P_L2_LEVELS - 1, 0);
      PaintedWhole(n0, e0, nodes, root, P_L2_LEVELS, index, index', leaf);
    }

    /** How far the sweep over node `n`, under entry `lp`, has come since `n0`. */
    ghost predicate Sweeping(n0: seq<Node>, lp: Loc, r0: Entry, n: nat, level: nat, lo: nat, i: nat)
      reads this
    {
      && Valid() && InBounds(lp) && At(lp, level + 1, lo) && (lp.Slot? ==> root == r0)
      && Swept(n0, nodes, coords, n, i) && Get(lp) == Entry(1, n) && coords[n] == Coord(level, lo)
      && OnlyUnder(n0, nodes, coords, lp, level + 1, lo)
      && UncompactedUnder(n0, coords, level + 1, lo)
    }

    /** `phys_page_compact` on entry `lp`, still uncompacted like all below it. */
    method Compact(lp: Loc, ghost level: nat, ghost lo: nat)
      requires Valid() && InBounds(lp) && At(lp, level, lo) && Get(lp).skip == 1
      requires 1 <= level <= P_L2_LEVELS && lo % Span(level) == 0
      requires UncompactedUnder(nodes, coords, level, lo)
      modifies this`root, this`nodes
      ensures Valid() && InBounds(lp) && At(lp, level, lo) && |nodes| == |old(nodes)|
      ensures lp.Slot? ==> root == old(root)
      ensures OnlyUnder(old(nodes), nodes, coords, lp, level, lo)
      ensures Widened(old(nodes), old(Get(lp)), nodes, Get(lp), level, lo)
      ensures Get(lp).ptr == PHYS_MAP_NODE_NIL <==> old(Get(lp)).ptr == PHYS_MAP_NODE_NIL
      decreases level, 1
    {
      hide Widened, UncompactedUnder, SlotDone, SlotIntact;
      if Get(lp).ptr == PHYS_MAP_NODE_NIL {
        SameWidened(nodes, Get(lp), level, lo);
        return;
      }
      ghost var n0, r0 := nodes, root;
      var n := Get(lp).ptr;
      assert lp.Slot? ==> NodePlaced(nodes, coords, lp.node);
      SweepStart(nodes, coords, n);
      var valid: nat, validPtr: nat, i := 0, P_L2_SIZE, 0;
      while i < P_L2_SIZE
        invariant i <= P_L2_SIZE && Sweeping(n0, lp, r0, n, level - 1, lo, i)
        invariant Counted(n0[n], i, valid, validPtr)
      {
        CountStep(n0[n], i, valid, validPtr);
        SweepSkip(n0, nodes, coords, n, i);
        if nodes[n][i].ptr != PHYS_MAP_NODE_NIL {
          validPtr := i;
          valid := valid + 1;
          if nodes[n][i].skip != 0 {
            CompactSlot(n0, lp, r0, n, level - 1, lo, i);
          }
        }
        i := i + 1;
      }
      if valid != 1 {
        WidenedKept(n0, nodes, coords, n);
        return;
      }
      SkipsFit(nodes, coords, n, validPtr);
      if Get(lp).skip + nodes[n][validPtr].skip >= 8 {
        assert false;
      }
      Lift(n0, lp, r0, n, level - 1, lo, validPtr);
    }

    /** The recursive call for slot `i` of node `n`. */
    method CompactSlot(ghost n0: seq<Node>, ghost lp: Loc, ghost r0: Entry, n: nat, ghost level: nat,
                       ghost lo: nat, i: nat)
      requires Sweeping(n0, lp, r0, n, level, lo, i) && i < P_L2_SIZE && level < P_L2_LEVELS
      requires nodes[n][i].skip != 0
      modifies this`root, this`nodes
      ensures Sweeping(n0, lp, r0, n, level, lo, i + 1)
      decreases level, 2
    {
      ghost var nodes0 := nodes;
      SlotReady(n0, nodes, coords, n, i);
      Compact(Slot(n, i), level, SlotLo(lo, level, i));
      UnderSlot(nodes0, nodes, coords, n, i);
      SweepStep(n0, nodes0, nodes, coords, n, i);
      UnderParent(n0, nodes0, nodes, coords, coords, lp, level, lo, n, i);
      if lp.Slot? {
        assert SameBut(nodes0[lp.node], nodes[lp.node], Slot(n, i), lp.node);
      }
    }

    /** Makes the entry `lp` skip the node it points at, whose only child is `v`. */
    method Lift(ghost n0: seq<Node>, lp: Loc, ghost r0: Entry, n: nat, ghost level: nat, ghost lo: nat, v: nat)
      requires Sweeping(n0, lp, r0, n, level, lo, P_L2_SIZE) && v < P_L2_SIZE
      requires Counted(n0[n], P_L2_SIZE, 1, v)
      modifies this`root, this`nodes
      ensures Valid() && InBounds(lp) && At(lp, level + 1, lo) && |nodes| == |old(nodes)|
      ensures lp.Slot? ==> root == old(root)
      ensures OnlyUnder(n0, nodes, coords, lp, level + 1, lo)
      ensures Widened(n0, Entry(1, n), nodes, Get(lp), level + 1, lo)
      ensures Get(lp).ptr != PHYS_MAP_NODE_NIL
    {
      hide Widened, UncompactedUnder, SlotIntact;
      ghost var n1 := nodes;
      var child := nodes[n][v];
      var e := Get(lp).(ptr := child.ptr);
      if child.skip == 0 {
        e := e.(skip := 0);
      } else {
        e := e.(skip := e.skip + child.skip);
      }
      Set(lp, e);
      assert SlotDone(n0, n1, coords, n, v);
      WidenedLifted(n0, n1, nodes, coords, n, v, lp);
      if lp.Slot? {
        PlacedUpdate(n1, coords, lp.node, lp.idx, e);
      }
    }

    /** `phys_page_compact_all` */
    method CompactAll()
      requires Growing()
      modifies this`root, this`nodes
      ensures Valid()
      ensures Widened(old(nodes), old(root), nodes, root, P_L2_LEVELS, 0)
    {
      if root.skip != 0 {
        Compact(Root, P_L2_LEVELS, 0);
      }
    }

    /** `phys_page_find`: the index of the section that resolves `addr`. */
    method PageFind(addr: nat, sections: seq<Section>) returns (s: nat)
      requires Valid() && PageMap(PageOf(addr)) < |sections|
      ensures s == Settle(sections, Walk(nodes, root, P_L2_LEVELS, PageOf(addr)), addr)
    {
      var index := PageOf(addr);
      var lp, i: nat := root, P_L2_LEVELS;
      ghost var lo: nat := 0;
      while lp.skip != 0 && i >= lp.skip
        invariant EntryPlaced(nodes, coords, lp, i, lo)
        invariant Walk(nodes, lp, i, index) == Walk(nodes, root, P_L2_LEVELS, index)
        decreases i
      {
        i := i - lp.skip;
        if lp.ptr == PHYS_MAP_NODE_NIL {
          return PHYS_SECTION_UNASSIGNED;
        }
        assert NodePlaced(nodes, coords, lp.ptr);
        lo := SlotLo(coords[lp.ptr].base, i, Digit(index, i));
        lp := nodes[lp.ptr][Digit(index, i)];
      }
      if CoversByte(sections[lp.ptr], addr) {
        return lp.ptr;
      } else {
        return PHYS_SECTION_UNASSIGNED;
      }
    }
  }

  /** What a new node is filled with: unassigned leaves at the bottom level,
      empty pointers above it. */
  function FreshNode(leaf: bool): (n: Node)
    ensures |n| == P_L2_SIZE
    ensures forall i | 0 <= i < P_L2_SIZE ::
              n[i] == if leaf then Entry(0, PHYS_SECTION_UNASSIGNED) else Entry(1, PHYS_MAP_NODE_NIL)
  {
    seq(P_L2_SIZE, i => if leaf then Entry(0, PHYS_SECTION_UNASSIGNED) else Entry(1, PHYS_MAP_NODE_NIL))
  }

  lemma SamePainted(nodes: seq<Node>, e: Entry, level: nat, lo: nat, a: nat, leaf: nat)
    ensures Painted(nodes, e, nodes, e, level, lo, a, a, leaf)
  {
  }

  lemma SameWidened(nodes: seq<Node>, e: Entry, level: nat, lo: nat)
    ensures Widened(nodes, e, nodes, e, level, lo)
  {
  }

  /** The skips that `phys_page_compact` adds up never overflow their three bits: an
      entry skips no more levels than its node has below it. */
  lemma SkipsFit(nodes: seq<Node>, coords: seq<Coord>, n: nat, v: nat)
    requires Placed(nodes, coords) && n < |nodes| && v < P_L2_SIZE && coords[n].level < P_L2_LEVELS
    ensures |nodes[n]| == P_L2_SIZE && 1 + nodes[n][v].skip <= P_L2_LEVELS < 8
  {
    LevelsSuffice();
    assert NodePlaced(nodes, coords, n);
  }

  // ---- A node whose only child is a leaf ----

  /** What `phys_page_compact` counts as one valid child, and it is a leaf. */
  ghost predicate LoneLeaf(node: Node, leaf: nat) {
    |node| == P_L2_SIZE && exists v :: 0 <= v < P_L2_SIZE && node[v] == Entry(0, leaf) && Counted(node, P_L2_SIZE, 1, v)
  }

  /** The walk for page `p` passes such a node. */
  ghost predicate MeetsLoneLeaf(nodes: seq<Node>, e: Entry, level: nat, p: nat, leaf: nat)
    decreases level
  {
    Descends(nodes, e, level) &&
    (LoneLeaf(nodes[e.ptr], leaf) ||
     MeetsLoneLeaf(nodes, nodes[e.ptr][Digit(p, level - e.skip)], level - e.skip, p, leaf))
  }

  /** One aligned run as long as a level-1 slot, set where nothing is yet. */
  ghost predicate Alone(empty: bool, level: nat, index: nat, nb: nat) {
    empty && level >= 1 && nb == Span(1) && index % Span(1) == 0
  }

  lemma {:induction false} SpanGrows(k: nat)
    requires k >= 2
    ensures Span(k) > Span(1)
  {
    if k > 2 {
      SpanGrows(k - 1);
    }
  }

  lemma AloneHere(nodes: seq<Node>, n: nat, j: nat, level: nat, index: nat, nb: nat, leaf: nat)
    requires n < |nodes| && n != PHYS_MAP_NODE_NIL && j < P_L2_SIZE == |nodes[n]| && leaf <= 0xffff
    requires index % Span(level) == 0 && nb >= Span(level)
    ensures Alone(nodes[n] == FreshNode(false), level, index, nb) ==>
              && nb == Span(level)
              && MeetsLoneLeaf(nodes[n := nodes[n][j := Entry(0, leaf)]], Entry(1, n), level + 1, index, leaf)
  {
    if Alone(nodes[n] == FreshNode(false), level, index, nb) {
      if level >= 2 {
        SpanGrows(level);
      }
      var node := nodes[n][j := Entry(0, leaf)];
      assert node[j] == Entry(0, leaf) && Counted(node, P_L2_SIZE, 1, j);
      assert LoneLeaf(node, leaf);
    }
  }

  lemma AloneBelow(node: Node, j: nat, level: nat, index: nat, nb: nat)
    requires j < P_L2_SIZE == |node| && level >= 1 && !(index % Span(level) == 0 && nb >= Span(level))
    ensures Alone(node == FreshNode(false), level, index, nb) ==>
              Alone(node[j].ptr == PHYS_MAP_NODE_NIL, level - 1, index, nb)
  {
  }

  lemma MeetsBelow(nodes: seq<Node>, n: nat, j: nat, level: nat, lo: nat, index: nat, leaf: nat)
    requires n < |nodes| && n != PHYS_MAP_NODE_NIL && j < P_L2_SIZE == |nodes[n]|
    requires lo % Span(level + 1) == 0 && InSlot(lo, level, j, index)
    ensures MeetsLoneLeaf(nodes, nodes[n][j], level, index, leaf) ==>
              MeetsLoneLeaf(nodes, Entry(1, n), level + 1, index, leaf)
  {
    DigitOfSlot(lo, level, j, index);
  }

  /** A section of one aligned run of pages, alone in the address space, leaves a
      node whose only child is a leaf for compaction to find. */
  method LoneLeafIsBuilt(index: nat, leaf: nat) returns (m: PhysPageMap)
    requires index % Span(1) == 0 && index + Span(1) <= Span(P_L2_LEVELS) && leaf <= 0xffff
    ensures fresh(m) && m.Growing() && MeetsLoneLeaf(m.nodes, m.root, P_L2_LEVELS, index, leaf)
  {
    hide MeetsLoneLeaf, Placed;
    LevelsSuffice();
    m := new PhysPageMap();
    m.PageSet(index, Span(1), leaf);
  }

  ghost predicate InSlot(lo: nat, level: nat, j: nat, p: nat) {
    SlotLo(lo, level, j) <= p < SlotLo(lo, level, j) + Span(level)
  }

  /** Nodes one call can take: its own, and one chain of boundary nodes per end of
      the range that falls inside the slot. */
  ghost function AllocBound(level: nat, lo: nat, index: nat, nb: nat): (r: nat) {
    if index == lo || index + nb >= lo + Span(level + 1) then level + 1 else 2 * level + 1
  }

  ghost function SlotBound(level: nat, lo: nat, index: nat, nb: nat): (r: nat) {
    if level == 0 || (index == lo && nb >= Span(level)) then 0 else AllocBound(level - 1, lo, index, nb)
  }

  /** Hanging a fresh node under an empty entry changes no page. */
  lemma FreshPaints(nodes0: seq<Node>, nodes: seq<Node>, e0: Entry, n: nat, level: nat, lo: nat, a: nat, leaf: nat)
    requires e0 == Entry(1, PHYS_MAP_NODE_NIL)
    requires n < |nodes| && n != PHYS_MAP_NODE_NIL && nodes[n] == FreshNode(level == 0)
    ensures Painted(nodes0, e0, nodes, Entry(1, n), level + 1, lo, a, a, leaf)
  {
    var k := level + 1;
    forall p | lo <= p < lo + Span(k)
      ensures PaintedAt(nodes0, e0, nodes, Entry(1, n), k, p, a, a, leaf)
    {
      WalkThrough(nodes, n, level, p);
    }
  }

  /** A leaf entry paints its whole slot. */
  lemma LeafSlot(nodes: seq<Node>, coords: seq<Coord>, n: nat, j: nat, leaf: nat)
    requires Placed(nodes, coords) && Uncompacted(nodes) && n < |nodes| && j < P_L2_SIZE == |nodes[n]|
    requires leaf <= 0xffff
    ensures var nodes' := nodes[n := nodes[n][j := Entry(0, leaf)]];
            var k, lo := coords[n].level, SlotLo(coords[n].base, coords[n].level, j);
            && Placed(nodes', coords) && Uncompacted(nodes')
            && OnlyUnder(nodes, nodes', coords, Slot(n, j), k, lo)
            && Painted(nodes, nodes[n][j], nodes', Entry(0, leaf), k, lo, lo, lo + Span(k), leaf)
  {
    PlacedUpdate(nodes, coords, n, j, Entry(0, leaf));
  }

  /** A slot with a page that is under no superpage can be descended into. */
  lemma SlotOpen(nodes: seq<Node>, coords: seq<Coord>, n: nat, j: nat, index: nat, nb: nat)
    requires Placed(nodes, coords) && Uncompacted(nodes) && n < |nodes| && j < P_L2_SIZE
    requires coords[n].level > 0 && nb > 0
    requires InSlot(coords[n].base, coords[n].level, j, index)
    requires Open(nodes, Entry(1, n), coords[n].level + 1, index,
                  Min(index + nb, coords[n].base + Span(coords[n].level + 1)))
    ensures |nodes[n]| == P_L2_SIZE && nodes[n][j].skip == 1
    ensures Open(nodes, nodes[n][j], coords[n].level, index,
                 Min(index + nb, SlotLo(coords[n].base, coords[n].level, j) + Span(coords[n].level)))
  {
    var k, base := coords[n].level, coords[n].base;
    assert NodePlaced(nodes, coords, n);
    SlotInside(base, k, j);
    var end := Min(index + nb, SlotLo(base, k, j) + Span(k));
    forall p | index <= p < end
      ensures !UnderSuper(nodes, nodes[n][j], k, p)
    {
      DigitOfSlot(base, k, j, p);
      WalkThrough(nodes, n, k, p);
    }
    assert !UnderSuper(nodes, nodes[n][j], k, index);
    assert nodes[n][j].skip != 0;
  }

  /** The node array after a fresh node was hung under the entry `lp`. */
  ghost function Hung(nodes: seq<Node>, lp: Loc, leaf: bool): (r: seq<Node>)
    requires lp.Slot? ==> lp.node < |nodes| && lp.idx < |nodes[lp.node]|
  {
    var grown := nodes + [FreshNode(leaf)];
    if lp.Root? then grown
    else grown[lp.node := grown[lp.node][lp.idx := Entry(1, |nodes|)]]
  }

  lemma HungPlaced(nodes: seq<Node>, coords: seq<Coord>, lp: Loc, level: nat, lo: nat)
    requires Placed(nodes, coords) && Uncompacted(nodes) && |nodes| < PHYS_MAP_NODE_NIL
    requires lo % Span(level + 1) == 0
    requires lp.Slot? ==> lp.node < |nodes| && lp.idx < |nodes[lp.node]| == P_L2_SIZE
                          && coords[lp.node].level == level + 1
                          && lo == SlotLo(coords[lp.node].base, level + 1, lp.idx)
    ensures Placed(Hung(nodes, lp, level == 0), coords + [Coord(level, lo)])
    ensures Uncompacted(Hung(nodes, lp, level == 0))
    ensures OnlyUnder(nodes, Hung(nodes, lp, level == 0), coords, lp, level + 1, lo)
  {
    var grown, coords' := nodes + [FreshNode(level == 0)], coords + [Coord(level, lo)];
    PlacedAppend(nodes, coords, FreshNode(level == 0), Coord(level, lo));
    if lp.Slot? {
      assert grown[lp.node] == nodes[lp.node];
      PlacedUpdate(grown, coords', lp.node, lp.idx, Entry(1, |nodes|));
    }
  }

  /** No page of `[a, b)` lies under a leaf wider than a page. */
  ghost predicate Open(nodes: seq<Node>, e: Entry, level: nat, a: nat, b: nat) {
    forall p | a <= p < b :: !UnderSuper(nodes, e, level, p)
  }

  /** Where the loop over a node's slots stands: in slot `j`, at its start except
      possibly in the first round, or at the end of the node. */
  ghost predicate Cursor(level: nat, lo: nat, index: nat, j: nat, i: nat, left: nat) {
    && j <= P_L2_SIZE && index <= i <= lo + Span(level + 1)
    && (left > 0 ==> if j < P_L2_SIZE then InSlot(lo, level, j, i) else i == lo + Span(level + 1))
    && (left > 0 && i > index ==> i == SlotLo(lo, level, j))
  }

  /** Nodes taken once the loop has reached page `i`. */
  ghost function Spent(level: nat, lo: nat, index: nat, nb: nat, i: nat): (r: nat) {
    1 + (if i > index > lo then level else 0)
      + (if i == index + nb < lo + Span(level + 1) && nb > 0 then level else 0)
  }

  lemma SpentStep(level: nat, lo: nat, index: nat, nb: nat, j: nat, i: nat, left: nat)
    requires lo <= index && i + left == index + nb && Cursor(level, lo, index, j, i, left)
    requires left > 0 && j < P_L2_SIZE
    ensures var i' := Min(i + left, SlotLo(lo, level, j) + Span(level));
            && Spent(level, lo, index, nb, i) + SlotBound(level, SlotLo(lo, level, j), i, left)
               <= Spent(level, lo, index, nb, i')
            && Spent(level, lo, index, nb, i') <= AllocBound(level, lo, index, nb)
            && Cursor(level, lo, index, j + 1, i', index + nb - i')
  {
    SlotInside(lo, level, j);
    SlotEnd(lo, level);
    if j + 1 < P_L2_SIZE {
      SlotInside(lo, level, j + 1);
    }
  }

  lemma StillOpen(n0: seq<Node>, e0: Entry, n1: seq<Node>, e1: Entry, level: nat, lo: nat,
                  a: nat, i: nat, leaf: nat, b: nat)
    requires lo <= a <= i && b <= lo + Span(level)
    requires Painted(n0, e0, n1, e1, level, lo, a, i, leaf)
    requires Open(n0, e0, level, a, b)
    ensures Open(n1, e1, level, i, b)
  {
    forall p | i <= p < b
      ensures !UnderSuper(n1, e1, level, p)
    {
      assert PaintedAt(n0, e0, n1, e1, level, p, a, i, leaf);
    }
  }

  lemma PaintedWhole(n0: seq<Node>, e0: Entry, n1: seq<Node>, e1: Entry, level: nat, a: nat, b: nat, leaf: nat)
    requires Painted(n0, e0, n1, e1, level, 0, a, b, leaf)
    ensures forall p | 0 <= p < Span(level) ::
              Flat(n1, e1, level, p) == if a <= p < b then leaf else Flat(n0, e0, level, p)
    ensures forall p | 0 <= p < Span(level) && UnderSuper(n1, e1, level, p) ::
              a <= p < b || UnderSuper(n0, e0, level, p)
  {
    forall p | 0 <= p < Span(level)
      ensures Flat(n1, e1, level, p) == if a <= p < b then leaf else Flat(n0, e0, level, p)
      ensures UnderSuper(n1, e1, level, p) ==> a <= p < b || UnderSuper(n0, e0, level, p)
    {
      assert PaintedAt(n0, e0, n1, e1, level, p, a, b, leaf);
    }
  }

  lemma NodeShape(nodes: seq<Node>, coords: seq<Coord>, n: nat)
    requires Placed(nodes, coords) && n < |nodes|
    ensures |coords| == |nodes| && |nodes[n]| == P_L2_SIZE && coords[n].base % Span(coords[n].level + 1) == 0
  {
    assert NodePlaced(nodes, coords, n);
  }
}
