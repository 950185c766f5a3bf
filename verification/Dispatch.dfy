/** Building and reading an `AddressSpaceDispatch`: `mem_begin`, `mem_add`,
    `mem_commit` and the lookups of exec.c. A failing `assert` of the source (a
    full section table) is the outcome `ok == false`. */
module Dispatch {
  import opened Radix
  import opened Pages
  import opened PageTree
  import opened Compaction
  import opened Sections
  import opened FlatDispatch
  import opened PhysMap

  /** `s` is a part of `a`: same region, and the same offset within that region
      for every address. */
  ghost predicate PieceOf(s: Section, a: Section) {
    && s.mr == a.mr && s.size > 0
    && a.off <= s.off && s.off + s.size <= a.off + a.size
    && s.offRegion == (a.offRegion + (s.off - a.off)) % TWO64
  }

  /** Section number `r` resolves `addr` on behalf of section `a`. */
  ghost predicate TakenBy(sections: seq<Section>, r: nat, a: Section, addr: nat) {
    0 < r < |sections| && PieceOf(sections[r], a) && Within(sections[r], addr)
  }

  /** `addr - section->off + section->offset_within_region`, modulo 2^64. */
  function Xlat(s: Section, addr: nat): (r: nat) {
    (addr + TWO64 - s.off % TWO64 + s.offRegion) % TWO64
  }

  /** A piece translates an address as the section it was cut from. */
  lemma PieceTranslates(s: Section, a: Section, addr: nat)
    requires PieceOf(s, a) && Within(s, addr) && a.off + a.size <= TWO64
    ensures Xlat(s, addr) == Xlat(a, addr)
  {
    var d := s.off - a.off;
    var y := addr + TWO64 - s.off;
    assert s.off % TWO64 == s.off && a.off % TWO64 == a.off;
    ModAdd(y, a.offRegion + d);
  }

  lemma ModAdd(y: nat, z: nat)
    ensures (y + z % TWO64) % TWO64 == (y + z) % TWO64
  {
  }

  /** Section number `r` is right for `addr`, given the sections added so far. */
  ghost predicate ByteOk(added: seq<Section>, sections: seq<Section>, r: nat, addr: nat) {
    && (forall i | 0 <= i < |added| && Within(added[i], addr) :: TakenBy(sections, r, added[i], addr))
    && ((forall i | 0 <= i < |added| :: !Within(added[i], addr)) ==> r == PHYS_SECTION_UNASSIGNED)
  }

  /** Every byte resolves to a piece of the section that covers it. */
  ghost predicate Denotes(added: seq<Section>, pages: seq<nat>, sections: seq<Section>, subs: seq<Subpage>) {
    forall addr | 0 <= addr < TWO64 :: ByteOk(added, sections, FlatLookup(pages, sections, subs, addr), addr)
  }

  ghost predicate Disjoint(a: Section, b: Section) {
    a.off + a.size <= b.off || b.off + b.size <= a.off
  }

  /** The bytes of `a` below `end` have been registered, no other byte changed. */
  ghost predicate Progress(pages0: seq<nat>, sections0: seq<Section>, subs0: seq<Subpage>,
                           pages: seq<nat>, sections: seq<Section>, subs: seq<Subpage>, a: Section, end: nat)
  {
    && sections0 <= sections
    && forall addr | 0 <= addr < TWO64 ::
         ProgressAt(FlatLookup(pages0, sections0, subs0, addr), sections, FlatLookup(pages, sections, subs, addr),
                    a, end, addr)
  }

  ghost predicate ProgressAt(r0: nat, sections: seq<Section>, r: nat, a: Section, end: nat, addr: nat) {
    if a.off <= addr < end then TakenBy(sections, r, a, addr) else r == r0
  }

  lemma ProgressStep(p0: seq<nat>, s0: seq<Section>, b0: seq<Subpage>, p1: seq<nat>, s1: seq<Section>, b1: seq<Subpage>,
                     p2: seq<nat>, s2: seq<Section>, b2: seq<Subpage>, a: Section, piece: Section, n: nat)
    requires Progress(p0, s0, b0, p1, s1, b1, a, piece.off) && PieceOf(piece, a)
    requires Overlaid(p1, s1, b1, p2, s2, b2, piece, n)
    ensures Progress(p0, s0, b0, p2, s2, b2, a, piece.off + piece.size)
  {
    forall addr | 0 <= addr < TWO64
      ensures ProgressAt(FlatLookup(p0, s0, b0, addr), s2, FlatLookup(p2, s2, b2, addr),
                         a, piece.off + piece.size, addr)
    {
      hide FlatLookup;
      assert ProgressAt(FlatLookup(p0, s0, b0, addr), s1, FlatLookup(p1, s1, b1, addr), a, piece.off, addr);
    }
  }

  lemma BlankRest(p0: seq<nat>, s0: seq<Section>, b0: seq<Subpage>, p1: seq<nat>, s1: seq<Section>, b1: seq<Subpage>,
                  a: Section, piece: Section)
    requires Progress(p0, s0, b0, p1, s1, b1, a, piece.off) && PieceOf(piece, a) && a.off + a.size <= TWO64
    requires Blank(p0, s0, b0, a)
    ensures Blank(p1, s1, b1, piece)
  {
    hide FlatLookup;
    forall addr | Within(piece, addr)
      ensures FlatLookup(p1, s1, b1, addr) == 0
    {
      assert Within(a, addr);
      assert ProgressAt(FlatLookup(p0, s0, b0, addr), s1, FlatLookup(p1, s1, b1, addr), a, piece.off, addr);
    }
  }

  /** A section disjoint from all others finds its bytes blank. */
  lemma DisjointBlank(added: seq<Section>, pages: seq<nat>, sections: seq<Section>, subs: seq<Subpage>, a: Section)
    requires Denotes(added, pages, sections, subs) && Sane(a)
    requires forall i | 0 <= i < |added| :: Disjoint(added[i], a)
    ensures Blank(pages, sections, subs, a)
  {
    hide FlatLookup;
    forall addr | Within(a, addr)
      ensures FlatLookup(pages, sections, subs, addr) == 0
    {
      assert ByteOk(added, sections, FlatLookup(pages, sections, subs, addr), addr);
      assert forall i | 0 <= i < |added| :: Disjoint(added[i], a) && !Within(added[i], addr);
    }
  }

  lemma DenotesMore(added: seq<Section>, p0: seq<nat>, s0: seq<Section>, b0: seq<Subpage>,
                    p1: seq<nat>, s1: seq<Section>, b1: seq<Subpage>, a: Section)
    requires Denotes(added, p0, s0, b0) && Sane(a)
    requires forall i | 0 <= i < |added| :: Disjoint(added[i], a)
    requires Progress(p0, s0, b0, p1, s1, b1, a, a.off + a.size)
    ensures Denotes(added + [a], p1, s1, b1)
  {
    hide FlatLookup;
    forall addr | 0 <= addr < TWO64
      ensures ByteOk(added + [a], s1, FlatLookup(p1, s1, b1, addr), addr)
    {
      assert ByteOk(added, s0, FlatLookup(p0, s0, b0, addr), addr);
      assert ProgressAt(FlatLookup(p0, s0, b0, addr), s1, FlatLookup(p1, s1, b1, addr), a, a.off + a.size, addr);
      MoreOk(added, s0, FlatLookup(p0, s0, b0, addr), s1, FlatLookup(p1, s1, b1, addr), a, addr);
    }
  }

  lemma MoreOk(added: seq<Section>, s0: seq<Section>, r0: nat, s1: seq<Section>, r1: nat, a: Section, addr: nat)
    requires ByteOk(added, s0, r0, addr) && s0 <= s1
    requires forall i | 0 <= i < |added| :: Disjoint(added[i], a)
    requires ProgressAt(r0, s1, r1, a, a.off + a.size, addr)
    ensures ByteOk(added + [a], s1, r1, addr)
  {
    var more := added + [a];
    forall i | 0 <= i < |more| && Within(more[i], addr)
      ensures TakenBy(s1, r1, more[i], addr)
    {
      if i < |added| {
        assert Disjoint(added[i], a) && TakenBy(s0, r0, added[i], addr);
      }
    }
    if forall i | 0 <= i < |more| :: !Within(more[i], addr) {
      assert !Within(more[|added|], addr);
      forall i | 0 <= i < |added|
        ensures !Within(added[i], addr)
      {
        assert more[i] == added[i];
      }
    }
  }

  // ---- How many entries of the section table a section takes ----

  /** A byte of the section lies on page `p`. */
  predicate Touches(s: Section, p: nat) {
    s.off < PageBase(p) + PAGE_SIZE && PageBase(p) < s.off + s.size
  }

  ghost predicate Touched(list: seq<Section>, p: nat) {
    exists i :: 0 <= i < |list| && Touches(list[i], p)
  }

  /** A piece of page `p` needs an entry of its own, and one for the page's subpage if
      it is the first on that page. */
  ghost function PieceCost(list: seq<Section>, p: nat): (r: nat)
    ensures 1 <= r <= 2
  {
    if Touched(list, p) then 1 else 2
  }

  /** The same, from the page array. */
  ghost function MapCost(pages: seq<nat>, p: nat): (r: nat)
    ensures 1 <= r <= 2
  {
    if p < |pages| && pages[p] != 0 then 1 else 2
  }

  /** Bytes of a section before its first page boundary. */
  function HeadSize(s: Section): (r: nat)
    ensures r <= s.size
  {
    if s.off % PAGE_SIZE == 0 then 0 else Min(PAGE_SIZE - s.off % PAGE_SIZE, s.size)
  }

  /** Entries for the bytes from the page boundary `x` to `end`: one for the whole
      pages, and those of the rest. */
  ghost function RestCost(list: seq<Section>, x: nat, end: nat): (r: nat)
    requires x <= end
    ensures r <= 3
  {
    if x == end then 0
    else (if end - x >= PAGE_SIZE then 1 else 0)
         + (if (end - x) % PAGE_SIZE == 0 then 0 else PieceCost(list, PageOf(end - 1)))
  }

  /** Entries that section `s` takes when those of `list` are registered. */
  ghost function Entries(list: seq<Section>, s: Section): (r: nat)
    ensures r <= 5
  {
    (if HeadSize(s) == 0 then 0 else PieceCost(list, PageOf(s.off)))
    + RestCost(list, s.off + HeadSize(s), s.off + s.size)
  }

  /** Entries of the whole table. */
  ghost function TableSize(list: seq<Section>): (r: nat)
    ensures DUMMIES <= r <= DUMMIES + 5 * |list|
  {
    if list == [] then DUMMIES
    else TableSize(list[..|list| - 1]) + Entries(list[..|list| - 1], list[|list| - 1])
  }

  lemma {:induction false} TableGrows(list: seq<Section>, i: nat)
    requires i <= |list|
    ensures TableSize(list[..i]) <= TableSize(list)
    decreases |list| - i
  {
    if i < |list| {
      assert list[..i + 1][..i] == list[..i];
      TableGrows(list, i + 1);
    } else {
      assert list[..i] == list;
    }
  }

  /** A page is mapped exactly if a registered section has a byte on it. */
  lemma TouchedIsMapped(list: seq<Section>, pages: seq<nat>, sections: seq<Section>, subs: seq<Subpage>, p: nat)
    requires WellFormed(pages, sections, subs) && Denotes(list, pages, sections, subs) && p < NPAGES
    requires forall i | 0 <= i < |list| :: Sane(list[i])
    ensures pages[p] != 0 <==> Touched(list, p)
  {
    hide WellFormed, FlatLookup, Pow2;
    assert |pages| == NPAGES by { PageCount(pages, sections, subs); }
    if pages[p] != 0 {
      var addr := MappedByte(pages, sections, subs, p);
      AddrOnPage(addr, p);
      assert ByteOk(list, sections, FlatLookup(pages, sections, subs, addr), addr);
      var i :| 0 <= i < |list| && Within(list[i], addr);
      assert Touches(list[i], p);
    }
    if Touched(list, p) {
      var i :| 0 <= i < |list| && Touches(list[i], p);
      var addr := if list[i].off < PageBase(p) then PageBase(p) else list[i].off;
      AddrOnPage(addr, p);
      PageEnd(p);
      assert ByteOk(list, sections, FlatLookup(pages, sections, subs, addr), addr) && Within(list[i], addr);
      assert TakenBy(sections, FlatLookup(pages, sections, subs, addr), list[i], addr);
      UnmappedByte(pages, sections, subs, addr);
    }
  }

  lemma PageCount(pages: seq<nat>, sections: seq<Section>, subs: seq<Subpage>)
    requires WellFormed(pages, sections, subs)
    ensures |pages| == NPAGES && |sections| <= PAGE_SIZE
  {
  }

  /** Registering bytes below page `p` does not map it. */
  lemma SamePage(p0: seq<nat>, s0: seq<Section>, b0: seq<Subpage>, p1: seq<nat>, s1: seq<Section>, b1: seq<Subpage>,
                 a: Section, end: nat, p: nat)
    requires WellFormed(p0, s0, b0) && WellFormed(p1, s1, b1) && Progress(p0, s0, b0, p1, s1, b1, a, end)
    requires p < NPAGES && end <= PageBase(p)
    ensures |p0| == |p1| == NPAGES && (p0[p] == 0 <==> p1[p] == 0)
  {
    hide WellFormed, FlatLookup, Pow2;
    PageCount(p0, s0, b0);
    PageCount(p1, s1, b1);
    if p0[p] != 0 {
      var addr := MappedByte(p0, s0, b0, p);
      AddrOnPage(addr, p);
      assert ProgressAt(FlatLookup(p0, s0, b0, addr), s1, FlatLookup(p1, s1, b1, addr), a, end, addr);
      UnmappedByte(p1, s1, b1, addr);
    }
    if p1[p] != 0 {
      var addr := MappedByte(p1, s1, b1, p);
      AddrOnPage(addr, p);
      assert ProgressAt(FlatLookup(p0, s0, b0, addr), s1, FlatLookup(p1, s1, b1, addr), a, end, addr);
      UnmappedByte(p0, s0, b0, addr);
    }
  }

  /** What the table `p0` stands for: the sections of `list`. */
  ghost predicate StartsFrom(list: seq<Section>, p0: seq<nat>, s0: seq<Section>, b0: seq<Subpage>) {
    && WellFormed(p0, s0, b0) && Denotes(list, p0, s0, b0)
    && forall i | 0 <= i < |list| :: Sane(list[i])
  }

  lemma HeadCost(list: seq<Section>, p0: seq<nat>, s0: seq<Section>, b0: seq<Subpage>, addr: nat)
    requires StartsFrom(list, p0, s0, b0) && addr < TWO64
    ensures MapCost(p0, PageOf(addr)) == PieceCost(list, PageOf(addr))
  {
    hide WellFormed, Denotes, Touched, PageOf, Pow2;
    AddrParts(addr);
    PageCount(p0, s0, b0);
    TouchedIsMapped(list, p0, s0, b0, PageOf(addr));
  }

  /** The rest of less than a page, from the boundary `x` on. */
  lemma TailCost(list: seq<Section>, p0: seq<nat>, s0: seq<Section>, b0: seq<Subpage>,
                 p1: seq<nat>, s1: seq<Section>, b1: seq<Subpage>, a: Section, x: nat, end: nat)
    requires StartsFrom(list, p0, s0, b0) && WellFormed(p1, s1, b1) && Progress(p0, s0, b0, p1, s1, b1, a, x)
    requires x % PAGE_SIZE == 0 && x < end < x + PAGE_SIZE && end <= TWO64
    ensures MapCost(p1, PageOf(x)) == RestCost(list, x, end) && RestCost(list, end, end) == 0
  {
    hide WellFormed, Denotes, Touched, Progress, Pow2, PageOf;
    var q := PageOf(x);
    AddrParts(x);
    assert PageBase(q) == x;
    AddrOnPage(end - 1, q);
    HeadCost(list, p0, s0, b0, x);
    SamePage(p0, s0, b0, p1, s1, b1, a, x, q);
    assert (end - x) % PAGE_SIZE == end - x by { DivModUnique(end - x, PAGE_SIZE, 0, end - x); }
  }

  lemma WholeCost(list: seq<Section>, x: nat, end: nat)
    requires x + PAGE_SIZE <= end
    ensures RestCost(list, x, end) == 1 + RestCost(list, end - (end - x) % PAGE_SIZE, end)
  {
    hide PieceCost, PageOf, Pow2;
    var r := (end - x) % PAGE_SIZE;
    AddrParts(end - x);
    DivModUnique(r, PAGE_SIZE, 0, r);
  }

  /** Page-aligned sections are runs of whole pages. */
  lemma WholePages(s: Section) returns (a: nat, b: nat)
    requires Sane(s) && s.off % PAGE_SIZE == 0 && s.size % PAGE_SIZE == 0
    ensures a == PageOf(s.off) && b == a + PageOf(s.size) && a < b <= NPAGES
    ensures s.off == PageBase(a) && s.size == PageBase(b) - PageBase(a)
  {
    AddrParts(s.off);
    AddrParts(s.size);
    a := PageOf(s.off);
    b := a + PageOf(s.size);
    PageBaseAdd(a, PageOf(s.size));
    hide Pow2, Span, PageOf, PageBase;
    PageBaseBound(b);
    PageBasePositive(PageOf(s.size));
  }

  lemma PageBasePositive(p: nat)
    requires PageBase(p) > 0
    ensures p > 0
  {
  }

  /** The walk for a mapped page settles on the page's section. */
  lemma SettlesFlat(nodes: seq<Node>, root: Entry, pages: seq<nat>, sections: seq<Section>, subs: seq<Subpage>,
                    addr: nat)
    requires WellFormed(pages, sections, subs) && addr < TWO64 && PageOf(addr) < NPAGES
    requires Flat(nodes, root, P_L2_LEVELS, PageOf(addr)) == pages[PageOf(addr)]
    ensures Settle(sections, Walk(nodes, root, P_L2_LEVELS, PageOf(addr)), addr) == pages[PageOf(addr)]
    ensures pages[PageOf(addr)] < |sections|
  {
    var p := PageOf(addr);
    hide Walk;
    assert PageOk(pages[p], sections, subs, p);
    AddrOnPage(addr, p);
    if pages[p] != 0 {
      CoversIsWithin(sections[pages[p]], addr);
    }
  }

  /** The page that a blank piece of one page lies on is unmapped or a subpage. */
  lemma BlankHead(pages: seq<nat>, sections: seq<Section>, subs: seq<Subpage>, s: Section) returns (p: nat)
    requires WellFormed(pages, sections, subs) && Blank(pages, sections, subs, s)
    requires Sane(s) && s.off % PAGE_SIZE + s.size <= PAGE_SIZE
    ensures p == PageOf(s.off) && p < NPAGES == |pages| && pages[p] < |sections|
    ensures PageBase(p) == s.off - s.off % PAGE_SIZE && OnPage(s, p)
    ensures pages[p] == 0 || sections[pages[p]].mr.SubpageIo?
  {
    p := PageOf(s.off);
    AddrParts(s.off);
    assert Within(s, s.off);
    BlankByte(pages, sections, subs, s.off);
  }

  class AddressSpaceDispatch {
    const tree: PhysPageMap
    var sections: seq<Section>
    var subpages: seq<Subpage>
    ghost var pages: seq<nat>
    ghost var added: seq<Section>

    /** The tree stands for the flat array `pages`, and leaves wider than a page
        are mapped. */
    ghost predicate Mirrors()
      reads this`pages, tree
    {
      forall p | 0 <= p < Span(P_L2_LEVELS) ::
        && tree.PageMap(p) == (if p < |pages| then pages[p] else 0)
        && (tree.Super(p) ==> tree.PageMap(p) != 0)
    }

    ghost predicate Consistent()
      reads this, tree
    {
      && tree.Growing() && Mirrors()
      && WellFormed(pages, sections, subpages)
      && |tree.nodes| <= 11 * |sections|
    }

    /** Between `mem_begin` and `mem_commit`. */
    ghost predicate Building()
      reads this, tree
    {
      && Consistent() && Denotes(added, pages, sections, subpages)
      && forall i | 0 <= i < |added| :: Sane(added[i])
    }

    /** `mem_begin` */
    constructor ()
      ensures Building() && added == [] && fresh(tree) && |sections| == DUMMIES
      ensures forall i | 0 <= i < DUMMIES :: sections[i].off == 0 && sections[i].size == TWO64
    {
      tree := new PhysPageMap();
      sections := [Section(IoUnassigned, 0, 0, TWO64), Section(IoNotDirty, 0, 0, TWO64),
                   Section(IoRom, 0, 0, TWO64), Section(IoWatch, 0, 0, TWO64)];
      subpages := [];
      pages := seq(NPAGES, _ => 0);
      added := [];
      new;
      PageFacts();
      assert forall addr | 0 <= addr < TWO64 :: FlatLookup(pages, sections, subpages, addr) == 0;
    }

    /** `phys_section_add` */
    method SectionAdd(s: Section) returns (ok: bool, n: nat)
      modifies this`sections
      ensures ok <==> |old(sections)| < PAGE_SIZE
      ensures ok ==> n == |old(sections)| && sections == old(sections) + [s]
      ensures !ok ==> sections == old(sections)
    {
      if |sections| >= PAGE_SIZE {
        return false, 0;
      }
      sections := sections + [s];
      return true, |sections| - 1;
    }

    /** `subpage_register`: bytes `start` to `end`, both included. */
    method SubpageRegister(h: nat, start: nat, end: nat, n: nat) returns (ret: int)
      requires h < |subpages| && |subpages[h].sub| == PAGE_SIZE
      modifies this`subpages
      ensures ret == -1 || ret == 0
      ensures ret == -1 <==> start >= PAGE_SIZE || end >= PAGE_SIZE
      ensures ret == -1 ==> subpages == old(subpages)
      ensures ret == 0 ==>
                var sp := old(subpages)[h];
                subpages == old(subpages)[h := sp.(sub := Refilled(sp.sub, start, end + 1, n))]
    {
      if start >= PAGE_SIZE || end >= PAGE_SIZE {
        return -1;
      }
      var idx := start;
      while idx <= end
        invariant start <= idx && (idx <= end + 1 || idx == start)
        invariant |subpages| == |old(subpages)| && subpages[h].base == old(subpages)[h].base
        invariant forall g | 0 <= g < |subpages| && g != h :: subpages[g] == old(subpages)[g]
        invariant |subpages[h].sub| == PAGE_SIZE
        invariant forall x | 0 <= x < PAGE_SIZE ::
                    subpages[h].sub[x] == if start <= x < idx then n else old(subpages)[h].sub[x]
      {
        subpages := subpages[h := subpages[h].(sub := subpages[h].sub[idx := n])];
        idx := idx + 1;
      }
      assert subpages[h].sub == Refilled(old(subpages)[h].sub, start, end + 1, n);
      return 0;
    }

    /** `subpage_init`: a subpage whose bytes are all unassigned. */
    method SubpageInit(base: nat) returns (h: nat)
      modifies this`subpages
      ensures h == |old(subpages)| && |subpages| == h + 1 && subpages[..h] == old(subpages)
      ensures subpages[h].base == base && |subpages[h].sub| == PAGE_SIZE
      ensures forall i | 0 <= i < PAGE_SIZE :: subpages[h].sub[i] == PHYS_SECTION_UNASSIGNED
    {
      h := |subpages|;
      subpages := subpages + [Subpage(base, seq(PAGE_SIZE, _ => 0))];
      var ret := SubpageRegister(h, 0, PAGE_SIZE - 1, PHYS_SECTION_UNASSIGNED);
    }

    /** `register_multipage`: whole pages. */
    method RegisterMultipage(s: Section) returns (ok: bool)
      requires Consistent() && Sane(s) && !s.mr.SubpageIo?
      requires s.off % PAGE_SIZE == 0 && s.size % PAGE_SIZE == 0
      requires Blank(pages, sections, subpages, s)
      modifies this, tree
      ensures added == old(added)
      ensures ok <==> |old(sections)| < PAGE_SIZE
      ensures ok ==> Consistent() && |sections| == |old(sections)| + 1
      ensures ok ==> Overlaid(old(pages), old(sections), old(subpages), pages, sections, subpages, s, |sections| - 1)
    {
      ghost var a, b := WholePages(s);
      OpenPages(s, a, b);
      PageFacts();
      var n;
      ok, n := SectionAdd(s);
      if !ok {
        return;
      }
      MultipageOverlays(old(pages), old(sections), old(subpages), s, a, b);
      tree.PageSet(PageOf(s.off), PageOf(s.size), n);
      pages := Repainted(pages, a, b, n);
    }

    /** No page of a blank run lies under a leaf wider than a page. */
    lemma OpenPages(s: Section, a: nat, b: nat)
      requires Consistent() && Blank(pages, sections, subpages, s)
      requires a <= b <= NPAGES && s.off == PageBase(a) && s.size == PageBase(b) - PageBase(a)
      ensures forall p | a <= p < b :: pages[p] == 0 && !tree.Super(p)
    {
      PageFacts();
      forall p | a <= p < b
        ensures pages[p] == 0 && !tree.Super(p)
      {
        WholePage(s, a, b, p);
        BlankPage(pages, sections, subpages, s, p);
        assert tree.PageMap(p) == pages[p];
      }
    }

    /** First half of `register_subpage`: the subpage of page `p`, made if the page
        is unmapped; `made` tells which. */
    method SubpageFor(base: nat, ghost p: nat) returns (ok: bool, h: nat, ghost made: bool)
      requires Consistent() && p < NPAGES && base == PageBase(p)
      requires pages[p] == 0 || sections[pages[p]].mr.SubpageIo?
      modifies this, tree
      ensures added == old(added)
      ensures ok <==> old(pages[p]) != 0 || |old(sections)| < PAGE_SIZE
      ensures ok ==> tree.Growing() && Mirrors() && |tree.nodes| <= 11 * |sections|
      ensures ok ==> made == (old(pages[p]) == 0)
      ensures ok && !made ==>
                && pages == old(pages) && sections == old(sections) && subpages == old(subpages)
                && SubpageOk(sections[pages[p]], sections, subpages, p) && h == sections[pages[p]].mr.handle
      ensures ok && made ==>
                && |old(sections)| < PAGE_SIZE
                && pages == Repainted(old(pages), p, p + 1, |old(sections)|)
                && sections == old(sections) + [Section(SubpageIo(|old(subpages)|), base, 0, PAGE_SIZE)]
                && h == |old(subpages)| && |subpages| == h + 1 && subpages[..h] == old(subpages)
                && subpages[h].base == base && |subpages[h].sub| == PAGE_SIZE
                && forall i | 0 <= i < PAGE_SIZE :: subpages[h].sub[i] == PHYS_SECTION_UNASSIGNED
    {
      assert PageOk(pages[p], sections, subpages, p);
      PageEnd(p);
      AddrOnPage(base, p);
      PageFacts();
      assert tree.PageMap(p) == pages[p];
      SettlesFlat(tree.nodes, tree.root, pages, sections, subpages, base);
      var existing := tree.PageFind(base, sections);
      made := !sections[existing].mr.SubpageIo?;
      if !sections[existing].mr.SubpageIo? {
        var n;
        ok, n := SectionAdd(Section(SubpageIo(|subpages|), base, 0, PAGE_SIZE));
        if !ok {
          h := 0;
          return;
        }
        h := SubpageInit(base);
        tree.PageSet(PageOf(base), 1, n);
        pages := Repainted(pages, p, p + 1, n);
      } else {
        ok, h := true, sections[existing].mr.handle;
      }
    }

    /** `register_subpage`: a piece of one page. */
    method RegisterSubpage(s: Section) returns (ok: bool)
      requires Consistent() && Sane(s) && !s.mr.SubpageIo?
      requires s.off % PAGE_SIZE + s.size <= PAGE_SIZE
      requires Blank(pages, sections, subpages, s)
      modifies this, tree
      ensures added == old(added)
      ensures ok <==> |old(sections)| + MapCost(old(pages), PageOf(s.off)) <= PAGE_SIZE
      ensures ok ==> Consistent() && |sections| == |old(sections)| + MapCost(old(pages), PageOf(s.off))
      ensures ok ==> Overlaid(old(pages), old(sections), old(subpages), pages, sections, subpages, s, |sections| - 1)
    {
      hide WellFormed, Overlaid, Blank, SubpageOk, PageBase, PageOf, Span, Mirrors, Repainted, Pow2;
      var start := s.off % PAGE_SIZE;
      var base := s.off - start;
      ghost var p := BlankHead(pages, sections, subpages, s);
      var h, n;
      ghost var made;
      ok, h, made := SubpageFor(base, p);
      if !ok {
        return;
      }
      ghost var subs1 := subpages;
      var end := start + s.size - 1;
      ok, n := SectionAdd(s);
      if !ok {
        return;
      }
      var ret := SubpageRegister(h, start, end, n);
      if made {
        NewSubpageOverlays(old(pages), old(sections), old(subpages), s, p, subs1[h].sub);
        assert subpages == old(subpages) + [subpages[h]];
      } else {
        SubpageOverlays(old(pages), old(sections), old(subpages), s, p);
      }
    }

    /** One registration of `mem_add`: `piece` is the next part of `a`. */
    method RegisterPiece(piece: Section, multi: bool, a: Section,
                         ghost p0: seq<nat>, ghost s0: seq<Section>, ghost b0: seq<Subpage>)
      returns (ok: bool)
      requires Consistent() && Sane(a) && !a.mr.SubpageIo? && PieceOf(piece, a)
      requires Blank(p0, s0, b0, a) && Progress(p0, s0, b0, pages, sections, subpages, a, piece.off)
      requires if multi then piece.off % PAGE_SIZE == 0 && piece.size % PAGE_SIZE == 0
               else piece.off % PAGE_SIZE + piece.size <= PAGE_SIZE
      modifies this, tree
      ensures added == old(added)
      ensures ok <==> |old(sections)| + (if multi then 1 else MapCost(old(pages), PageOf(piece.off))) <= PAGE_SIZE
      ensures ok ==> Consistent()
      ensures ok ==> |sections| == |old(sections)| + if multi then 1 else MapCost(old(pages), PageOf(piece.off))
      ensures ok ==> Progress(p0, s0, b0, pages, sections, subpages, a, piece.off + piece.size)
    {
      hide WellFormed, Mirrors, Blank, Progress, Overlaid, FlatLookup;
      BlankRest(p0, s0, b0, pages, sections, subpages, a, piece);
      if multi {
        ok := RegisterMultipage(piece);
      } else {
        ok := RegisterSubpage(piece);
      }
      if ok {
        ProgressStep(p0, s0, b0, old(pages), old(sections), old(subpages), pages, sections, subpages,
                     a, piece, |sections| - 1);
      }
    }

    /** The part of a section before its first page boundary, registered; empty if it
        starts at one. */
    method FirstPiece(section: Section, ghost p0: seq<nat>, ghost s0: seq<Section>, ghost b0: seq<Subpage>)
      returns (ok: bool, now: Section)
      requires Consistent() && Sane(section) && !section.mr.SubpageIo?
      requires p0 == pages && s0 == sections && b0 == subpages && StartsFrom(added, p0, s0, b0)
      requires Blank(p0, s0, b0, section)
      modifies this, tree
      ensures added == old(added)
      ensures ok ==> Consistent() && Underway(section, section, now, added, p0, s0, b0)
      ensures !ok ==> |s0| + Entries(added, section) > PAGE_SIZE
    {
      hide WellFormed, Mirrors, Blank, Progress, FlatLookup, Denotes, Disjoint, PieceOf, Pow2, StartsFrom, RestCost,
           PageOf, PieceCost, MapCost;
      ProgressStart(p0, s0, b0, section);
      WholePiece(section);
      HeadCost(added, p0, s0, b0, section.off);
      now := section;
      if now.off % PAGE_SIZE != 0 {
        var left := PAGE_SIZE - now.off % PAGE_SIZE;
        now := now.(size := Min(left, now.size));
        FrontPiece(section, section, now.size);
        ok := RegisterPiece(now, false, section, p0, s0, b0);
        if now.size == left {
          PageRound(now.off, now.size);
        }
      } else {
        ok, now := true, now.(size := 0);
      }
    }

    /** Of `remain`, the rest of `section`, the part `now` is registered, and exactly
        the entries for what is left are yet to come. */
    ghost predicate Underway(section: Section, remain: Section, now: Section, list: seq<Section>,
                             p0: seq<nat>, s0: seq<Section>, b0: seq<Subpage>)
      reads this
    {
      && PieceOf(remain, section) && remain.off + remain.size == section.off + section.size
      && now.size <= remain.size && (now.size < remain.size ==> (remain.off + now.size) % PAGE_SIZE == 0)
      && Progress(p0, s0, b0, pages, sections, subpages, section, remain.off + now.size)
      && |sections| + RestCost(list, remain.off + now.size, remain.off + remain.size) == |s0| + Entries(list, section)
    }

    /** One round of the loop in `mem_add`. */
    method NextPiece(section: Section, remain: Section, now: Section, ghost list: seq<Section>,
                     ghost p0: seq<nat>, ghost s0: seq<Section>, ghost b0: seq<Subpage>)
      returns (ok: bool, remain': Section, now': Section)
      requires Consistent() && Sane(section) && !section.mr.SubpageIo? && Blank(p0, s0, b0, section)
      requires StartsFrom(list, p0, s0, b0)
      requires Underway(section, remain, now, list, p0, s0, b0) && remain.size != now.size
      modifies this, tree
      ensures added == old(added)
      ensures ok ==> Consistent() && Underway(section, remain', now', list, p0, s0, b0)
      ensures ok ==> remain'.size - now'.size < remain.size - now.size
      ensures !ok ==> |s0| + Entries(list, section) > PAGE_SIZE
    {
      hide WellFormed, Mirrors, Blank, Progress, FlatLookup, PieceOf, Pow2, StartsFrom, RestCost, Entries, MapCost,
           PageOf;
      RestPiece(remain, section, now.size);
      ghost var end := section.off + section.size;
      remain' := Section(remain.mr, remain.off + now.size, (remain.offRegion + now.size) % TWO64,
                         remain.size - now.size);
      now' := remain';
      if remain'.size < PAGE_SIZE {
        TailCost(list, p0, s0, b0, pages, sections, subpages, section, remain'.off, end);
        ok := RegisterPiece(now', false, section, p0, s0, b0);
      } else if remain'.off % PAGE_SIZE != 0 {
        assert false;
      } else {
        RoundDown(now'.size);
        now' := now'.(size := now'.size - now'.size % PAGE_SIZE);
        FrontPiece(remain', section, now'.size);
        WholeCost(list, remain'.off, end);
        ok := RegisterPiece(now', true, section, p0, s0, b0);
        PageRound(now'.off, now'.size);
      }
    }

    /** `mem_add`: registers a section piece by piece. */
    method MemAdd(section: Section) returns (ok: bool)
      requires Building() && Sane(section) && !section.mr.SubpageIo?
      requires forall i | 0 <= i < |added| :: Disjoint(added[i], section)
      modifies this, tree
      ensures ok <==> |old(sections)| + Entries(old(added), section) <= PAGE_SIZE
      ensures ok ==> Building() && added == old(added) + [section]
      ensures ok ==> |sections| == |old(sections)| + Entries(old(added), section)
    {
      hide WellFormed, Mirrors, Blank, Progress, FlatLookup, Denotes, Disjoint, PieceOf, Pow2, Entries;
      ghost var p0, s0, b0 := pages, sections, subpages;
      DisjointBlank(added, p0, s0, b0, section);
      var now, remain;
      ok, now := FirstPiece(section, p0, s0, b0);
      if !ok {
        return;
      }
      remain := section;
      while remain.size != now.size
        invariant Consistent() && added == old(added)
        invariant Underway(section, remain, now, added, p0, s0, b0)
        decreases remain.size - now.size
      {
        ok, remain, now := NextPiece(section, remain, now, added, p0, s0, b0);
        if !ok {
          return;
        }
      }
      DenotesMore(added, p0, s0, b0, pages, sections, subpages, section);
      PageCount(pages, sections, subpages);
      added := added + [section];
      ok := true;
    }

    /** The published table: every lookup yields the flat page array's section. */
    ghost predicate Committed()
      reads this, tree
    {
      && tree.Valid() && WellFormed(pages, sections, subpages)
      && Denotes(added, pages, sections, subpages)
      && (forall i | 0 <= i < |added| :: Sane(added[i]))
      && FindsPages(tree.nodes, tree.root, pages, sections)
    }

    /** `mem_commit`: compacts the tree and publishes it. */
    method MemCommit()
      requires Building()
      modifies tree
      ensures Committed()
    {
      ghost var n0, e0 := tree.nodes, tree.root;
      assert StandsFor(n0, e0, pages) by {
        forall p | 0 <= p < Span(P_L2_LEVELS)
          ensures Flat(n0, e0, P_L2_LEVELS, p) == (if p < |pages| then pages[p] else 0)
        {
          assert tree.PageMap(p) == (if p < |pages| then pages[p] else 0);
        }
      }
      tree.CompactAll();
      CompactedFinds(n0, e0, tree.nodes, tree.root, pages, sections, subpages);
    }

    /** `address_space_lookup_region`: the number of the section for `addr`. */
    method LookupRegion(addr: nat, resolveSubpage: bool) returns (s: nat)
      requires Committed() && addr < TWO64
      ensures s < |sections|
      ensures PageOf(addr) < |pages|
      ensures s == if resolveSubpage then FlatLookup(pages, sections, subpages, addr) else pages[PageOf(addr)]
      ensures if sections[s].mr.SubpageIo?
              then !resolveSubpage && SubpageOk(sections[s], sections, subpages, PageOf(addr))
              else ByteOk(added, sections, s, addr)
    {
      AddrParts(addr);
      var p := PageOf(addr);
      assert FindsAt(tree.nodes, tree.root, pages, sections, addr);
      assert PageOk(pages[p], sections, subpages, p);
      assert ByteOk(added, sections, FlatLookup(pages, sections, subpages, addr), addr);
      s := tree.PageFind(addr, sections);
      if resolveSubpage && sections[s].mr.SubpageIo? {
        assert PlainNumber(subpages[sections[s].mr.handle].sub[addr % PAGE_SIZE], sections);
        s := subpages[sections[s].mr.handle].sub[addr % PAGE_SIZE];
      }
    }

    /** `address_space_translate_internal`: region, offset within the region, and the
        length that an access of `plen` bytes may have. A page with a subpage, if
        subpages are not to be resolved, gives the subpage's own region and the
        offset in the page; everything else is as resolved. */
    method TranslateInternal(addr: nat, plen: nat, resolveSubpage: bool) returns (s: nat, xlat: nat, plen': nat)
      requires Committed() && addr < TWO64
      ensures s < |sections| && PageOf(addr) < |pages|
      ensures s == if resolveSubpage then FlatLookup(pages, sections, subpages, addr) else pages[PageOf(addr)]
      ensures sections[s].mr.SubpageIo? ==> !resolveSubpage && xlat == addr % PAGE_SIZE && plen' == plen
      ensures !sections[s].mr.SubpageIo? ==>
                forall i | 0 <= i < |added| && Within(added[i], addr) ::
                  && sections[s].mr == added[i].mr && xlat == Xlat(added[i], addr)
                  && (if IsRam(added[i].mr) then addr + plen' <= added[i].off + added[i].size else plen' == plen)
      ensures IsRam(sections[s].mr) ==> plen' == plen || addr + plen' == sections[s].off + sections[s].size
      ensures !sections[s].mr.SubpageIo? && (forall i | 0 <= i < |added| :: !Within(added[i], addr)) ==>
                sections[s].mr == IoUnassigned && xlat == addr && plen' == plen
      ensures plen' <= plen && (plen > 0 ==> plen' > 0)
    {
      hide WellFormed, Denotes, FindsPages, Xlat, ByteOk, SubpageOk, FlatLookup, PageOf;
      s := LookupRegion(addr, resolveSubpage);
      var sec := sections[s];
      xlat := Xlat(sec, addr);
      plen' := plen;
      if sec.mr.SubpageIo? {
        SubpageByte(sections, subpages, s, addr);
      } else {
        ResolvedByte(added, pages, sections, subpages, s, addr);
      }
      if IsRam(sec.mr) {
        plen' := Min(sec.size - (addr - sec.off), plen);
      }
    }
  }

  predicate IsRam(mr: Region) {
    mr.Memory? && mr.ram
  }

  /** The offset within a subpage's region is the offset in the page. */
  lemma SubpageByte(sections: seq<Section>, subs: seq<Subpage>, s: nat, addr: nat)
    requires s < |sections| && SubpageOk(sections[s], sections, subs, PageOf(addr)) && addr < TWO64
    ensures Xlat(sections[s], addr) == addr % PAGE_SIZE
  {
    hide Pow2;
    PageFacts();
    AddrParts(addr);
  }

  /** What a right section number means for the address. */
  lemma ResolvedByte(added: seq<Section>, pages: seq<nat>, sections: seq<Section>, subs: seq<Subpage>, s: nat,
                     addr: nat)
    requires WellFormed(pages, sections, subs) && ByteOk(added, sections, s, addr) && addr < TWO64
    requires s < |sections| && forall i | 0 <= i < |added| :: Sane(added[i])
    ensures forall i | 0 <= i < |added| && Within(added[i], addr) ::
              && sections[s].mr == added[i].mr && Xlat(sections[s], addr) == Xlat(added[i], addr)
              && Within(sections[s], addr)
              && sections[s].off + sections[s].size <= added[i].off + added[i].size
    ensures (forall i | 0 <= i < |added| :: !Within(added[i], addr)) ==>
              sections[s].mr == IoUnassigned && Xlat(sections[s], addr) == addr
    ensures IsRam(sections[s].mr) ==> Within(sections[s], addr)
  {
    forall i | 0 <= i < |added| && Within(added[i], addr)
      ensures sections[s].mr == added[i].mr && Xlat(sections[s], addr) == Xlat(added[i], addr)
    {
      assert TakenBy(sections, s, added[i], addr);
      PieceTranslates(sections[s], added[i], addr);
    }
  }

  /** The tree stands for the flat array `pages`. */
  ghost predicate StandsFor(nodes: seq<Node>, root: Entry, pages: seq<nat>) {
    forall p | 0 <= p < Span(P_L2_LEVELS) ::
      Flat(nodes, root, P_L2_LEVELS, p) == (if p < |pages| then pages[p] else 0)
  }

  ghost predicate FindsAt(nodes: seq<Node>, root: Entry, pages: seq<nat>, sections: seq<Section>, addr: nat) {
    && PageOf(addr) < |pages|
    && Flat(nodes, root, P_L2_LEVELS, PageOf(addr)) < |sections|
    && Settle(sections, Walk(nodes, root, P_L2_LEVELS, PageOf(addr)), addr) == pages[PageOf(addr)]
  }

  ghost predicate FindsPages(nodes: seq<Node>, root: Entry, pages: seq<nat>, sections: seq<Section>) {
    forall addr | 0 <= addr < TWO64 :: FindsAt(nodes, root, pages, sections, addr)
  }

  /** In a well-formed table leaves are exactly the pages of their sections. */
  lemma WellFormedExact(nodes: seq<Node>, root: Entry, pages: seq<nat>, sections: seq<Section>, subs: seq<Subpage>)
    requires WellFormed(pages, sections, subs) && StandsFor(nodes, root, pages)
    ensures Exact(nodes, root, sections)
  {
    forall q, addr | 0 <= q < Span(P_L2_LEVELS) && 0 <= addr < TWO64
      ensures var h := Walk(nodes, root, P_L2_LEVELS, q);
              h.Leaf? && 0 < h.ptr < |sections| && CoversByte(sections[h.ptr], addr) ==>
                Flat(nodes, root, P_L2_LEVELS, PageOf(addr)) == h.ptr
    {
      hide Walk, CoversByte;
      var h := Walk(nodes, root, P_L2_LEVELS, q);
      PageFacts();
      AddrParts(addr);
      if h.Leaf? && 0 < h.ptr < |sections| {
        assert Flat(nodes, root, P_L2_LEVELS, q) == h.ptr;
        assert pages[q] == h.ptr && PageOk(pages[q], sections, subs, q);
        CoversIsWithin(sections[h.ptr], addr);
        assert ExactAt(pages, sections, q, addr);
      }
    }
  }

  lemma CompactedFinds(n0: seq<Node>, e0: Entry, n1: seq<Node>, e1: Entry,
                       pages: seq<nat>, sections: seq<Section>, subs: seq<Subpage>)
    requires WellFormed(pages, sections, subs) && StandsFor(n0, e0, pages)
    requires Widened(n0, e0, n1, e1, P_L2_LEVELS, 0)
    ensures FindsPages(n1, e1, pages, sections)
  {
    WellFormedExact(n0, e0, pages, sections, subs);
    forall addr | 0 <= addr < TWO64
      ensures FindsAt(n1, e1, pages, sections, addr)
    {
      AddrParts(addr);
      PageFacts();
      var p := PageOf(addr);
      assert Flat(n0, e0, P_L2_LEVELS, p) == pages[p];
      SettlesFlat(n0, e0, pages, sections, subs, addr);
      CompactionPreservesFind(n0, e0, n1, e1, sections, addr);
      LeafInTable(n0, e0, n1, e1, pages, sections, subs, p);
    }
  }

  lemma LeafInTable(n0: seq<Node>, e0: Entry, n1: seq<Node>, e1: Entry,
                    pages: seq<nat>, sections: seq<Section>, subs: seq<Subpage>, p: nat)
    requires WellFormed(pages, sections, subs) && StandsFor(n0, e0, pages)
    requires Widened(n0, e0, n1, e1, P_L2_LEVELS, 0) && p < Span(P_L2_LEVELS)
    ensures Flat(n1, e1, P_L2_LEVELS, p) < |sections|
  {
    hide Walk;
    assert WidenedAt(n0, e0, n1, e1, P_L2_LEVELS, 0, p);
    var h' := Walk(n1, e1, P_L2_LEVELS, p);
    var q := p;
    if h' != Walk(n0, e0, P_L2_LEVELS, p) {
      q :| 0 <= q < 0 + Span(P_L2_LEVELS) && Walk(n0, e0, P_L2_LEVELS, q) == h';
    }
    assert Flat(n0, e0, P_L2_LEVELS, q) == SectionOf(h');
    assert q < |pages| ==> PageOk(pages[q], sections, subs, q);
  }

  /** A whole rebuild of the dispatch table: `mem_begin`, `mem_add` of each section,
      `mem_commit`. Lookups of the result are those of the list of sections. */
  method Rebuild(list: seq<Section>) returns (ok: bool, d: AddressSpaceDispatch)
    requires forall i | 0 <= i < |list| :: Sane(list[i]) && !list[i].mr.SubpageIo?
    requires forall i, j | 0 <= i < j < |list| :: Disjoint(list[i], list[j])
    ensures fresh(d) && fresh(d.tree)
    ensures ok <==> TableSize(list) <= PAGE_SIZE
    ensures DUMMIES + 5 * |list| <= PAGE_SIZE ==> ok
    ensures ok ==> d.Committed() && d.added == list && |d.sections| == TableSize(list)
  {
    hide WellFormed, Denotes, Entries, FindsPages, Disjoint, Pow2;
    d := new AddressSpaceDispatch();
    ok := true;
    var i := 0;
    while i < |list|
      invariant i <= |list| && fresh(d) && fresh(d.tree)
      invariant d.Building() && d.added == list[..i]
      invariant |d.sections| == TableSize(list[..i]) && ok
    {
      assert list[..i + 1] == list[..i] + [list[i]] && list[..i + 1][..i] == list[..i];
      TableGrows(list, i + 1);
      ok := d.MemAdd(list[i]);
      if !ok {
        return;
      }
      i := i + 1;
    }
    assert list[..i] == list;
    PageCount(d.pages, d.sections, d.subpages);
    d.MemCommit();
  }

  /** The table is transparent: for any list of disjoint sections, of any alignment,
      every byte resolves to the region and the offset that the covering section
      gives it, and to the unassigned region if there is none. */
  method Resolve(list: seq<Section>, addr: nat) returns (ok: bool, mr: Region, xlat: nat)
    requires forall i | 0 <= i < |list| :: Sane(list[i]) && !list[i].mr.SubpageIo?
    requires forall i, j | 0 <= i < j < |list| :: Disjoint(list[i], list[j])
    requires addr < TWO64
    ensures ok <==> TableSize(list) <= PAGE_SIZE
    ensures DUMMIES + 5 * |list| <= PAGE_SIZE ==> ok
    ensures ok ==>
              forall i | 0 <= i < |list| && Within(list[i], addr) :: mr == list[i].mr && xlat == Xlat(list[i], addr)
    ensures ok && (forall i | 0 <= i < |list| :: !Within(list[i], addr)) ==> mr == IoUnassigned && xlat == addr
  {
    mr, xlat := IoUnassigned, addr;
    var d;
    ok, d := Rebuild(list);
    if ok {
      var s, plen;
      s, xlat, plen := d.TranslateInternal(addr, 1, true);
      mr := d.sections[s].mr;
    }
  }

  lemma ProgressStart(pages: seq<nat>, sections: seq<Section>, subs: seq<Subpage>, a: Section)
    ensures Progress(pages, sections, subs, pages, sections, subs, a, a.off)
  {
  }

  lemma WholePiece(a: Section)
    requires Sane(a)
    ensures PieceOf(a, a)
  {
  }

  lemma PageRound(x: nat, y: nat)
    requires (x % PAGE_SIZE == 0 && y % PAGE_SIZE == 0) || x % PAGE_SIZE + y == PAGE_SIZE
    ensures (x + y) % PAGE_SIZE == 0
  {
    hide Pow2;
    AddrParts(x);
    AddrParts(y);
    var q := if x % PAGE_SIZE + y == PAGE_SIZE then 1 else PageOf(y);
    PageBaseAdd(PageOf(x), q);
    assert x + y == PageBase(PageOf(x) + q);
    DivModUnique(x + y, PAGE_SIZE, PageOf(x) + q, 0);
  }

  lemma RoundDown(size: nat)
    requires size >= PAGE_SIZE
    ensures 0 < size - size % PAGE_SIZE && (size - size % PAGE_SIZE) % PAGE_SIZE == 0
    ensures size % PAGE_SIZE < PAGE_SIZE
  {
    hide Pow2;
    AddrParts(size);
    DivModUnique(size - size % PAGE_SIZE, PAGE_SIZE, PageOf(size), 0);
  }

  lemma FrontPiece(s: Section, a: Section, size: nat)
    requires PieceOf(s, a) && 0 < size <= s.size
    ensures PieceOf(s.(size := size), a)
  {
  }

  lemma RestPiece(s: Section, a: Section, d: nat)
    requires PieceOf(s, a) && d < s.size
    ensures PieceOf(Section(s.mr, s.off + d, (s.offRegion + d) % TWO64, s.size - d), a)
  {
    ModAdd(d, a.offRegion + (s.off - a.off));
  }
}
