/** Memory region sections, and what a page-table hit means for an address. */
module Sections {
  import opened Pages
  import opened Radix
  import opened PageTree
  import opened Compaction

  /** The `MemoryRegion` of a section: one of the four dummies, the I/O region of
      a subpage, or a region of the memory API. */
  datatype Region =
    | IoUnassigned
    | IoNotDirty
    | IoRom
    | IoWatch
    | SubpageIo(handle: nat)
    | Memory(id: nat, ram: bool)

  /** `off` is the offset within the address space; `size` has 128 bits. */
  datatype Section = Section(mr: Region, off: nat, offRegion: nat, size: nat)

  ghost predicate Within(s: Section, addr: nat) {
    s.off <= addr < s.off + s.size
  }

  /** A nonempty section that does not wrap around the address space. */
  predicate Sane(s: Section) {
    0 < s.size && s.off + s.size <= TWO64 && s.offRegion < TWO64
  }

  /** `size.hi || range_covers_byte(off, size.lo, addr)`, with the last byte of the
      range computed modulo 2^64. */
  predicate CoversByte(s: Section, addr: nat) {
    s.size >= TWO64 || s.off <= addr <= (s.off + s.size + TWO64 - 1) % TWO64
  }

  lemma CoversIsWithin(s: Section, addr: nat)
    requires Sane(s) && addr < TWO64
    ensures CoversByte(s, addr) <==> Within(s, addr)
  {
    if s.size < TWO64 {
      assert (s.off + s.size + TWO64 - 1) % TWO64 == s.off + s.size - 1;
    }
  }

  /** The section `phys_page_find` settles on for a hit: the leaf's, if it covers
      the address. */
  function Settle(sections: seq<Section>, h: Hit, addr: nat): (s: nat) {
    if h.Leaf? && h.ptr < |sections| && CoversByte(sections[h.ptr], addr)
    then h.ptr
    else PHYS_SECTION_UNASSIGNED
  }

  /** A section's leaves are exactly the pages it covers. */
  ghost predicate Exact(nodes: seq<Node>, root: Entry, sections: seq<Section>) {
    forall q, addr | 0 <= q < Span(P_L2_LEVELS) && 0 <= addr < TWO64 ::
      var h := Walk(nodes, root, P_L2_LEVELS, q);
      h.Leaf? && 0 < h.ptr < |sections| && CoversByte(sections[h.ptr], addr) ==>
        Flat(nodes, root, P_L2_LEVELS, PageOf(addr)) == h.ptr
  }

  /** Compaction preserves lookup, also where the skipped bits used to select an
      empty sibling: the range check rejects the section found there. */
  lemma CompactionPreservesFind(n0: seq<Node>, e0: Entry, n1: seq<Node>, e1: Entry,
                                sections: seq<Section>, addr: nat)
    requires Widened(n0, e0, n1, e1, P_L2_LEVELS, 0)
    requires Exact(n0, e0, sections)
    requires addr < TWO64
    ensures Settle(sections, Walk(n1, e1, P_L2_LEVELS, PageOf(addr)), addr)
            == Settle(sections, Walk(n0, e0, P_L2_LEVELS, PageOf(addr)), addr)
  {
    PageFacts();
    AddrParts(addr);
    hide Walk, CoversByte, PageOf;
    var p := PageOf(addr);
    assert WidenedAt(n0, e0, n1, e1, P_L2_LEVELS, 0, p);
  }
}
