/** The dispatch table with the radix tree replaced by a flat page array: what a
    lookup of each byte yields, and what adding one piece changes. */
module FlatDispatch {
  import opened Pages
  import opened Sections

  /** A page whose bytes belong to different sections: a section number per byte. */
  datatype Subpage = Subpage(base: nat, sub: seq<nat>)

  /** Section numbers 0 to 3 are the dummy sections of the I/O regions. */
  const DUMMIES: nat := 4

  /** The section number of byte `x` of a page mapped to section `s`. */
  function ByteAt(s: nat, sections: seq<Section>, subs: seq<Subpage>, x: nat): (r: nat) {
    if s < |sections| && sections[s].mr.SubpageIo?
       && sections[s].mr.handle < |subs| && x < |subs[sections[s].mr.handle].sub|
    then subs[sections[s].mr.handle].sub[x]
    else s
  }

  /** The section number that resolves `addr`. */
  function FlatLookup(pages: seq<nat>, sections: seq<Section>, subs: seq<Subpage>, addr: nat): (r: nat) {
    if PageOf(addr) < |pages| then ByteAt(pages[PageOf(addr)], sections, subs, addr % PAGE_SIZE) else 0
  }

  ghost predicate SubpageOk(s: Section, sections: seq<Section>, subs: seq<Subpage>, p: nat) {
    && s.mr.SubpageIo? && s.mr.handle < |subs|
    && s.off == PageBase(p) == subs[s.mr.handle].base && s.offRegion == 0 && s.size == PAGE_SIZE
    && |subs[s.mr.handle].sub| == PAGE_SIZE
    && (forall x | 0 <= x < PAGE_SIZE :: PlainNumber(subs[s.mr.handle].sub[x], sections))
    && (exists x :: 0 <= x < PAGE_SIZE && subs[s.mr.handle].sub[x] != 0)
  }

  /** The number of a section that is not itself a subpage. */
  ghost predicate PlainNumber(n: nat, sections: seq<Section>) {
    n < |sections| && !sections[n].mr.SubpageIo?
  }

  /** Page `p` may be mapped to section number `n`. */
  ghost predicate PageOk(n: nat, sections: seq<Section>, subs: seq<Subpage>, p: nat) {
    n == 0 ||
    (DUMMIES <= n < |sections| && Sane(sections[n]) &&
     if sections[n].mr.SubpageIo? then SubpageOk(sections[n], sections, subs, p)
     else sections[n].off <= PageBase(p) && PageBase(p) + PAGE_SIZE <= sections[n].off + sections[n].size)
  }

  /** The pages that a mapped section covers are all mapped to it. */
  ghost predicate ExactAt(pages: seq<nat>, sections: seq<Section>, p: nat, addr: nat)
    requires p < |pages|
  {
    pages[p] != 0 && pages[p] < |sections| && Within(sections[pages[p]], addr) ==>
      PageOf(addr) < |pages| && pages[PageOf(addr)] == pages[p]
  }

  ghost predicate WellFormed(pages: seq<nat>, sections: seq<Section>, subs: seq<Subpage>) {
    && |pages| == NPAGES
    && DUMMIES <= |sections| <= PAGE_SIZE
    && sections[0] == Section(IoUnassigned, 0, 0, TWO64)
    && (forall p | 0 <= p < NPAGES :: PageOk(pages[p], sections, subs, p))
    && (forall p, addr | 0 <= p < NPAGES && 0 <= addr < TWO64 :: ExactAt(pages, sections, p, addr))
  }

  /** No byte of `s` is taken yet. */
  ghost predicate Blank(pages: seq<nat>, sections: seq<Section>, subs: seq<Subpage>, s: Section) {
    forall addr | Within(s, addr) :: FlatLookup(pages, sections, subs, addr) == 0
  }

  /** From one table to the next, the bytes of `s` got section number `n`, whose
      section is `s`, and no other byte changed; known sections keep their number. */
  ghost predicate Overlaid(pages: seq<nat>, sections: seq<Section>, subs: seq<Subpage>,
                           pages': seq<nat>, sections': seq<Section>, subs': seq<Subpage>, s: Section, n: nat)
  {
    && sections <= sections'
    && 0 < n < |sections'| && sections'[n] == s
    && forall addr | 0 <= addr < TWO64 ::
         FlatLookup(pages', sections', subs', addr)
         == if Within(s, addr) then n else FlatLookup(pages, sections, subs, addr)
  }

  /** A mapped page has a byte that resolves to a section. */
  lemma MappedByte(pages: seq<nat>, sections: seq<Section>, subs: seq<Subpage>, p: nat) returns (addr: nat)
    requires WellFormed(pages, sections, subs) && p < NPAGES && pages[p] != 0
    ensures addr < TWO64 && PageOf(addr) == p && FlatLookup(pages, sections, subs, addr) != 0
  {
    assert PageOk(pages[p], sections, subs, p);
    var x := 0;
    if sections[pages[p]].mr.SubpageIo? {
      x :| 0 <= x < PAGE_SIZE && subs[sections[pages[p]].mr.handle].sub[x] != 0;
    }
    addr := PageBase(p) + x;
    AddrOnPage(addr, p);
    PageEnd(p);
  }

  /** And on an unmapped page no byte does. */
  lemma UnmappedByte(pages: seq<nat>, sections: seq<Section>, subs: seq<Subpage>, addr: nat)
    requires WellFormed(pages, sections, subs) && PageOf(addr) < NPAGES
    ensures pages[PageOf(addr)] == 0 ==> FlatLookup(pages, sections, subs, addr) == 0
  {
  }

  /** On a page that lies wholly in a blank section nothing is mapped. */
  lemma BlankPage(pages: seq<nat>, sections: seq<Section>, subs: seq<Subpage>, s: Section, p: nat)
    requires WellFormed(pages, sections, subs) && Blank(pages, sections, subs, s)
    requires p < NPAGES && s.off <= PageBase(p) && PageBase(p) + PAGE_SIZE <= s.off + s.size
    ensures pages[p] == 0
  {
    if pages[p] != 0 {
      var addr := MappedByte(pages, sections, subs, p);
      AddrOnPage(addr, p);
      assert Within(s, addr);
    }
  }

  /** A page with a blank byte is unmapped or a subpage. */
  lemma BlankByte(pages: seq<nat>, sections: seq<Section>, subs: seq<Subpage>, addr: nat)
    requires WellFormed(pages, sections, subs) && addr < TWO64
    requires FlatLookup(pages, sections, subs, addr) == 0
    ensures PageOf(addr) < NPAGES && PageOk(pages[PageOf(addr)], sections, subs, PageOf(addr))
    ensures pages[PageOf(addr)] == 0 || sections[pages[PageOf(addr)]].mr.SubpageIo?
  {
    AddrParts(addr);
    assert PageOk(pages[PageOf(addr)], sections, subs, PageOf(addr));
  }

  /** New sections at the end of the table disturb no page. */
  lemma PageOkGrows(n: nat, sections: seq<Section>, sections': seq<Section>,
                    subs: seq<Subpage>, subs': seq<Subpage>, p: nat)
    requires PageOk(n, sections, subs, p) && sections <= sections' && PlainNumber(0, sections)
    requires |subs| <= |subs'|
    requires n != 0 && sections[n].mr.SubpageIo? ==> subs'[sections[n].mr.handle] == subs[sections[n].mr.handle]
    ensures PageOk(n, sections', subs', p)
    ensures forall x | 0 <= x < PAGE_SIZE :: ByteAt(n, sections', subs', x) == ByteAt(n, sections, subs, x)
  {
    if n != 0 && sections[n].mr.SubpageIo? {
      var sub := subs[sections[n].mr.handle].sub;
      forall x | 0 <= x < PAGE_SIZE
        ensures PlainNumber(sub[x], sections')
      {
        assert PlainNumber(sub[x], sections);
      }
    }
  }

  ghost function Repainted(pages: seq<nat>, a: nat, b: nat, n: nat): (r: seq<nat>)
    ensures |r| == |pages|
    ensures forall p | 0 <= p < |pages| :: r[p] == if a <= p < b then n else pages[p]
  {
    seq(|pages|, p requires 0 <= p < |pages| => if a <= p < b then n else pages[p])
  }

  // ---- register_multipage ----

  /** Page `p` is one of the whole pages `[a, b)` of section `s`, seen from an address. */
  lemma InPages(s: Section, a: nat, b: nat, addr: nat)
    requires a <= b && s.off == PageBase(a) && s.size == PageBase(b) - PageBase(a)
    ensures Within(s, addr) <==> a <= PageOf(addr) < b
  {
    var p := PageOf(addr);
    AddrOnPage(addr, p);
    if p < a {
      PageBaseMono(p, a);
    } else if a < p {
      PageBaseMono(a, p);
    }
    if p < b {
      PageBaseMono(p, b);
    } else if b < p {
      PageBaseMono(b, p);
    }
  }

  lemma MultipageOverlays(pages: seq<nat>, sections: seq<Section>, subs: seq<Subpage>, s: Section, a: nat, b: nat)
    requires WellFormed(pages, sections, subs) && |sections| < PAGE_SIZE
    requires Sane(s) && !s.mr.SubpageIo? && Blank(pages, sections, subs, s)
    requires a <= b <= NPAGES && s.off == PageBase(a) && s.size == PageBase(b) - PageBase(a)
    ensures var pages', sections' := Repainted(pages, a, b, |sections|), sections + [s];
            && WellFormed(pages', sections', subs)
            && Overlaid(pages, sections, subs, pages', sections', subs, s, |sections|)
  {
    var n := |sections|;
    var pages', sections' := Repainted(pages, a, b, n), sections + [s];
    forall p | 0 <= p < NPAGES
      ensures PageOk(pages'[p], sections', subs, p)
    {
      if a <= p < b {
        WholePage(s, a, b, p);
      } else {
        PageOkGrows(pages[p], sections, sections', subs, subs, p);
      }
    }
    forall p, addr | 0 <= p < NPAGES && 0 <= addr < TWO64
      ensures ExactAt(pages', sections', p, addr)
    {
      InPages(s, a, b, addr);
      AddrParts(addr);
      if !(a <= p < b) && pages[p] != 0 {
        assert PageOk(pages[p], sections, subs, p);
        assert ExactAt(pages, sections, p, addr);
        if a <= PageOf(addr) < b {
          WholePage(s, a, b, PageOf(addr));
          BlankPage(pages, sections, subs, s, PageOf(addr));
        }
      }
    }
    forall addr | 0 <= addr < TWO64
      ensures FlatLookup(pages', sections', subs, addr)
              == if Within(s, addr) then n else FlatLookup(pages, sections, subs, addr)
    {
      InPages(s, a, b, addr);
      AddrParts(addr);
      PageOkGrows(pages[PageOf(addr)], sections, sections', subs, subs, PageOf(addr));
    }
  }

  lemma WholePage(s: Section, a: nat, b: nat, p: nat)
    requires a <= p < b && s.off == PageBase(a) && s.size == PageBase(b) - PageBase(a)
    ensures s.off <= PageBase(p) && PageBase(p) + PAGE_SIZE <= s.off + s.size
  {
    if a < p {
      PageBaseMono(a, p);
    }
    PageBaseMono(p, b);
  }

  // ---- register_subpage ----

  /** The bytes `[x, y)` of a subpage's number table set to `n`. */
  ghost function Refilled(sub: seq<nat>, x: nat, y: nat, n: nat): (r: seq<nat>)
    ensures |r| == |sub|
    ensures forall i | 0 <= i < |sub| :: r[i] == if x <= i < y then n else sub[i]
  {
    seq(|sub|, i requires 0 <= i < |sub| => if x <= i < y then n else sub[i])
  }

  /** Section `s` lies on page `p`. */
  ghost predicate OnPage(s: Section, p: nat) {
    PageBase(p) <= s.off && s.off + s.size <= PageBase(p) + PAGE_SIZE
  }

  /** A byte of page `p` belongs to `s` exactly if its offset lies in `s`'s range. */
  lemma InBytes(s: Section, p: nat, addr: nat)
    requires OnPage(s, p)
    ensures Within(s, addr) <==>
            PageOf(addr) == p && s.off - PageBase(p) <= addr % PAGE_SIZE < s.off + s.size - PageBase(p)
  {
    AddrOnPage(addr, p);
  }

  /** Registering `s` in the subpage that page `p` already has. */
  lemma SubpageOverlays(pages: seq<nat>, sections: seq<Section>, subs: seq<Subpage>, s: Section, p: nat)
    requires WellFormed(pages, sections, subs) && |sections| < PAGE_SIZE
    requires Sane(s) && !s.mr.SubpageIo? && p < NPAGES && OnPage(s, p)
    requires pages[p] != 0 && pages[p] < |sections|
    requires SubpageOk(sections[pages[p]], sections, subs, p)
    ensures var h := sections[pages[p]].mr.handle;
            var sub' := Refilled(subs[h].sub, s.off - PageBase(p), s.off + s.size - PageBase(p), |sections|);
            var sections', subs' := sections + [s], subs[h := subs[h].(sub := sub')];
            && WellFormed(pages, sections', subs')
            && Overlaid(pages, sections, subs, pages, sections', subs', s, |sections|)
  {
    var n, h := |sections|, sections[pages[p]].mr.handle;
    var sub' := Refilled(subs[h].sub, s.off - PageBase(p), s.off + s.size - PageBase(p), n);
    var sections', subs' := sections + [s], subs[h := subs[h].(sub := sub')];
    RefilledOk(sections[pages[p]], sections, subs, s, p);
    forall q | 0 <= q < NPAGES
      ensures PageOk(pages[q], sections', subs', q)
    {
      if q != p {
        OtherPage(pages, sections, subs, sections', subs', p, q);
      }
    }
    ExactGrows(pages, sections, subs, sections');
    forall addr | 0 <= addr < TWO64
      ensures FlatLookup(pages, sections', subs', addr)
              == if Within(s, addr) then n else FlatLookup(pages, sections, subs, addr)
    {
      hide SubpageOk, PageOk, ExactAt, PageOf, Within;
      InBytes(s, p, addr);
      AddrParts(addr);
      if PageOf(addr) != p {
        OtherPage(pages, sections, subs, sections', subs', p, PageOf(addr));
      }
    }
  }

  lemma RefilledOk(own: Section, sections: seq<Section>, subs: seq<Subpage>, s: Section, p: nat)
    requires SubpageOk(own, sections, subs, p)
    requires s.size > 0 && !s.mr.SubpageIo? && OnPage(s, p) && |sections| > 0
    ensures var h := own.mr.handle;
            var sub' := Refilled(subs[h].sub, s.off - PageBase(p), s.off + s.size - PageBase(p), |sections|);
            SubpageOk(own, sections + [s], subs[h := subs[h].(sub := sub')], p)
  {
    var h, x := own.mr.handle, s.off - PageBase(p);
    var sub' := Refilled(subs[h].sub, x, s.off + s.size - PageBase(p), |sections|);
    forall i | 0 <= i < PAGE_SIZE
      ensures PlainNumber(sub'[i], sections + [s])
    {
      assert PlainNumber(subs[h].sub[i], sections);
    }
    assert sub'[x] == |sections|;
  }

  /** Changing the subpage of page `p` leaves page `q` alone. */
  lemma OtherPage(pages: seq<nat>, sections: seq<Section>, subs: seq<Subpage>,
                  sections': seq<Section>, subs': seq<Subpage>, p: nat, q: nat)
    requires WellFormed(pages, sections, subs) && p < NPAGES && q < NPAGES && p != q
    requires pages[p] != 0 && pages[p] < |sections| && sections <= sections'
    requires SubpageOk(sections[pages[p]], sections, subs, p)
    requires |subs'| == |subs|
    requires forall g | 0 <= g < |subs| && g != sections[pages[p]].mr.handle :: subs'[g] == subs[g]
    ensures PageOk(pages[q], sections', subs', q)
    ensures forall i | 0 <= i < PAGE_SIZE ::
              ByteAt(pages[q], sections', subs', i) == ByteAt(pages[q], sections, subs, i)
  {
    assert PageOk(pages[q], sections, subs, q);
    if pages[q] != 0 {
      OtherHandle(pages, sections, subs, p, q);
    }
    PageOkGrows(pages[q], sections, sections', subs, subs', q);
  }

  /** Different pages have different subpages. */
  lemma OtherHandle(pages: seq<nat>, sections: seq<Section>, subs: seq<Subpage>, p: nat, q: nat)
    requires WellFormed(pages, sections, subs) && p < NPAGES && q < NPAGES && p != q
    requires pages[p] != 0 && pages[q] != 0 && pages[p] < |sections|
    requires SubpageOk(sections[pages[p]], sections, subs, p)
    ensures pages[q] < |sections|
    ensures sections[pages[q]].mr.SubpageIo? ==> sections[pages[q]].mr.handle != sections[pages[p]].mr.handle
  {
    assert PageOk(pages[q], sections, subs, q);
    if p < q {
      PageBaseMono(p, q);
    } else {
      PageBaseMono(q, p);
    }
  }

  lemma ExactGrows(pages: seq<nat>, sections: seq<Section>, subs: seq<Subpage>, sections': seq<Section>)
    requires WellFormed(pages, sections, subs) && sections <= sections'
    ensures forall p, addr | 0 <= p < NPAGES && 0 <= addr < TWO64 :: ExactAt(pages, sections', p, addr)
  {
    forall p, addr | 0 <= p < NPAGES && 0 <= addr < TWO64
      ensures ExactAt(pages, sections', p, addr)
    {
      assert PageOk(pages[p], sections, subs, p);
      assert ExactAt(pages, sections, p, addr);
    }
  }

  /** Giving the unmapped page `p` a subpage of its own and registering `s` there. */
  lemma NewSubpageOverlays(pages: seq<nat>, sections: seq<Section>, subs: seq<Subpage>, s: Section, p: nat,
                           blank: seq<nat>)
    requires WellFormed(pages, sections, subs) && |sections| + 1 < PAGE_SIZE
    requires Sane(s) && !s.mr.SubpageIo? && p < NPAGES && OnPage(s, p) && pages[p] == 0
    requires |blank| == PAGE_SIZE && forall i | 0 <= i < PAGE_SIZE :: blank[i] == 0
    ensures var sub' := Refilled(blank, s.off - PageBase(p), s.off + s.size - PageBase(p), |sections| + 1);
            var pages' := Repainted(pages, p, p + 1, |sections|);
            var sections' := sections + [Section(SubpageIo(|subs|), PageBase(p), 0, PAGE_SIZE)] + [s];
            var subs' := subs + [Subpage(PageBase(p), sub')];
            && WellFormed(pages', sections', subs')
            && Overlaid(pages, sections, subs, pages', sections', subs', s, |sections| + 1)
  {
    hide ExactAt, Pow2;
    var m := |sections|;
    var x, y := s.off - PageBase(p), s.off + s.size - PageBase(p);
    var sub' := Refilled(blank, x, y, m + 1);
    var pages' := Repainted(pages, p, p + 1, m);
    var own := Section(SubpageIo(|subs|), PageBase(p), 0, PAGE_SIZE);
    var sections' := sections + [own] + [s];
    var subs' := subs + [Subpage(PageBase(p), sub')];
    PageEnd(p);
    assert sub'[x] == m + 1;
    assert SubpageOk(own, sections', subs', p);
    forall q | 0 <= q < NPAGES && q != p
      ensures PageOk(pages'[q], sections', subs', q)
      ensures forall i | 0 <= i < PAGE_SIZE ::
                ByteAt(pages'[q], sections', subs', i) == ByteAt(pages[q], sections, subs, i)
    {
      assert PageOk(pages[q], sections, subs, q);
      PageOkGrows(pages[q], sections, sections', subs, subs', q);
    }
    ExactNew(pages, sections, subs, own, pages', sections', p);
    forall addr | 0 <= addr < TWO64
      ensures FlatLookup(pages', sections', subs', addr)
              == if Within(s, addr) then m + 1 else FlatLookup(pages, sections, subs, addr)
    {
      InBytes(s, p, addr);
      AddrParts(addr);
    }
  }

  lemma ExactNew(pages: seq<nat>, sections: seq<Section>, subs: seq<Subpage>, own: Section,
                 pages': seq<nat>, sections': seq<Section>, p: nat)
    requires WellFormed(pages, sections, subs) && p < NPAGES && pages[p] == 0
    requires pages' == Repainted(pages, p, p + 1, |sections|)
    requires own.off == PageBase(p) && own.size == PAGE_SIZE && sections + [own] <= sections'
    ensures forall q, addr | 0 <= q < NPAGES && 0 <= addr < TWO64 :: ExactAt(pages', sections', q, addr)
  {
    forall q, addr | 0 <= q < NPAGES && 0 <= addr < TWO64
      ensures ExactAt(pages', sections', q, addr)
    {
      AddrOnPage(addr, p);
      AddrParts(addr);
      if q == p {
        assert sections'[|sections|] == own;
      } else {
        assert PageOk(pages[q], sections, subs, q);
        assert ExactAt(pages, sections, q, addr);
      }
    }
  }
}
