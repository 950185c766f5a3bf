/** The software TLB of cputlb.c on 64-bit guest addresses: large pages are
    remembered as one masked region, and flushing an address in that region
    flushes everything. */
module SoftTlb {
  import opened Pages

  type Word = bv64

  const ALL_ONES: Word := 0xffff_ffff_ffff_ffff
  const TLB_INVALID_MASK: Word := 8
  const TLB_NOTDIRTY: Word := 16
  const TLB_MMIO: Word := 32

  const TARGET_PAGE_MASK: Word := ALL_ONES << TARGET_PAGE_BITS

  const CPU_TLB_SIZE: Positive
  const CPU_VTLB_SIZE: Positive
  const NB_MMU_MODES: Positive

  /** A run of ones followed by a run of zeros. */
  predicate IsMask(m: Word) {
    !m & (!m + 1) == 0
  }

  /** Every bit of `m` is a bit of `k`. */
  predicate SubMask(m: Word, k: Word) {
    m & k == m
  }

  /** `x & m` */
  function Masked(x: Word, m: Word): (r: Word) {
    x & m
  }

  /** `m << 1` */
  function Shifted(m: Word): (r: Word) {
    m << 1
  }

  /** `((x ^ y) & m) != 0` */
  predicate Differ(x: Word, y: Word, m: Word) {
    (x ^ y) & m != 0
  }

  /** `~(size - 1)` */
  function SizeMask(size: Word): (m: Word) {
    !(size - 1)
  }

  /** The lowest bit is clear. */
  predicate Even(m: Word) {
    m & 1 == 0
  }

  lemma PageMaskFacts()
    ensures IsMask(TARGET_PAGE_MASK)
    ensures KeepsFlags(TARGET_PAGE_MASK)
    ensures Even(TARGET_PAGE_MASK)
  {
    var b := TARGET_PAGE_BITS;
    if b == 10 {
    } else if b == 11 {
    } else if b == 12 {
    } else if b == 13 {
    } else if b == 14 {
    } else if b == 15 {
    } else {
      assert b == 16;
    }
  }

  lemma ShiftShrinks(m: Word)
    requires IsMask(m)
    ensures IsMask(Shifted(m)) && SubMask(Shifted(m), m)
    ensures m != 0 ==> Shifted(m) < m
  {
  }

  lemma MeetIsMask(m: Word, k: Word)
    requires IsMask(m) && IsMask(k)
    ensures IsMask(Masked(m, k)) && SubMask(Masked(m, k), m) && SubMask(Masked(m, k), k)
  {
  }

  lemma SubMaskTrans(a: Word, b: Word, c: Word)
    requires SubMask(a, b) && SubMask(b, c)
    ensures SubMask(a, c)
  {
  }

  /** Addresses that agree under a mask agree under every smaller one. */
  lemma AgreeBelow(x: Word, y: Word, m: Word, k: Word)
    requires SubMask(k, m) && x & m == y & m
    ensures x & k == y & k
  {
  }

  lemma XorAgrees(x: Word, y: Word, m: Word)
    ensures Differ(x, y, m) <==> Masked(x, m) != Masked(y, m)
  {
    XorMasked(x, y, m);
    XorZero(x & m, y & m);
  }

  lemma XorMasked(x: Word, y: Word, m: Word)
    ensures (x ^ y) & m == (x & m) ^ (y & m)
  {
  }

  lemma XorZero(a: Word, b: Word)
    ensures a ^ b == 0 <==> a == b
  {
  }

  /** A large page: the addresses that agree with `vaddr` under `mask`. */
  datatype LargePage = LargePage(vaddr: Word, mask: Word)

  predicate InPage(p: LargePage, a: Word) {
    a & p.mask == p.vaddr & p.mask
  }

  /** The region that `tlb_flush_addr` and `tlb_flush_mask` describe. */
  predicate InRegion(addr: Word, mask: Word, a: Word) {
    a & mask == addr
  }

  /** The region takes in the large page, or is not empty if there is none. */
  ghost predicate Spans(addr: Word, mask: Word, p: LargePage) {
    SubMask(mask, p.mask) && InRegion(addr, mask, p.vaddr)
  }

  lemma SpansAll(addr: Word, mask: Word, p: LargePage, a: Word)
    requires Spans(addr, mask, p) && InPage(p, a)
    ensures InRegion(addr, mask, a)
  {
    AgreeBelow(a, p.vaddr, p.mask, mask);
  }

  /** Widening the mask and masking the address keeps what the region took in. */
  lemma SpansWider(addr: Word, mask: Word, mask': Word, p: LargePage)
    requires Spans(addr, mask, p) && SubMask(mask', mask)
    ensures Spans(Masked(addr, mask'), mask', p)
  {
    SubMaskTrans(mask', mask, p.mask);
    MaskAgain(p.vaddr, mask, mask');
  }

  lemma SpansNew(addr: Word, mask: Word, p: LargePage)
    requires SubMask(mask, p.mask) && Masked(addr, mask) == Masked(p.vaddr, mask)
    ensures Spans(Masked(addr, mask), mask, p)
  {
  }

  lemma SubMaskSelf(m: Word)
    ensures SubMask(m, m)
  {
  }

  lemma MaskAgain(x: Word, m: Word, k: Word)
    requires SubMask(k, m)
    ensures (x & m) & k == x & k
  {
  }

  datatype Entry = Entry(read: Word, write: Word, code: Word)

  const EMPTY: Entry := Entry(ALL_ONES, ALL_ONES, ALL_ONES)

  /** `x & (TARGET_PAGE_MASK | TLB_INVALID_MASK)` */
  function Tag(x: Word): (r: Word) {
    TagUnder(x, TARGET_PAGE_MASK)
  }

  function TagUnder(x: Word, m: Word): (r: Word) {
    x & (m | TLB_INVALID_MASK)
  }

  /** The mask leaves the flag bits of a TLB address alone. */
  predicate KeepsFlags(m: Word) {
    m & (TLB_INVALID_MASK | TLB_NOTDIRTY | TLB_MMIO) == 0
  }

  /** The entry translates the page at `page` for some kind of access. */
  predicate Translates(e: Entry, page: Word) {
    page == Tag(e.read) || page == Tag(e.write) || page == Tag(e.code)
  }

  predicate IsPage(a: Word) {
    SubMask(a, TARGET_PAGE_MASK)
  }

  lemma EmptyTranslatesNothing(page: Word)
    requires IsPage(page)
    ensures !Translates(EMPTY, page)
  {
    PageMaskFacts();
    TagOfOnes(page, TARGET_PAGE_MASK);
  }

  lemma TagOfOnes(page: Word, m: Word)
    requires SubMask(page, m) && KeepsFlags(m)
    ensures TagUnder(ALL_ONES, m) != page
  {
  }

  lemma TagOf(page: Word, flags: Word, m: Word)
    requires SubMask(page, m) && KeepsFlags(m) && SubMask(flags, TLB_NOTDIRTY | TLB_MMIO)
    ensures TagUnder(WithFlags(page, flags), m) == page
  {
  }

  /** `(addr >> TARGET_PAGE_BITS) & (CPU_TLB_SIZE - 1)`; the size is a power of two. */
  function TlbIndex(a: Word): (i: nat)
    ensures i < CPU_TLB_SIZE
  {
    Remainder((a >> TARGET_PAGE_BITS) as int, CPU_TLB_SIZE)
  }

  function Remainder(x: nat, s: Positive): (r: nat)
    ensures r < s
  {
    x % s
  }

  /** Whether a kind of access is allowed, and with which flag bits. */
  datatype Permit = Deny | Allow(flags: Word)

  datatype Access = Access(read: Permit, write: Permit, code: Permit)

  function Stored(page: Word, flags: Permit): (r: Word) {
    if flags.Allow? then WithFlags(page, flags.flags) else ALL_ONES
  }

  function NewEntry(page: Word, a: Access): (e: Entry) {
    Entry(Stored(page, a.read), Stored(page, a.write), Stored(page, a.code))
  }

  /** Flags are `TLB_NOTDIRTY` and `TLB_MMIO` bits only. */
  predicate FlagOk(f: Permit) {
    f.Allow? ==> SubMask(f.flags, TLB_NOTDIRTY | TLB_MMIO)
  }

  function WithFlags(page: Word, flags: Word): (r: Word) {
    page | flags
  }

  predicate FlagsOk(a: Access) {
    FlagOk(a.read) && FlagOk(a.write) && FlagOk(a.code)
  }

  /** Some kind of access is allowed. */
  predicate AllowsAny(a: Access) {
    a.read.Allow? || a.write.Allow? || a.code.Allow?
  }

  /** A new entry translates its own page, if it allows any access, and no other. */
  lemma NewEntryTranslates(vaddr: Word, a: Access)
    requires IsPage(vaddr) && FlagsOk(a)
    ensures forall page | IsPage(page) ::
              Translates(NewEntry(vaddr, a), page) <==> page == vaddr && AllowsAny(a)
  {
    hide Tag, Stored, IsPage, FlagOk;
    forall page | IsPage(page)
      ensures Translates(NewEntry(vaddr, a), page) <==> page == vaddr && AllowsAny(a)
    {
      StoredTag(vaddr, a.read, page);
      StoredTag(vaddr, a.write, page);
      StoredTag(vaddr, a.code, page);
    }
  }

  lemma StoredTag(vaddr: Word, f: Permit, page: Word)
    requires IsPage(vaddr) && IsPage(page) && FlagOk(f)
    ensures page == Tag(Stored(vaddr, f)) <==> f.Allow? && page == vaddr
  {
    PageMaskFacts();
    StoredUnder(vaddr, f, page, TARGET_PAGE_MASK);
  }

  lemma StoredUnder(vaddr: Word, f: Permit, page: Word, m: Word)
    requires SubMask(vaddr, m) && SubMask(page, m) && FlagOk(f) && KeepsFlags(m)
    ensures page == TagUnder(Stored(vaddr, f), m) <==> f.Allow? && page == vaddr
  {
    hide SubMask, KeepsFlags, TagUnder, WithFlags;
    if f.Allow? {
      TagOf(vaddr, f.flags, m);
    } else {
      TagOfOnes(page, m);
    }
  }

  class CpuTlb {
    const table: array2<Entry>
    const victim: array2<Entry>
    var vtlbIndex: nat
    var flushAddr: Word
    var flushMask: Word
    ghost var larges: set<LargePage>

    ghost predicate Shaped()
    {
      && table.Length0 == victim.Length0 == NB_MMU_MODES
      && table.Length1 == CPU_TLB_SIZE && victim.Length1 == CPU_VTLB_SIZE
      && table != victim
    }

    /** The region spans every large page since the last full flush. */
    ghost predicate RegionOk()
      reads this
    {
      && IsMask(flushMask)
      && (if flushAddr == ALL_ONES then larges == {} && flushMask == 0 else Even(flushMask))
      && forall p | p in larges :: Spans(flushAddr, flushMask, p)
    }

    /** Main entries sit at the index of the page they translate. */
    ghost predicate Indexed()
      reads this, table
      requires Shaped()
    {
      forall m, i, page: Word | 0 <= m < NB_MMU_MODES && 0 <= i < CPU_TLB_SIZE && IsPage(page)
           && Translates(table[m, i], page) :: TlbIndex(page) == i
    }

    ghost predicate Valid()
      reads this, table
    {
      Shaped() && RegionOk() && Indexed()
    }

    /** No entry, main or victim, translates the page. */
    ghost predicate Untranslated(page: Word)
      reads table, victim
      requires Shaped()
    {
      && (forall m, i | 0 <= m < NB_MMU_MODES && 0 <= i < CPU_TLB_SIZE :: !Translates(table[m, i], page))
      && (forall m, k | 0 <= m < NB_MMU_MODES && 0 <= k < CPU_VTLB_SIZE :: !Translates(victim[m, k], page))
    }

    constructor ()
      ensures Valid() && larges == {} && fresh(table) && fresh(victim)
      ensures forall page | IsPage(page) :: Untranslated(page)
    {
      table := new Entry[NB_MMU_MODES, CPU_TLB_SIZE]((m, i) => EMPTY);
      victim := new Entry[NB_MMU_MODES, CPU_VTLB_SIZE]((m, i) => EMPTY);
      vtlbIndex, flushAddr, flushMask, larges := 0, ALL_ONES, 0, {};
      new;
      NoMask();
      EmptyIsUntranslated();
    }

    /** `tlb_flush` */
    method Flush()
      requires Shaped()
      modifies this, table, victim
      ensures Valid() && larges == {} && flushAddr == ALL_ONES && flushMask == 0 && vtlbIndex == 0
      ensures forall m, i | 0 <= m < NB_MMU_MODES && 0 <= i < CPU_TLB_SIZE :: table[m, i] == EMPTY
      ensures forall m, k | 0 <= m < NB_MMU_MODES && 0 <= k < CPU_VTLB_SIZE :: victim[m, k] == EMPTY
    {
      hide Translates, IsPage;
      forall m, i | 0 <= m < NB_MMU_MODES && 0 <= i < CPU_TLB_SIZE {
        table[m, i] := EMPTY;
      }
      forall m, k | 0 <= m < NB_MMU_MODES && 0 <= k < CPU_VTLB_SIZE {
        victim[m, k] := EMPTY;
      }
      vtlbIndex, flushAddr, flushMask, larges := 0, ALL_ONES, 0, {};
      NoMask();
      EmptyIsUntranslated();
    }

    /** `tlb_add_large_page`; `size` is a power of two. */
    method AddLargePage(vaddr: Word, size: Word)
      requires RegionOk() && IsMask(SizeMask(size)) && Even(SizeMask(size))
      modifies this`flushAddr, this`flushMask, this`larges
      ensures RegionOk() && flushAddr != ALL_ONES
      ensures larges == old(larges) + {LargePage(vaddr, SizeMask(size))}
      ensures SubMask(flushMask, SizeMask(size))
      ensures old(flushAddr) == ALL_ONES ==> flushMask == SizeMask(size)
      ensures old(flushAddr) != ALL_ONES ==> SubMask(flushMask, old(flushMask))
    {
      hide IsMask, SubMask, Spans, Masked, Even, SizeMask;
      var mask := SizeMask(size);
      ghost var page := LargePage(vaddr, mask);
      if flushAddr == ALL_ONES {
        SubMaskSelf(mask);
      } else {
        mask := Widen(flushAddr, vaddr, mask, flushMask);
        SubLow(mask, flushMask);
        forall p | p in larges
          ensures Spans(Masked(flushAddr, mask), mask, p)
        {
          SpansWider(flushAddr, flushMask, mask, p);
        }
      }
      var base := if flushAddr == ALL_ONES then vaddr else flushAddr;
      SpansNew(base, mask, page);
      LowBitClear(base, mask);
      flushAddr := Masked(base, mask);
      flushMask := mask;
      larges := larges + {page};
    }

    /** The main-table half of `tlb_flush_page`. */
    method FlushMain(page: Word)
      requires Valid() && IsPage(page)
      modifies table
      ensures Valid()
      ensures forall m, i | 0 <= m < NB_MMU_MODES && 0 <= i < CPU_TLB_SIZE ::
                table[m, i] == if old(Translates(table[m, i], page)) then EMPTY else old(table[m, i])
      ensures forall m, i | 0 <= m < NB_MMU_MODES && 0 <= i < CPU_TLB_SIZE :: !Translates(table[m, i], page)
    {
      hide Translates, IsPage, TlbIndex, IsMask, Spans, Even;
      var i := TlbIndex(page);
      EmptyIsUntranslated();
      var m := 0;
      while m < NB_MMU_MODES
        invariant m <= NB_MMU_MODES
        invariant forall x, y | 0 <= x < NB_MMU_MODES && 0 <= y < CPU_TLB_SIZE ::
                    table[x, y] == if x < m && y == i && old(Translates(table[x, y], page)) then EMPTY
                                   else old(table[x, y])
      {
        FlushEntry(table, m, i, page);
        m := m + 1;
      }
    }

    /** The victim-table half of `tlb_flush_page`. */
    method FlushVictims(page: Word)
      requires Shaped() && IsPage(page)
      modifies victim
      ensures forall m, k | 0 <= m < NB_MMU_MODES && 0 <= k < CPU_VTLB_SIZE ::
                victim[m, k] == if old(Translates(victim[m, k], page)) then EMPTY else old(victim[m, k])
      ensures forall m, k | 0 <= m < NB_MMU_MODES && 0 <= k < CPU_VTLB_SIZE :: !Translates(victim[m, k], page)
    {
      hide Translates, IsPage;
      EmptyIsUntranslated();
      var m := 0;
      while m < NB_MMU_MODES
        invariant m <= NB_MMU_MODES
        invariant forall x, y | 0 <= x < NB_MMU_MODES && 0 <= y < CPU_VTLB_SIZE ::
                    victim[x, y] == if x < m && old(Translates(victim[x, y], page)) then EMPTY else old(victim[x, y])
      {
        var k := 0;
        while k < CPU_VTLB_SIZE
          invariant k <= CPU_VTLB_SIZE
          invariant forall x, y | 0 <= x < NB_MMU_MODES && 0 <= y < CPU_VTLB_SIZE ::
                      victim[x, y] == if (x < m || (x == m && y < k)) && old(Translates(victim[x, y], page)) then EMPTY
                                      else old(victim[x, y])
        {
          FlushEntry(victim, m, k, page);
          k := k + 1;
        }
        m := m + 1;
      }
    }

    /** `tlb_flush_page`: afterwards nothing translates the page of `addr`, nor any
        page of a large page that holds `addr`. */
    method FlushPage(addr: Word)
      requires Valid()
      modifies this, table, victim
      ensures Valid()
      ensures Untranslated(Masked(addr, TARGET_PAGE_MASK))
      ensures forall p, page | p in old(larges) && InPage(p, addr) && InPage(p, page) && IsPage(page) ::
                Untranslated(page)
      ensures InRegion(old(flushAddr), old(flushMask), addr) ==> larges == {} && flushAddr == ALL_ONES
      ensures !InRegion(old(flushAddr), old(flushMask), addr) ==>
                && larges == old(larges) && flushAddr == old(flushAddr) && flushMask == old(flushMask)
                && (forall m, i | 0 <= m < NB_MMU_MODES && 0 <= i < CPU_TLB_SIZE && table[m, i] != old(table[m, i]) ::
                      old(Translates(table[m, i], Masked(addr, TARGET_PAGE_MASK))))
                && (forall m, k | 0 <= m < NB_MMU_MODES && 0 <= k < CPU_VTLB_SIZE
                      && victim[m, k] != old(victim[m, k]) ::
                      old(Translates(victim[m, k], Masked(addr, TARGET_PAGE_MASK))))
    {
      hide Translates, IsPage, TlbIndex, IsMask, Spans, Even, InPage, InRegion, Masked;
      EmptyIsUntranslated();
      PageOfIsPage(addr);
      if InRegion(flushAddr, flushMask, addr) {
        Flush();
        return;
      }
      forall p | p in larges
        ensures !InPage(p, addr)
      {
        OutOfRegion(flushAddr, flushMask, p, addr);
      }
      var page := Masked(addr, TARGET_PAGE_MASK);
      FlushMain(page);
      FlushVictims(page);
    }

    /** `tlb_set_page`: enters the page `vaddr` for the accesses allowed, moves the
        entry in its place to the victim table, and remembers large pages. */
    method SetPage(vaddr: Word, access: Access, mmu: nat, size: Word)
      requires Valid() && mmu < NB_MMU_MODES && IsPage(vaddr) && FlagsOk(access)
      requires IsMask(SizeMask(size)) && SubMask(SizeMask(size), TARGET_PAGE_MASK)
      modifies this, table, victim
      ensures Valid()
      ensures larges == old(larges)
                        + if SizeMask(size) == TARGET_PAGE_MASK then {} else {LargePage(vaddr, SizeMask(size))}
      ensures table[mmu, TlbIndex(vaddr)] == NewEntry(vaddr, access)
      ensures Translates(table[mmu, TlbIndex(vaddr)], vaddr) <==> AllowsAny(access)
      ensures victim[mmu, old(vtlbIndex) % CPU_VTLB_SIZE] == old(table[mmu, TlbIndex(vaddr)])
      ensures vtlbIndex == old(vtlbIndex) + 1
      ensures forall m, i | 0 <= m < NB_MMU_MODES && 0 <= i < CPU_TLB_SIZE && (m, i) != (mmu, TlbIndex(vaddr)) ::
                table[m, i] == old(table[m, i])
      ensures forall m, k | 0 <= m < NB_MMU_MODES && 0 <= k < CPU_VTLB_SIZE
                && (m, k) != (mmu, old(vtlbIndex) % CPU_VTLB_SIZE) ::
                victim[m, k] == old(victim[m, k])
    {
      hide Translates, IsPage, TlbIndex, IsMask, SubMask, Spans, Even, SizeMask, FlagsOk, NewEntry;
      PageMaskFacts();
      SubLow(SizeMask(size), TARGET_PAGE_MASK);
      NewEntryTranslates(vaddr, access);
      var vidx := Remainder(vtlbIndex, CPU_VTLB_SIZE);
      vtlbIndex := vtlbIndex + 1;
      if SizeMask(size) != TARGET_PAGE_MASK {
        AddLargePage(vaddr, size);
      }
      var index := TlbIndex(vaddr);
      victim[mmu, vidx] := table[mmu, index];
      table[mmu, index] := NewEntry(vaddr, access);
    }
  }

  lemma NoMask()
    ensures IsMask(0)
  {
  }

  lemma EmptyIsUntranslated()
    ensures forall page | IsPage(page) :: !Translates(EMPTY, page)
  {
    forall page | IsPage(page)
      ensures !Translates(EMPTY, page)
    {
      EmptyTranslatesNothing(page);
    }
  }

  /** `tlb_flush_entry` */
  method FlushEntry(t: array2<Entry>, m: nat, k: nat, page: Word)
    requires m < t.Length0 && k < t.Length1 && IsPage(page)
    modifies t
    ensures t[m, k] == if old(Translates(t[m, k], page)) then EMPTY else old(t[m, k])
    ensures !Translates(t[m, k], page)
    ensures forall x, y | 0 <= x < t.Length0 && 0 <= y < t.Length1 && (x, y) != (m, k) :: t[x, y] == old(t[x, y])
  {
    hide Translates, IsPage;
    EmptyTranslatesNothing(page);
    if Translates(t[m, k], page) {
      t[m, k] := EMPTY;
    }
  }

  /** The mask-widening loop of `tlb_add_large_page`: the largest mask below both
      arguments, short of a shift, under which the two addresses agree. */
  method Widen(addr: Word, vaddr: Word, mask: Word, oldMask: Word) returns (m: Word)
    requires IsMask(mask) && IsMask(oldMask)
    ensures IsMask(m) && SubMask(m, mask) && SubMask(m, oldMask)
    ensures Masked(addr, m) == Masked(vaddr, m)
    ensures m == Masked(mask, oldMask) || exists k :: m == Shifted(k) && Differ(addr, vaddr, k)
  {
    hide IsMask, SubMask, Masked, Shifted, Differ;
    MeetIsMask(mask, oldMask);
    m := Masked(mask, oldMask);
    while Differ(addr, vaddr, m)
      invariant IsMask(m) && SubMask(m, mask) && SubMask(m, oldMask)
      invariant m == Masked(mask, oldMask) || exists k :: m == Shifted(k) && Differ(addr, vaddr, k)
      decreases m
    {
      ShiftShrinks(m);
      SubMaskTrans(Shifted(m), m, mask);
      SubMaskTrans(Shifted(m), m, oldMask);
      DifferNonzero(addr, vaddr, m);
      m := Shifted(m);
    }
    XorAgrees(addr, vaddr, m);
  }

  lemma LowBitClear(x: Word, m: Word)
    requires Even(m)
    ensures Masked(x, m) != ALL_ONES
  {
  }

  lemma SubLow(m: Word, k: Word)
    requires SubMask(m, k) && Even(k)
    ensures Even(m)
  {
  }

  lemma DifferNonzero(x: Word, y: Word, m: Word)
    requires Differ(x, y, m)
    ensures m != 0
  {
  }

  lemma PageOfIsPage(addr: Word)
    ensures IsPage(Masked(addr, TARGET_PAGE_MASK))
  {
    MaskTwice(addr, TARGET_PAGE_MASK);
  }

  lemma MaskTwice(x: Word, m: Word)
    ensures (x & m) & m == x & m
  {
  }

  lemma OutOfRegion(addr: Word, mask: Word, p: LargePage, a: Word)
    requires Spans(addr, mask, p) && !InRegion(addr, mask, a)
    ensures !InPage(p, a)
  {
    if InPage(p, a) {
      SpansAll(addr, mask, p, a);
    }
  }
}
