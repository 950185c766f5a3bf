/** The RAM block list of exec.c: best-fit offsets, a list sorted by size, and a
    most-recently-used shortcut for lookups. */
module RamBlocks {
  import opened Basics
  import opened Pages
  import opened Radix

  /** `UINTPTR_MAX` of a 32-bit or a 64-bit host. */
  type HostMax = m: nat | m == 0xffff_ffff || m == 0xffff_ffff_ffff_ffff witness 0xffff_ffff
  const RAM_ADDR_MAX: HostMax

  datatype RAMBlock = RAMBlock(id: nat, offset: nat, maxLength: nat)

  function End(b: RAMBlock): (r: nat) {
    b.offset + b.maxLength
  }

  predicate PageAligned(x: nat) {
    x % PAGE_SIZE == 0
  }

  ghost predicate BlockOk(b: RAMBlock) {
    && b.maxLength > 0 && End(b) <= RAM_ADDR_MAX
    && PageAligned(b.offset) && PageAligned(b.maxLength)
  }

  ghost predicate Apart(b: RAMBlock, c: RAMBlock) {
    End(b) <= c.offset || End(c) <= b.offset
  }

  ghost predicate Sorted(bs: seq<RAMBlock>) {
    forall i, j | 0 <= i < j < |bs| :: bs[i].maxLength >= bs[j].maxLength
  }

  ghost predicate Sound(bs: seq<RAMBlock>) {
    && (forall i | 0 <= i < |bs| :: BlockOk(bs[i]))
    && (forall i, j | 0 <= i < j < |bs| :: Apart(bs[i], bs[j]))
  }

  ghost predicate Contains(b: RAMBlock, addr: nat) {
    b.offset <= addr < End(b)
  }

  /** `addr - block->offset < block->max_length` on unsigned host words. */
  predicate InBlock(b: RAMBlock, addr: nat) {
    (addr + RAM_ADDR_MAX + 1 - b.offset) % (RAM_ADDR_MAX + 1) < b.maxLength
  }

  lemma InBlockIsContains(b: RAMBlock, addr: nat)
    requires End(b) <= RAM_ADDR_MAX && addr <= RAM_ADDR_MAX
    ensures InBlock(b, addr) <==> Contains(b, addr)
  {
    var m := RAM_ADDR_MAX + 1;
    if addr >= b.offset {
      assert (addr + m - b.offset) % m == addr - b.offset;
    } else {
      assert (addr + m - b.offset) % m == addr + m - b.offset;
    }
  }

  /** The lowest block offset at or above `end`, or the end of the address range. */
  function NextStart(bs: seq<RAMBlock>, end: nat): (r: nat)
    ensures end <= RAM_ADDR_MAX ==> end <= r
    ensures r <= RAM_ADDR_MAX
    ensures forall i | 0 <= i < |bs| && bs[i].offset >= end :: r <= bs[i].offset
  {
    if bs == [] then RAM_ADDR_MAX
    else
      var last := bs[|bs| - 1];
      var rest := NextStart(bs[..|bs| - 1], end);
      if last.offset >= end && last.offset < rest then last.offset else rest
  }

  /** Free bytes behind block `b`. */
  function Gap(bs: seq<RAMBlock>, b: RAMBlock): (r: nat) {
    if End(b) <= RAM_ADDR_MAX then NextStart(bs, End(b)) - End(b) else 0
  }

  /** `offset` starts the smallest gap behind a block that still holds `size` bytes. */
  ghost predicate BestFit(bs: seq<RAMBlock>, size: nat, offset: nat) {
    exists i :: 0 <= i < |bs| && offset == End(bs[i]) && Gap(bs, bs[i]) >= size
                && forall j | 0 <= j < |bs| && Gap(bs, bs[j]) >= size :: Gap(bs, bs[i]) <= Gap(bs, bs[j])
  }

  ghost predicate NoFit(bs: seq<RAMBlock>, size: nat) {
    forall i | 0 <= i < |bs| :: Gap(bs, bs[i]) < size
  }

  lemma {:induction false} NextStartAttained(bs: seq<RAMBlock>, end: nat)
    ensures NextStart(bs, end) == RAM_ADDR_MAX
            || exists i :: 0 <= i < |bs| && end <= bs[i].offset == NextStart(bs, end)
  {
    if bs != [] {
      var front := bs[..|bs| - 1];
      NextStartAttained(front, end);
      if NextStart(bs, end) != RAM_ADDR_MAX {
        var i := |bs| - 1;
        if NextStart(bs, end) != bs[i].offset {
          i :| 0 <= i < |front| && end <= front[i].offset == NextStart(front, end);
        }
        assert end <= bs[i].offset == NextStart(bs, end);
      }
    }
  }

  /** The gap behind a block is the free space up to the next block: no block
      reaches into it, and it cannot be extended. */
  lemma GapIsMaximal(bs: seq<RAMBlock>, k: nat)
    requires Sound(bs) && k < |bs|
    ensures forall i, addr: nat | 0 <= i < |bs| && Contains(bs[i], addr) ::
              !(End(bs[k]) <= addr < End(bs[k]) + Gap(bs, bs[k]))
    ensures End(bs[k]) + Gap(bs, bs[k]) == RAM_ADDR_MAX
            || exists i :: 0 <= i < |bs| && Contains(bs[i], End(bs[k]) + Gap(bs, bs[k]))
  {
    hide NextStart, PageAligned;
    assert BlockOk(bs[k]);
    forall i, addr: nat | 0 <= i < |bs| && Contains(bs[i], addr)
      ensures !(End(bs[k]) <= addr < End(bs[k]) + Gap(bs, bs[k]))
    {
      assert i < k ==> Apart(bs[i], bs[k]);
      assert k < i ==> Apart(bs[k], bs[i]);
    }
    NextStartAttained(bs, End(bs[k]));
    if NextStart(bs, End(bs[k])) != RAM_ADDR_MAX {
      var i :| 0 <= i < |bs| && End(bs[k]) <= bs[i].offset == NextStart(bs, End(bs[k]));
      assert BlockOk(bs[i]);
      assert Contains(bs[i], End(bs[k]) + Gap(bs, bs[k]));
    }
  }

  /** A best-fit block overlaps nothing and stays in range. */
  lemma FitIsApart(bs: seq<RAMBlock>, size: nat, offset: nat, b: RAMBlock)
    requires Sound(bs) && size > 0 && b.offset == offset && b.maxLength == size
    requires BestFit(bs, size, offset)
    ensures End(b) <= RAM_ADDR_MAX
    ensures forall i | 0 <= i < |bs| :: Apart(b, bs[i])
    ensures PageAligned(offset)
  {
    hide PageAligned, Pow2, NextStart;
    var k :| 0 <= k < |bs| && offset == End(bs[k]) && Gap(bs, bs[k]) >= size;
    assert BlockOk(bs[k]);
    SumAligned(bs[k].offset, bs[k].maxLength);
    forall i | 0 <= i < |bs|
      ensures Apart(b, bs[i])
    {
      assert BlockOk(bs[i]);
      assert i < k ==> Apart(bs[i], bs[k]);
      assert k < i ==> Apart(bs[k], bs[i]);
    }
  }

  // ---- Space that the allocator does not see ----

  ghost predicate Free(bs: seq<RAMBlock>, a: nat, size: nat) {
    a + size <= RAM_ADDR_MAX && forall i | 0 <= i < |bs| :: a + size <= bs[i].offset || End(bs[i]) <= a
  }

  ghost predicate SpaceLeft(bs: seq<RAMBlock>, size: nat) {
    exists a :: Free(bs, a, size)
  }

  /** Exactly when some range of the size is free: if a gap behind a block has room,
      which `find_ram_offset` sees, or the gap before the lowest block has, which it
      never looks at. */
  lemma SpaceLeftIff(bs: seq<RAMBlock>, size: nat)
    requires Sound(bs) && bs != [] && size > 0
    ensures SpaceLeft(bs, size) <==> !NoFit(bs, size) || NextStart(bs, 0) >= size
  {
    hide NextStart, PageAligned;
    if SpaceLeft(bs, size) {
      var a :| Free(bs, a, size);
      FreeIsGap(bs, a, size);
    }
    if !NoFit(bs, size) {
      var k :| 0 <= k < |bs| && Gap(bs, bs[k]) >= size;
      GapIsFree(bs, k, size);
    }
    if NextStart(bs, 0) >= size {
      assert Free(bs, 0, size);
    }
  }

  lemma FreeIsGap(bs: seq<RAMBlock>, a: nat, size: nat)
    requires Sound(bs) && size > 0 && Free(bs, a, size)
    ensures !NoFit(bs, size) || NextStart(bs, 0) >= size
  {
    hide NextStart, PageAligned;
    if k :| 0 <= k < |bs| && End(bs[k]) <= a {
      var m := LastBefore(bs, a, k);
      assert BlockOk(bs[m]);
      NextStartAttained(bs, End(bs[m]));
      if i :| 0 <= i < |bs| && End(bs[m]) <= bs[i].offset == NextStart(bs, End(bs[m])) {
        assert BlockOk(bs[i]);
      }
      assert Gap(bs, bs[m]) >= size;
    } else {
      NextStartAttained(bs, 0);
    }
  }

  lemma GapIsFree(bs: seq<RAMBlock>, k: nat, size: nat)
    requires Sound(bs) && k < |bs| && size > 0 && Gap(bs, bs[k]) >= size
    ensures Free(bs, End(bs[k]), size)
  {
    hide NextStart, PageAligned;
    assert BlockOk(bs[k]);
    forall i | 0 <= i < |bs|
      ensures End(bs[k]) + size <= bs[i].offset || End(bs[i]) <= End(bs[k])
    {
      assert BlockOk(bs[i]);
      assert i < k ==> Apart(bs[i], bs[k]);
      assert k < i ==> Apart(bs[k], bs[i]);
    }
  }

  /** Of the blocks that end at or before `a`, the one that ends last. */
  lemma {:induction false} LastBefore(bs: seq<RAMBlock>, a: nat, k: nat) returns (m: nat)
    requires k < |bs| && End(bs[k]) <= a
    ensures m < |bs| && End(bs[m]) <= a && forall i | 0 <= i < |bs| && End(bs[i]) <= a :: End(bs[i]) <= End(bs[m])
    decreases a - End(bs[k])
  {
    m := k;
    if i :| 0 <= i < |bs| && End(bs[k]) < End(bs[i]) <= a {
      m := LastBefore(bs, a, i);
    }
  }

  lemma SumAligned(x: nat, y: nat)
    requires PageAligned(x) && PageAligned(y)
    ensures PageAligned(x + y)
  {
    hide Pow2;
    AddrParts(x);
    AddrParts(y);
    PageBaseAdd(PageOf(x), PageOf(y));
    AddrOnPage(x + y, PageOf(x) + PageOf(y));
  }

  /** Where a block of `size` bytes goes in a list sorted by decreasing size. */
  function Place(bs: seq<RAMBlock>, size: nat): (i: nat)
    ensures i <= |bs|
    ensures forall j | 0 <= j < i :: bs[j].maxLength >= size
    ensures i < |bs| ==> bs[i].maxLength < size
  {
    if bs == [] || bs[0].maxLength < size then 0 else 1 + Place(bs[1..], size)
  }

  function Inserted(bs: seq<RAMBlock>, b: RAMBlock): (r: seq<RAMBlock>)
    ensures |r| == |bs| + 1
  {
    var i := Place(bs, b.maxLength);
    bs[..i] + [b] + bs[i..]
  }

  /** Element `k` of the list with `b` put in at `i` comes from here. */
  function Source(bs: seq<RAMBlock>, b: RAMBlock, i: nat, k: nat): (r: RAMBlock)
    requires i <= |bs| && k <= |bs|
  {
    if k < i then bs[k] else if k == i then b else bs[k - 1]
  }

  lemma InsertedSound(bs: seq<RAMBlock>, b: RAMBlock)
    requires Sound(bs) && Sorted(bs) && BlockOk(b)
    requires forall i | 0 <= i < |bs| :: Apart(b, bs[i])
    ensures Sound(Inserted(bs, b)) && Sorted(Inserted(bs, b))
  {
    hide BlockOk, Place;
    var i := Place(bs, b.maxLength);
    var r := Inserted(bs, b);
    forall k | 0 <= k < |r|
      ensures BlockOk(r[k])
    {
      assert r[k] == Source(bs, b, i, k);
    }
    forall k, m | 0 <= k < m < |r|
      ensures Apart(r[k], r[m]) && r[k].maxLength >= r[m].maxLength
    {
      InsertedPair(bs, b, i, k, m);
      assert r[k] == Source(bs, b, i, k) && r[m] == Source(bs, b, i, m);
    }
  }

  lemma InsertedPair(bs: seq<RAMBlock>, b: RAMBlock, i: nat, k: nat, m: nat)
    requires Sound(bs) && Sorted(bs) && i == Place(bs, b.maxLength) && k < m <= |bs|
    requires forall j | 0 <= j < |bs| :: Apart(b, bs[j])
    ensures Apart(Source(bs, b, i, k), Source(bs, b, i, m))
    ensures Source(bs, b, i, k).maxLength >= Source(bs, b, i, m).maxLength
  {
    hide BlockOk, Place;
    if k == i && i < m - 1 {
      assert bs[i].maxLength >= bs[m - 1].maxLength;
    }
  }

  lemma RemovedSound(bs: seq<RAMBlock>, i: nat)
    requires Sound(bs) && Sorted(bs) && i < |bs|
    ensures Sound(Drop(bs, i)) && Sorted(Drop(bs, i))
  {
    hide BlockOk, Apart;
    var r := Drop(bs, i);
    forall k | 0 <= k < |r|
      ensures BlockOk(r[k])
    {
      assert r[k] == bs[if k < i then k else k + 1];
    }
    forall k, m | 0 <= k < m < |r|
      ensures Apart(r[k], r[m]) && r[k].maxLength >= r[m].maxLength
    {
      assert r[k] == bs[if k < i then k else k + 1] && r[m] == bs[if m < i then m else m + 1];
    }
  }

  /** Two blocks of a sound list never hold the same address. */
  lemma OneHolder(bs: seq<RAMBlock>, i: nat, j: nat, addr: nat)
    requires Sound(bs) && i < |bs| && j < |bs|
    requires Contains(bs[i], addr) && Contains(bs[j], addr)
    ensures i == j
  {
  }

  lemma NewBlockOk(bs: seq<RAMBlock>, b: RAMBlock)
    requires Sound(bs) && 0 < b.maxLength <= RAM_ADDR_MAX && PageAligned(b.maxLength)
    requires if bs == [] then b.offset == 0 else BestFit(bs, b.maxLength, b.offset)
    ensures BlockOk(b) && forall i | 0 <= i < |bs| :: Apart(b, bs[i])
  {
    if bs != [] {
      FitIsApart(bs, b.maxLength, b.offset, b);
    }
  }

  class RAMList {
    var blocks: seq<RAMBlock>
    var mru: Option<RAMBlock>
    var version: nat

    ghost predicate Valid()
      reads this
    {
      Sound(blocks) && Sorted(blocks) && (mru.Some? ==> mru.value in blocks)
    }

    constructor ()
      ensures Valid() && blocks == []
    {
      blocks, mru, version := [], None, 0;
    }

    /** The inner loop of `find_ram_offset`. */
    method FindNextStart(end: nat) returns (next: nat)
      ensures next == NextStart(blocks, end)
    {
      next := RAM_ADDR_MAX;
      var k := 0;
      while k < |blocks|
        invariant k <= |blocks| && next == NextStart(blocks[..k], end)
      {
        assert blocks[..k + 1][..k] == blocks[..k];
        if blocks[k].offset >= end {
          next := if next < blocks[k].offset then next else blocks[k].offset;
        }
        k := k + 1;
      }
      assert blocks[..k] == blocks;
    }

    /** `find_ram_offset`; `None` is the abort for want of a gap. */
    method FindRamOffset(size: nat) returns (r: Option<nat>)
      requires Valid() && 0 < size <= RAM_ADDR_MAX
      ensures blocks == [] ==> r == Some(0)
      ensures blocks != [] && r.Some? ==> BestFit(blocks, size, r.value)
      ensures r.None? <==> blocks != [] && NoFit(blocks, size)
      ensures r.None? ==> (SpaceLeft(blocks, size) <==> NextStart(blocks, 0) >= size)
    {
      hide PageAligned, Pow2, NextStart;
      if blocks == [] {
        return Some(0);
      }
      var offset, mingap := RAM_ADDR_MAX, RAM_ADDR_MAX;
      ghost var best: nat := 0;
      var i := 0;
      while i < |blocks|
        invariant i <= |blocks| && mingap <= RAM_ADDR_MAX
        invariant offset == RAM_ADDR_MAX ==> mingap == RAM_ADDR_MAX && NoFitBefore(blocks, i, size)
        invariant offset != RAM_ADDR_MAX ==>
                    && best < i && offset == End(blocks[best]) && mingap == Gap(blocks, blocks[best]) >= size
                    && forall j | 0 <= j < i && Gap(blocks, blocks[j]) >= size :: mingap <= Gap(blocks, blocks[j])
      {
        assert BlockOk(blocks[i]);
        var end := End(blocks[i]);
        var next := FindNextStart(end);
        if next - end >= size && next - end < mingap {
          offset, mingap := end, next - end;
          best := i;
        }
        i := i + 1;
      }
      if offset == RAM_ADDR_MAX {
        SpaceLeftIff(blocks, size);
        return None;
      }
      return Some(offset);
    }

    /** `ram_block_add` for a block of page-aligned size; `hostOk` tells whether host
        memory could be had. */
    method RamBlockAdd(id: nat, size: nat, hostOk: bool) returns (r: Option<nat>)
      requires Valid() && 0 < size <= RAM_ADDR_MAX && PageAligned(size)
      modifies this
      ensures Valid()
      ensures r.Some? ==> hostOk && blocks == Inserted(old(blocks), RAMBlock(id, r.value, size)) && mru.None?
      ensures r.Some? ==> if old(blocks) == [] then r.value == 0 else BestFit(old(blocks), size, r.value)
      ensures r.None? ==> blocks == old(blocks) && mru == old(mru)
      ensures r.None? <==> !hostOk || (old(blocks) != [] && NoFit(old(blocks), size))
      ensures version == old(version) + if r.Some? then 1 else 0
    {
      hide PageAligned, Pow2, NextStart, BestFit, NoFit, Sound, Sorted;
      var found := FindRamOffset(size);
      if found.None? || !hostOk {
        return None;
      }
      var b := RAMBlock(id, found.value, size);
      NewBlockOk(blocks, b);
      InsertedSound(blocks, b);
      var i := 0;
      while i < |blocks| && !(blocks[i].maxLength < size)
        invariant i <= |blocks| && Place(blocks, size) == i + Place(blocks[i..], size)
      {
        i := i + 1;
      }
      blocks := blocks[..i] + [b] + blocks[i..];
      mru := None;
      version := version + 1;
      return found;
    }

    /** `qemu_ram_free` */
    method RamFree(addr: nat)
      requires Valid()
      modifies this
      ensures Valid()
      ensures (forall i | 0 <= i < |old(blocks)| :: old(blocks)[i].offset != addr) ==>
                blocks == old(blocks) && mru == old(mru) && version == old(version)
      ensures forall i | 0 <= i < |old(blocks)| && old(blocks)[i].offset == addr ::
                blocks == Drop(old(blocks), i) && mru.None? && version == old(version) + 1
    {
      var i := 0;
      while i < |blocks|
        invariant i <= |blocks| && blocks == old(blocks) && mru == old(mru) && version == old(version)
        invariant forall j | 0 <= j < i :: blocks[j].offset != addr
      {
        if blocks[i].offset == addr {
          RemovedSound(blocks, i);
          OnlyOffset(blocks, i, addr);
          blocks := Drop(blocks, i);
          mru := None;
          version := version + 1;
          return;
        }
        i := i + 1;
      }
    }

    /** `qemu_get_ram_block`; `None` is the abort for an address in no block. */
    method GetRamBlock(addr: nat) returns (r: Option<RAMBlock>)
      requires Valid() && addr <= RAM_ADDR_MAX
      modifies this`mru
      ensures Valid()
      ensures r.Some? ==> r.value in blocks && Contains(r.value, addr) && mru == r
      ensures forall i | 0 <= i < |blocks| && Contains(blocks[i], addr) :: r == Some(blocks[i])
      ensures r.None? ==> mru == old(mru)
    {
      if mru.Some? {
        var i :| 0 <= i < |blocks| && blocks[i] == mru.value;
        assert BlockOk(blocks[i]);
        InBlockIsContains(mru.value, addr);
        if InBlock(mru.value, addr) {
          UniqueHolder(blocks, i, addr);
          return mru;
        }
      }
      var i := 0;
      while i < |blocks|
        invariant i <= |blocks| && Valid() && mru == old(mru)
        invariant forall j | 0 <= j < i :: !Contains(blocks[j], addr)
      {
        assert BlockOk(blocks[i]);
        InBlockIsContains(blocks[i], addr);
        if InBlock(blocks[i], addr) {
          UniqueHolder(blocks, i, addr);
          mru := Some(blocks[i]);
          return mru;
        }
        i := i + 1;
      }
      return None;
    }
  }

  ghost predicate NoFitBefore(bs: seq<RAMBlock>, n: nat, size: nat)
    requires n <= |bs|
  {
    forall i | 0 <= i < n :: Gap(bs, bs[i]) < size
  }

  lemma OnlyOffset(bs: seq<RAMBlock>, i: nat, addr: nat)
    requires Sound(bs) && i < |bs| && bs[i].offset == addr
    ensures forall j | 0 <= j < |bs| && bs[j].offset == addr :: j == i
  {
    forall j | 0 <= j < |bs| && bs[j].offset == addr
      ensures j == i
    {
      assert BlockOk(bs[i]) && BlockOk(bs[j]);
      OneHolder(bs, i, j, addr);
    }
  }

  lemma UniqueHolder(bs: seq<RAMBlock>, i: nat, addr: nat)
    requires Sound(bs) && i < |bs| && Contains(bs[i], addr)
    ensures forall j | 0 <= j < |bs| && Contains(bs[j], addr) :: bs[j] == bs[i]
  {
    forall j | 0 <= j < |bs| && Contains(bs[j], addr)
      ensures bs[j] == bs[i]
    {
      OneHolder(bs, i, j, addr);
    }
  }

  lemma RangeAligned()
    ensures 1024 <= PAGE_SIZE <= 65536
    ensures PageAligned(PAGE_SIZE) && PageAligned(RAM_ADDR_MAX + 1 - 2 * PAGE_SIZE)
  {
    PageSizeFacts();
    Pow2ThirtyTwo();
    hide Pow2;
    Pow2Add(TARGET_PAGE_BITS, 64 - TARGET_PAGE_BITS);
    Pow2Add(TARGET_PAGE_BITS, 32 - TARGET_PAGE_BITS);
    var q := if RAM_ADDR_MAX == 0xffff_ffff then Pow2(32 - TARGET_PAGE_BITS) else Pow2(64 - TARGET_PAGE_BITS);
    assert PAGE_SIZE * q == RAM_ADDR_MAX + 1;
    MultipleAligned(q, RAM_ADDR_MAX + 1);
  }

  lemma Pow2ThirtyTwo()
    ensures Pow2(32) == 0x1_0000_0000
  {
    Pow2Powers();
    hide Pow2;
    Pow2Add(16, 16);
  }

  lemma MultipleAligned(q: nat, x: nat)
    requires x == PAGE_SIZE * q && x >= 2 * PAGE_SIZE
    ensures PageAligned(PAGE_SIZE) && PageAligned(x - 2 * PAGE_SIZE)
  {
    hide Pow2;
    DivModUnique(PAGE_SIZE, PAGE_SIZE, 1, 0);
    if q < 2 {
      MulMono(q + 1, 2, PAGE_SIZE);
    }
    Distribute(q - 2, 2, PAGE_SIZE);
    DivModUnique(x - 2 * PAGE_SIZE, PAGE_SIZE, q - 2, 0);
  }

  /** The allocation fails although its first page is free: a page at 0, a block that
      takes all the rest, and the page freed again. */
  method FailsThoughFree() returns (first: Option<nat>, second: Option<nat>, third: Option<nat>, l: RAMList)
    ensures first == Some(0) && second == Some(PAGE_SIZE) && third.None?
    ensures fresh(l) && l.Valid() && Free(l.blocks, 0, PAGE_SIZE)
  {
    hide PageAligned, Pow2, NextStart, Inserted;
    RangeAligned();
    var rest := RAM_ADDR_MAX + 1 - 2 * PAGE_SIZE;
    var low, high := RAMBlock(0, 0, PAGE_SIZE), RAMBlock(1, PAGE_SIZE, rest);
    NextStartOne(low, PAGE_SIZE);
    NextStartOne(high, End(high));
    InsertedOnce(low, high);
    l := new RAMList();
    first := l.RamBlockAdd(0, PAGE_SIZE, true);
    assert l.blocks == [low];
    assert Gap([low], [low][0]) >= rest;
    second := l.RamBlockAdd(1, rest, true);
    assert l.blocks == [high, low];
    l.RamFree(0);
    assert l.blocks == [high] by {
      assert [high, low][1].offset == 0;
      assert Drop([high, low], 1) == [high];
    }
    third := l.FindRamOffset(PAGE_SIZE);
  }

  lemma NextStartOne(b: RAMBlock, end: nat)
    ensures NextStart([b], end) == if b.offset >= end && b.offset < RAM_ADDR_MAX then b.offset else RAM_ADDR_MAX
  {
    assert [b][..0] == [];
  }

  lemma InsertedOnce(a: RAMBlock, b: RAMBlock)
    requires a.maxLength < b.maxLength
    ensures Inserted([], a) == [a] && Inserted([a], b) == [b, a]
  {
  }
}
