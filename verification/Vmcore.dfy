/** The memory part of an ELF vmcore (dump.c): two independent walks over the
    guest's memory blocks, one that writes the bytes and one that computes file
    offsets for the program headers, must agree. */
module Vmcore {
  import opened Basics
  import opened Pages

  /** A `GuestPhysBlock`: guest-physical start and the bytes behind it. */
  datatype Block = Block(start: nat, data: seq<byte>)

  function End(b: Block): (r: nat) {
    b.start + |b.data|
  }

  /** `has_filter`, `begin`, `length` */
  datatype Filter = NoFilter | Range(begin: nat, length: nat)

  /** The block lies outside the filter's range. */
  predicate Skipped(f: Filter, b: Block) {
    f.Range? && (b.start >= f.begin + f.length || End(b) <= f.begin)
  }

  /** First and past-the-last address of the block that are dumped. */
  function Lo(f: Filter, b: Block): (r: nat) {
    if f.Range? && f.begin > b.start then f.begin else b.start
  }

  function Hi(f: Filter, b: Block): (r: nat) {
    if f.Range? && f.begin + f.length < End(b) then f.begin + f.length else End(b)
  }

  /** The dumped bytes of a block. */
  function Slice(f: Filter, b: Block): (r: seq<byte>) {
    if Skipped(f, b) then [] else b.data[Lo(f, b) - b.start..Hi(f, b) - b.start]
  }

  /** The memory part of the file. */
  function Image(f: Filter, blocks: seq<Block>): (r: seq<byte>) {
    if blocks == [] then [] else Image(f, blocks[..|blocks| - 1]) + Slice(f, blocks[|blocks| - 1])
  }

  lemma ImageStep(f: Filter, blocks: seq<Block>, i: nat)
    requires i < |blocks|
    ensures Image(f, blocks[..i + 1]) == Image(f, blocks[..i]) + Slice(f, blocks[i])
  {
    assert blocks[..i + 1][..i] == blocks[..i];
  }

  lemma {:induction false} ImagePrefix(f: Filter, blocks: seq<Block>, i: nat)
    requires i <= |blocks|
    ensures Image(f, blocks[..i]) <= Image(f, blocks)
    decreases |blocks| - i
  {
    if i < |blocks| {
      ImageStep(f, blocks, i);
      ImagePrefix(f, blocks, i + 1);
    } else {
      assert blocks[..i] == blocks;
    }
  }

  lemma {:induction false} SkippedAddNothing(f: Filter, blocks: seq<Block>, i: nat, j: nat)
    requires i <= j <= |blocks| && forall k | i <= k < j :: Skipped(f, blocks[k])
    ensures Image(f, blocks[..j]) == Image(f, blocks[..i])
    decreases j
  {
    hide Image, Slice;
    if i < j {
      ImageStep(f, blocks, j - 1);
      SkippedIsEmpty(f, blocks[j - 1]);
      SkippedAddNothing(f, blocks, i, j - 1);
    }
  }

  /** The guest byte at `addr` is `v`. */
  ghost predicate GuestByte(blocks: seq<Block>, addr: nat, v: byte) {
    exists i :: 0 <= i < |blocks| && blocks[i].start <= addr < End(blocks[i])
                && blocks[i].data[addr - blocks[i].start] == v
  }

  /** The image has the `size` guest bytes from `addr` on at position `at`. */
  ghost predicate StoredAt(f: Filter, blocks: seq<Block>, at: nat, addr: nat, size: nat) {
    HasBytes(blocks, Image(f, blocks), at, addr, size)
  }

  ghost predicate HasBytes(blocks: seq<Block>, out: seq<byte>, at: nat, addr: nat, size: nat) {
    forall a | addr <= a < addr + size :: HasByte(blocks, out, at, addr, a)
  }

  /** With `addr` at position `at`, the position of address `a` has its guest byte. */
  ghost predicate HasByte(blocks: seq<Block>, out: seq<byte>, at: nat, addr: nat, a: nat)
    requires addr <= a
  {
    at + (a - addr) < |out| && GuestByte(blocks, a, out[at + (a - addr)])
  }

  /** `addr` is dumped as part of block `b`. */
  predicate Dumped(f: Filter, b: Block, addr: nat) {
    !Skipped(f, b) && Lo(f, b) <= addr < Hi(f, b)
  }

  /** `out` is `out0` and bytes `a` to `b` of `s`. */
  ghost predicate Copied(out0: seq<byte>, out: seq<byte>, s: seq<byte>, a: nat, b: nat) {
    a <= b <= |s| && out == out0 + s[a..b]
  }

  lemma CopiedNone(out: seq<byte>, s: seq<byte>, a: nat)
    requires a <= |s|
    ensures Copied(out, out, s, a, a)
  {
  }

  lemma CopiedAll(out0: seq<byte>, out: seq<byte>, s: seq<byte>, a: nat, b: nat)
    requires Copied(out0, out, s, a, b)
    ensures out == out0 + s[a..b]
  {
  }

  lemma CopiedMore(out0: seq<byte>, out: seq<byte>, s: seq<byte>, a: nat, b: nat, c: nat)
    requires Copied(out0, out, s, a, b) && b <= c <= |s|
    ensures Copied(out0, out + s[b..c], s, a, c)
  {
    assert s[a..c] == s[a..b] + s[b..c];
  }

  class DumpState {
    const blocks: seq<Block>
    const filter: Filter
    const memoryOffset: nat
    var nextBlock: nat
    var start: nat
    var out: seq<byte>   // what was written from memoryOffset on

    /** `nextBlock` is the first block at or behind `i` to dump, `start` its first
        byte to dump. */
    ghost predicate AtNext(i: nat)
      reads this
    {
      && i <= nextBlock < |blocks| && !Skipped(filter, blocks[nextBlock])
      && start == Lo(filter, blocks[nextBlock]) - blocks[nextBlock].start
      && forall k | i <= k < nextBlock :: Skipped(filter, blocks[k])
    }

    constructor (blocks: seq<Block>, filter: Filter, memoryOffset: nat)
      ensures this.blocks == blocks && this.filter == filter && this.memoryOffset == memoryOffset && out == []
    {
      this.blocks, this.filter, this.memoryOffset := blocks, filter, memoryOffset;
      nextBlock, start, out := 0, 0, [];
    }

    /** `get_start_block`; `false` is the -1 that makes `dump_init` fail. Without a
        filter an empty list succeeds, with no block to start from. */
    method GetStartBlock() returns (ok: bool)
      modifies this`nextBlock, this`start
      ensures ok && blocks != [] ==> AtNext(0)
      ensures !ok <==> filter.Range? && forall k | 0 <= k < |blocks| :: Skipped(filter, blocks[k])
      ensures ok && blocks == [] ==> nextBlock == |blocks|
    {
      if filter.NoFilter? {
        nextBlock, start := 0, 0;
        assert blocks != [] ==> !Skipped(filter, blocks[0]);
        return true;
      }
      var i := 0;
      while i < |blocks|
        invariant i <= |blocks| && forall k | 0 <= k < i :: Skipped(filter, blocks[k])
      {
        if Skipped(filter, blocks[i]) {
          i := i + 1;
          continue;
        }
        nextBlock := i;
        if filter.begin > blocks[i].start {
          start := filter.begin - blocks[i].start;
        } else {
          start := 0;
        }
        return true;
      }
      return false;
    }

    /** `get_next_block`: `true` if there is no more block. */
    method GetNextBlock(block: nat) returns (done: bool)
      requires block < |blocks|
      modifies this`nextBlock, this`start
      ensures done <==> forall k | block < k < |blocks| :: Skipped(filter, blocks[k])
      ensures !done ==> AtNext(block + 1)
    {
      var i := block;
      while true
        invariant block <= i < |blocks| && forall k | block < k <= i :: Skipped(filter, blocks[k])
        decreases |blocks| - i
      {
        i := i + 1;
        if i == |blocks| {
          return true;
        }
        start, nextBlock := 0, i;
        if filter.Range? {
          if Skipped(filter, blocks[i]) {
            continue;
          }
          if filter.begin > blocks[i].start {
            start := filter.begin - blocks[i].start;
          }
        }
        return false;
      }
    }

    /** `write_memory`: one page per write. */
    method WriteMemory(block: nat, from: nat, size: nat)
      requires block < |blocks| && from + size <= |blocks[block].data|
      modifies this`out
      ensures out == old(out) + blocks[block].data[from..from + size]
    {
      hide Pow2, PageBase, PageOf, Copied;
      var data := blocks[block].data;
      CopiedNone(out, data, from);
      var pages := PageOf(size);
      AddrParts(size);
      PageBaseNext(0);
      var i := 0;
      while i < pages
        invariant i <= pages && PageBase(i) <= size
        invariant Copied(old(out), out, data, from, from + PageBase(i))
      {
        PageBaseNext(i);
        if i + 1 < pages {
          PageBaseMono(i + 1, pages);
        }
        CopiedMore(old(out), out, data, from, from + PageBase(i), from + PageBase(i + 1));
        out := out + data[from + PageBase(i)..from + PageBase(i + 1)];
        i := i + 1;
      }
      if size % PAGE_SIZE != 0 {
        CopiedMore(old(out), out, data, from, from + PageBase(i), from + size);
        out := out + data[from + PageBase(i)..from + PageBase(i) + size % PAGE_SIZE];
      }
      CopiedAll(old(out), out, data, from, from + size);
    }

    /** `dump_iterate`: writes exactly the image. */
    method DumpIterate()
      requires AtNext(0)
      modifies this
      ensures out == old(out) + Image(filter, blocks)
    {
      hide Image, Slice, Wrote;
      StartOfImage(out, filter, blocks, nextBlock);
      var done := false;
      ghost var i: nat := 0;
      while !done
        invariant !done ==> AtNext(i) && Wrote(old(out), out, filter, blocks, nextBlock)
        invariant done ==> Wrote(old(out), out, filter, blocks, |blocks|)
        invariant i <= |blocks|
        decreases !done, |blocks| - i
      {
        var block := nextBlock;
        var b := blocks[block];
        ghost var before := out;
        var size := |b.data|;
        if filter.Range? {
          size := size - start;
          if filter.begin + filter.length < End(b) {
            size := size - (End(b) - (filter.begin + filter.length));
          }
        }
        SliceIs(filter, b);
        WriteMemory(block, start, size);
        i := block + 1;
        done := GetNextBlock(block);
        WroteStep(old(out), before, filter, blocks, block, if done then |blocks| else nextBlock);
      }
      WroteAll(old(out), out, filter, blocks);
    }

    /** `get_offset_range`: where in the file the bytes from `addr` on are, and how
        many of them; `None` is the offset -1 for memory that is not stored. */
    method GetOffsetRange(addr: nat, mappingLength: nat) returns (r: Option<(nat, nat)>)
      ensures r.None? <==> forall i | 0 <= i < |blocks| :: !Dumped(filter, blocks[i], addr)
      ensures r.Some? ==>
                var (offset, size) := r.value;
                && size <= mappingLength && memoryOffset <= offset
                && StoredAt(filter, blocks, offset - memoryOffset, addr, size)
                && exists i :: 0 <= i < |blocks| && Dumped(filter, blocks[i], addr)
                               && size == Min(mappingLength, Hi(filter, blocks[i]) - addr)
    {
      hide Image, GuestByte, Slice, StoredAt;
      if filter.Range? && (addr < filter.begin || addr >= filter.begin + filter.length) {
        return None;
      }
      NothingYet(filter, blocks);
      var offset := memoryOffset;
      var i := 0;
      while i < |blocks|
        invariant i <= |blocks| && offset == memoryOffset + |Image(filter, blocks[..i])|
        invariant forall k | 0 <= k < i :: !Dumped(filter, blocks[k], addr)
      {
        var b := blocks[i];
        ImageStep(filter, blocks, i);
        SliceLength(filter, b);
        SkippedIsEmpty(filter, b);
        if !Skipped(filter, b) {
          var from := Lo(filter, b);
          var sizeInBlock := Hi(filter, b) - from;
          if from <= addr < from + sizeInBlock {
            var size := if addr + mappingLength <= from + sizeInBlock then mappingLength
                        else sizeInBlock - (addr - from);
            SliceInImage(filter, blocks, i, addr, size);
            assert Dumped(filter, blocks[i], addr) && size == Min(mappingLength, Hi(filter, blocks[i]) - addr);
            return Some((addr - from + offset, size));
          }
          offset := offset + sizeInBlock;
        }
        i := i + 1;
      }
      return None;
    }
  }

  /** The two walks agree: what `dump_iterate` writes has, at the offset that a
      program header for `addr` names, the guest's bytes from `addr` on. */
  method SegmentReadsBack(blocks: seq<Block>, filter: Filter, memoryOffset: nat, addr: nat, mappingLength: nat)
    returns (ok: bool, out: seq<byte>, r: Option<(nat, nat)>)
    requires blocks == [] ==> filter.Range?
    ensures !ok <==> filter.Range? && forall k | 0 <= k < |blocks| :: Skipped(filter, blocks[k])
    ensures r.None? <==> forall i | 0 <= i < |blocks| :: !Dumped(filter, blocks[i], addr)
    ensures ok && r.Some? ==>
              var (offset, size) := r.value;
              && memoryOffset <= offset && size <= mappingLength
              && HasBytes(blocks, out, offset - memoryOffset, addr, size)
  {
    hide Image, GuestByte;
    var s := new DumpState(blocks, filter, memoryOffset);
    ok := s.GetStartBlock();
    if ok {
      s.DumpIterate();
    }
    out := s.out;
    r := s.GetOffsetRange(addr, mappingLength);
    assert ok ==> out == Image(filter, blocks);
  }

  /** `out` is `out0` and the image of the first `i` blocks. */
  ghost predicate Wrote(out0: seq<byte>, out: seq<byte>, f: Filter, blocks: seq<Block>, i: nat) {
    i <= |blocks| && out == out0 + Image(f, blocks[..i])
  }

  lemma StartOfImage(out: seq<byte>, f: Filter, blocks: seq<Block>, i: nat)
    requires i <= |blocks| && forall k | 0 <= k < i :: Skipped(f, blocks[k])
    ensures Wrote(out, out, f, blocks, i)
  {
    hide Image, Slice;
    SkippedAddNothing(f, blocks, 0, i);
    NothingYet(f, blocks);
  }

  lemma WroteStep(out0: seq<byte>, out: seq<byte>, f: Filter, blocks: seq<Block>, i: nat, j: nat)
    requires i < j <= |blocks| && Wrote(out0, out, f, blocks, i) && forall k | i < k < j :: Skipped(f, blocks[k])
    ensures Wrote(out0, out + Slice(f, blocks[i]), f, blocks, j)
  {
    hide Image, Slice;
    ImageStep(f, blocks, i);
    SkippedAddNothing(f, blocks, i + 1, j);
  }

  lemma WroteAll(out0: seq<byte>, out: seq<byte>, f: Filter, blocks: seq<Block>)
    requires Wrote(out0, out, f, blocks, |blocks|)
    ensures out == out0 + Image(f, blocks)
  {
    hide Image;
    assert blocks[..|blocks|] == blocks;
  }

  /** The dumped bytes of block `i` sit in the image behind those before it. */
  lemma SliceInImage(f: Filter, blocks: seq<Block>, i: nat, addr: nat, size: nat)
    requires i < |blocks| && Dumped(f, blocks[i], addr) && addr + size <= Hi(f, blocks[i])
    ensures StoredAt(f, blocks, |Image(f, blocks[..i])| + addr - Lo(f, blocks[i]), addr, size)
  {
    hide Image, GuestByte, Slice;
    var at := |Image(f, blocks[..i])| + addr - Lo(f, blocks[i]);
    forall a | addr <= a < addr + size
      ensures HasByte(blocks, Image(f, blocks), at, addr, a)
    {
      ByteInImage(f, blocks, i, a);
    }
  }

  lemma SkippedIsEmpty(f: Filter, b: Block)
    ensures Skipped(f, b) ==> Slice(f, b) == []
  {
  }

  lemma SliceIs(f: Filter, b: Block)
    requires !Skipped(f, b)
    ensures Slice(f, b) == b.data[Lo(f, b) - b.start..Hi(f, b) - b.start]
  {
  }

  lemma NothingYet(f: Filter, blocks: seq<Block>)
    ensures Image(f, blocks[..0]) == []
  {
  }

  lemma SliceLength(f: Filter, b: Block)
    ensures !Skipped(f, b) ==> |Slice(f, b)| == Hi(f, b) - Lo(f, b)
  {
  }

  lemma ByteInImage(f: Filter, blocks: seq<Block>, i: nat, addr: nat)
    requires i < |blocks| && Dumped(f, blocks[i], addr)
    ensures var at := |Image(f, blocks[..i])| + addr - Lo(f, blocks[i]);
            at < |Image(f, blocks)| && GuestByte(blocks, addr, Image(f, blocks)[at])
  {
    hide Image;
    var b := blocks[i];
    var at := |Image(f, blocks[..i])| + addr - Lo(f, b);
    ImageStep(f, blocks, i);
    ImagePrefix(f, blocks, i + 1);
    assert Image(f, blocks)[at] == Image(f, blocks[..i + 1])[at] == Slice(f, b)[addr - Lo(f, b)];
    assert b.data[addr - b.start] == Image(f, blocks)[at];
  }
}
