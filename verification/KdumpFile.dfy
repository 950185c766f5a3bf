/** The layout of a kdump file (dump.c): header blocks, two copies of the bitmap and
    the page part, written to one file. Header offsets are computed in 32 bits. */
module KdumpFile {
  import opened Files
  import opened GuestPages
  import opened KdumpBitmap
  import opened KdumpPages
  import opened Pages

  const TWO32: Positive := 0x1_0000_0000
  const DISKDUMP_HEADER_BLOCKS: nat := 1

  /** Arithmetic on `uint32_t`. */
  function Word32(x: nat): (r: nat)
    ensures r < TWO32
  {
    x % TWO32
  }

  function BitmapBlocks(len: nat): (r: nat) {
    Word32(DivRoundUp(len, PAGE_SIZE) * 2)
  }

  /** `offset_dump_bitmap`, behind a sub header of `subHdr` blocks. */
  function OffsetDumpBitmap(subHdr: nat): (r: nat) {
    Word32(Word32(DISKDUMP_HEADER_BLOCKS + subHdr) * PAGE_SIZE)
  }

  /** `offset_page` */
  function OffsetPage(subHdr: nat, len: nat): (r: nat) {
    Word32(Word32(Word32(DISKDUMP_HEADER_BLOCKS + subHdr) + BitmapBlocks(len)) * PAGE_SIZE)
  }

  lemma ScaledWord(x: nat, p: nat)
    ensures Word32(Word32(x) * p) == Word32(x * p)
  {
    var q, r := x / TWO32, x % TWO32;
    Regrouped(q, r, p);
    Wrapped(q * p, r * p);
  }

  lemma Regrouped(q: nat, r: nat, p: nat)
    ensures (q * TWO32 + r) * p == q * p * TWO32 + r * p
  {
  }

  lemma Wrapped(z: nat, w: nat)
    ensures Word32(z * TWO32 + w) == Word32(w)
  {
  }

  lemma BlocksOf(n: nat)
    ensures DivRoundUp(PageBase(n), PAGE_SIZE) == n
  {
    hide Pow2;
    PageFacts();
    PageBaseNext(n);
    AddrOnPage(PageBase(n) + PAGE_SIZE - 1, n);
  }

  /** The page part starts where the bitmap copies end, modulo 2^32. */
  lemma PageOffset(subHdr: nat, maxMapnr: nat)
    ensures var len := LenDumpBitmap(maxMapnr);
            OffsetPage(subHdr, len) == Word32(OffsetDumpBitmap(subHdr) + 2 * len)
  {
    hide Pow2, Word32, DivRoundUp;
    var n := DivRoundUp(DivRoundUp(maxMapnr, 8), PAGE_SIZE);
    var a, b := DISKDUMP_HEADER_BLOCKS + subHdr, n * 2;
    BlocksOf(n);
    SumWord(a, b);
    ScaledWord(a + b, PAGE_SIZE);
    ScaledWord(a, PAGE_SIZE);
    Distribute(a, b, PAGE_SIZE);
    SumWord(a * PAGE_SIZE, b * PAGE_SIZE);
    Twice(n, PAGE_SIZE);
  }

  lemma SumWord(a: nat, b: nat)
    ensures Word32(Word32(a) + Word32(b)) == Word32(a + b) == Word32(Word32(a) + b)
  {
    var q, r := a / TWO32, b / TWO32;
    Wrapped(q, Word32(a) + b);
    Wrapped(r, Word32(a) + Word32(b));
  }

  lemma Twice(n: nat, p: nat)
    ensures n * 2 * p == 2 * (n * p)
  {
  }

  /** Exactly when the page part lies behind both bitmap copies: if header and copies
      end below 4 GiB. Otherwise it starts before their end. */
  lemma PagesBehindBitmapIff(subHdr: nat, maxMapnr: nat)
    ensures var off, len := OffsetDumpBitmap(subHdr), LenDumpBitmap(maxMapnr);
            && (OffsetPage(subHdr, len) == off + 2 * len <==> off + 2 * len < TWO32)
            && (off + 2 * len >= TWO32 ==> OffsetPage(subHdr, len) < off + 2 * len)
  {
    PageOffset(subHdr, maxMapnr);
    hide OffsetPage, OffsetDumpBitmap, LenDumpBitmap;
  }

  /** A guest where it does not: 2^34 page frames, 64 TiB with pages of 4K. */
  lemma LargeGuestOverlaps(subHdr: nat)
    ensures var len := LenDumpBitmap(0x4_0000_0000);
            OffsetPage(subHdr, len) < OffsetDumpBitmap(subHdr) + 2 * len
  {
    PagesBehindBitmapIff(subHdr, 0x4_0000_0000);
    hide OffsetPage, OffsetDumpBitmap, Pow2, DivRoundUp;
    RoundedUp(0x4_0000_0000, 8);
    RoundedUp(DivRoundUp(0x4_0000_0000, 8), PAGE_SIZE);
  }

  lemma RoundedUp(x: nat, s: Positive)
    ensures DivRoundUp(x, s) * s >= x
  {
  }

  lemma BitmapStays(file: File, file': File, off: nat, len: nat, blocks: seq<Block>)
    requires BitmapIn(file, off, len, blocks) && SameBelow(file, file', off + 2 * len)
    ensures BitmapIn(file', off, len, blocks)
  {
    hide TestBit, InBlocks;
    forall p: nat | p < 8 * len
      ensures TestBit(file'(off + p / 8), p % 8) <==> InBlocks(blocks, p)
      ensures TestBit(file'(off + len + p / 8), p % 8) <==> InBlocks(blocks, p)
    {
      assert file'(off + p / 8) == file(off + p / 8);
    }
  }

  /** `write_dump_bitmap`, then `write_dump_pages`, on one file: the table and the data
      area read back (`PageReadsBack`), and so do both bitmap copies whenever the
      layout keeps them apart. */
  method WriteKdump(file0: File, f: Format, blocks: seq<Block>, subHdr: nat)
    returns (file: File, off: nat, len: nat, offsetPage: nat)
    requires FormatOk(f) && blocks != [] && Sorted(blocks) && PageSized(blocks)
    ensures off == OffsetDumpBitmap(subHdr) && len == LenDumpBitmap(End(blocks[|blocks| - 1]))
    ensures offsetPage == OffsetPage(subHdr, len) && BlocksIn(file, f, blocks, offsetPage)
    ensures off + 2 * len < TWO32 ==>
              offsetPage == off + 2 * len && BitmapIn(file, off, len, blocks) && SameBelow(file0, file, off)
  {
    hide *;
    off, len := OffsetDumpBitmap(subHdr), LenDumpBitmap(End(blocks[|blocks| - 1]));
    offsetPage := OffsetPage(subHdr, len);
    var w := new BitmapWriter(off, len, file0);
    w.WriteDumpBitmap(blocks);
    OutsideIsBelow(file0, w.file, off, len);
    var p := new PagesWriter(w.file);
    p.WriteDumpPages(f, blocks, offsetPage, w.numDumpable);
    file := p.file;
    AllBlocksIn(file, f, blocks, offsetPage);
    PagesBehindBitmapIff(subHdr, End(blocks[|blocks| - 1]));
    if off + 2 * len < TWO32 {
      BitmapStays(w.file, file, off, len, blocks);
      LowerToo(w.file, file, off + 2 * len, off);
      SameBelowTrans(file0, w.file, file, off);
    }
  }

  /** The page part of the file has all pages of the blocks. */
  ghost predicate BlocksIn(file: File, f: Format, blocks: seq<Block>, offsetPage: nat) {
    PagesIn(file, f, AllPages(blocks), offsetPage)
  }

  lemma AllBlocksIn(file: File, f: Format, blocks: seq<Block>, offsetPage: nat)
    requires PagesIn(file, f, AllPages(blocks), offsetPage)
    ensures BlocksIn(file, f, blocks, offsetPage)
  {
  }

  lemma OutsideIsBelow(file0: File, file: File, off: nat, len: nat)
    requires forall x: nat | !InCopies(off, len, len, x) :: file(x) == file0(x)
    ensures SameBelow(file0, file, off)
  {
  }

  lemma LowerToo(file: File, file': File, n: nat, m: nat)
    requires SameBelow(file, file', n) && m <= n
    ensures SameBelow(file, file', m)
  {
  }
}
