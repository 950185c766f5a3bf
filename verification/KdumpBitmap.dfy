/** The dump bitmap of a kdump file (dump.c): one bit per page frame, written
    through a one-window buffer into two copies. */
module KdumpBitmap {
  import opened Basics
  import opened Files
  import opened Pages
  import opened GuestPages

  function Pack(b0: bool, b1: bool, b2: bool, b3: bool, b4: bool, b5: bool, b6: bool, b7: bool): (r: byte) {
    (if b0 then 1 else 0) | (if b1 then 2 else 0) | (if b2 then 4 else 0) | (if b3 then 8 else 0)
    | (if b4 then 16 else 0) | (if b5 then 32 else 0) | (if b6 then 64 else 0) | (if b7 then 128 else 0)
  }

  function Bit(k: nat): (r: byte)
    requires k < 8
  {
    if k == 0 then 1 else if k == 1 then 2 else if k == 2 then 4 else if k == 3 then 8
    else if k == 4 then 16 else if k == 5 then 32 else if k == 6 then 64 else 128
  }

  predicate TestBit(x: byte, k: nat)
    requires k < 8
  {
    x & Bit(k) != 0
  }

  function WithBit(x: byte, k: nat): (r: byte)
    requires k < 8
  {
    x | Bit(k)
  }

  function WithoutBit(x: byte, k: nat): (r: byte)
    requires k < 8
  {
    x & !Bit(k)
  }

  /** Byte `b` of the bitmap of the set `s`: bit `k` stands for frame `8 * b + k`. */
  function ByteOf(s: set<nat>, b: nat): (r: byte) {
    Pack(8 * b in s, 8 * b + 1 in s, 8 * b + 2 in s, 8 * b + 3 in s,
         8 * b + 4 in s, 8 * b + 5 in s, 8 * b + 6 in s, 8 * b + 7 in s)
  }

  lemma PackBits(b0: bool, b1: bool, b2: bool, b3: bool, b4: bool, b5: bool, b6: bool, b7: bool)
    ensures var x := Pack(b0, b1, b2, b3, b4, b5, b6, b7);
            && (TestBit(x, 0) <==> b0) && (TestBit(x, 1) <==> b1) && (TestBit(x, 2) <==> b2) && (TestBit(x, 3) <==> b3)
            && (TestBit(x, 4) <==> b4) && (TestBit(x, 5) <==> b5) && (TestBit(x, 6) <==> b6) && (TestBit(x, 7) <==> b7)
  {
  }

  /** The bits of a bitmap byte are its frames. */
  lemma BitsOfByte(s: set<nat>, b: nat, k: nat)
    requires k < 8
    ensures TestBit(ByteOf(s, b), k) <==> 8 * b + k in s
  {
    hide Pack, TestBit;
    PackBits(8 * b in s, 8 * b + 1 in s, 8 * b + 2 in s, 8 * b + 3 in s,
             8 * b + 4 in s, 8 * b + 5 in s, 8 * b + 6 in s, 8 * b + 7 in s);
  }

  /** Bytes with the same bits are equal. */
  lemma SameBits(x: byte, y: byte)
    requires TestBit(x, 0) == TestBit(y, 0) && TestBit(x, 1) == TestBit(y, 1)
    requires TestBit(x, 2) == TestBit(y, 2) && TestBit(x, 3) == TestBit(y, 3)
    requires TestBit(x, 4) == TestBit(y, 4) && TestBit(x, 5) == TestBit(y, 5)
    requires TestBit(x, 6) == TestBit(y, 6) && TestBit(x, 7) == TestBit(y, 7)
    ensures x == y
  {
  }

  lemma OneBit(x: byte, k: nat, j: nat)
    requires k < 8 && j < 8
    ensures TestBit(WithBit(x, k), j) <==> j == k || TestBit(x, j)
    ensures TestBit(WithoutBit(x, k), j) <==> j != k && TestBit(x, j)
  {
    BitsApart(k, j);
    OneBitOf(x, Bit(k), Bit(j));
  }

  lemma BitsApart(k: nat, j: nat)
    requires k < 8 && j < 8
    ensures Bit(k) & Bit(j) == if j == k then Bit(k) else 0
    ensures Bit(k) != 0
  {
  }

  lemma OneBitOf(x: byte, y: byte, z: byte)
    requires y & z == 0 || y == z
    ensures (x | y) & z == if y == z then z else x & z
    ensures (x & !y) & z == if y == z then 0 else x & z
  {
  }

  lemma SetBitOfByte(s: set<nat>, b: nat, k: nat)
    requires k < 8
    ensures ByteOf(s + {8 * b + k}, b) == WithBit(ByteOf(s, b), k)
    ensures ByteOf(s - {8 * b + k}, b) == WithoutBit(ByteOf(s, b), k)
  {
    hide ByteOf, TestBit, WithBit, WithoutBit;
    forall j | 0 <= j < 8
      ensures TestBit(ByteOf(s + {8 * b + k}, b), j) == TestBit(WithBit(ByteOf(s, b), k), j)
      ensures TestBit(ByteOf(s - {8 * b + k}, b), j) == TestBit(WithoutBit(ByteOf(s, b), k), j)
    {
      BitsOfByte(s, b, j);
      BitsOfByte(s + {8 * b + k}, b, j);
      BitsOfByte(s - {8 * b + k}, b, j);
      OneBit(ByteOf(s, b), k, j);
    }
    SameBits(ByteOf(s + {8 * b + k}, b), WithBit(ByteOf(s, b), k));
    SameBits(ByteOf(s - {8 * b + k}, b), WithoutBit(ByteOf(s, b), k));
  }

  lemma OtherByte(s: set<nat>, p: nat, b: nat)
    requires b != p / 8
    ensures ByteOf(s + {p}, b) == ByteOf(s, b) == ByteOf(s - {p}, b)
  {
    hide Pack;
  }

  lemma EmptyByte(s: set<nat>, b: nat)
    requires forall p | p in s :: p < 8 * b
    ensures ByteOf(s, b) == 0
  {
  }

  // ---- Windows ----

  /** `pfn / PFN_BUFBITMAP` */
  function Window(pfn: nat): (w: nat) {
    Quotient(pfn, 8 * PAGE_SIZE)
  }

  /** `pfn % PFN_BUFBITMAP` */
  function InWindow(pfn: nat): (x: nat)
    ensures x < 8 * PAGE_SIZE
  {
    pfn - Window(pfn) * (8 * PAGE_SIZE)
  }

  /** Byte `pfn / 8` of the bitmap is byte `InWindow(pfn) / 8` of its window. */
  lemma WindowOfByte(pfn: nat)
    ensures Window(pfn) == PageOf(pfn / 8)
    ensures InWindow(pfn) / 8 < PAGE_SIZE && pfn / 8 == PageBase(Window(pfn)) + InWindow(pfn) / 8
    ensures pfn % 8 == InWindow(pfn) % 8
  {
    hide Pow2;
    var w, x := Window(pfn), InWindow(pfn);
    Eightfold(w, PAGE_SIZE);
    assert pfn == 8 * PageBase(w) + x;
    AddrOnPage(pfn / 8, w);
  }

  lemma Eightfold(w: nat, b: nat)
    ensures w * (8 * b) == 8 * (w * b)
  {
  }

  /** `w` windows of the bitmap of `s` are in both copies in the file, the next one
      is in the buffer, and nothing else in the file was touched since `file0`. */
  ghost predicate Buffered(file0: File, file: File, buf: seq<byte>, off: nat, len: nat, w: nat, s: set<nat>) {
    && |buf| == PAGE_SIZE
    && (forall b | 0 <= b < PageBase(w) :: CopiesHave(file, off, len, b, ByteOf(s, b)))
    && (forall i | 0 <= i < PAGE_SIZE :: buf[i] == ByteOf(s, PageBase(w) + i))
    && (forall p | p in s :: p / 8 < PageBase(w + 1))
    && (forall x: nat | !InCopies(off, len, PageBase(w), x) :: file(x) == file0(x))
  }

  /** Both copies have `v` as their byte `b`. */
  ghost predicate CopiesHave(file: File, off: nat, len: nat, b: nat, v: byte) {
    file(off + b) == v && file(off + len + b) == v
  }

  /** Offset `x` lies in the first `n` bytes of one of the copies. */
  ghost predicate InCopies(off: nat, len: nat, n: nat, x: nat) {
    off <= x < off + n || off + len <= x < off + len + n
  }

  /** One round of the flushing loop. */
  lemma FlushWindow(file0: File, file: File, buf: seq<byte>, off: nat, len: nat, w: nat, s: set<nat>)
    requires Buffered(file0, file, buf, off, len, w, s) && PageBase(w + 1) <= len
    ensures var file' := Written(Written(file, off + PageBase(w), buf), off + len + PageBase(w), buf);
            Buffered(file0, file', ZeroPage(), off, len, w + 1, s)
  {
    hide ByteOf, Pow2, PageBase, CopiesHave, Written, InCopies;
    PageBaseNext(w);
    PageBaseNext(w + 1);
    var file' := Written(Written(file, off + PageBase(w), buf), off + len + PageBase(w), buf);
    forall b | 0 <= b < PageBase(w + 1)
      ensures CopiesHave(file', off, len, b, ByteOf(s, b))
    {
      FlushedByte(file0, file, buf, off, len, w, s, b);
    }
    forall x: nat | !InCopies(off, len, PageBase(w + 1), x)
      ensures file'(x) == file0(x)
    {
      FlushedOutside(file0, file, buf, off, len, w, s, x);
    }
    forall i | 0 <= i < PAGE_SIZE
      ensures ZeroPage()[i] == ByteOf(s, PageBase(w + 1) + i)
    {
      EmptyByte(s, PageBase(w + 1) + i);
    }
  }

  lemma FlushedByte(file0: File, file: File, buf: seq<byte>, off: nat, len: nat, w: nat, s: set<nat>, b: nat)
    requires Buffered(file0, file, buf, off, len, w, s) && PageBase(w + 1) <= len && b < PageBase(w + 1)
    ensures var file' := Written(Written(file, off + PageBase(w), buf), off + len + PageBase(w), buf);
            CopiesHave(file', off, len, b, ByteOf(s, b))
  {
    hide ByteOf, Pow2, PageBase;
    PageBaseNext(w);
    if b < PageBase(w) {
      assert CopiesHave(file, off, len, b, ByteOf(s, b));
    } else {
      var i := b - PageBase(w);
      assert buf[i] == ByteOf(s, PageBase(w) + i);
    }
  }

  lemma FlushedOutside(file0: File, file: File, buf: seq<byte>, off: nat, len: nat, w: nat, s: set<nat>, x: nat)
    requires Buffered(file0, file, buf, off, len, w, s) && !InCopies(off, len, PageBase(w + 1), x)
    ensures Written(Written(file, off + PageBase(w), buf), off + len + PageBase(w), buf)(x) == file0(x)
  {
    hide ByteOf, Pow2, PageBase;
    PageBaseNext(w);
    assert !InCopies(off, len, PageBase(w), x);
  }

  /** Setting or clearing a bit of the window in the buffer. */
  lemma ChangeBit(file0: File, file: File, buf: seq<byte>, off: nat, len: nat, s: set<nat>, pfn: nat, value: bool)
    requires Buffered(file0, file, buf, off, len, Window(pfn), s)
    ensures var i, k := InWindow(pfn) / 8, InWindow(pfn) % 8;
            && i < |buf|
            && Buffered(file0, file, buf[i := if value then WithBit(buf[i], k) else WithoutBit(buf[i], k)],
                        off, len, Window(pfn), if value then s + {pfn} else s - {pfn})
  {
    hide ByteOf, Pow2, PageBase, Window, InWindow, WithBit, WithoutBit, PageOf;
    WindowOfByte(pfn);
    var w, i, k := Window(pfn), InWindow(pfn) / 8, InWindow(pfn) % 8;
    PageBaseNext(w);
    var buf' := buf[i := if value then WithBit(buf[i], k) else WithoutBit(buf[i], k)];
    var s' := if value then s + {pfn} else s - {pfn};
    forall b | b != pfn / 8
      ensures ByteOf(s', b) == ByteOf(s, b)
    {
      OtherByte(s, pfn, b);
    }
    SetBitOfByte(s, pfn / 8, k);
    assert 8 * (pfn / 8) + k == pfn;
    forall b | 0 <= b < PageBase(w)
      ensures CopiesHave(file, off, len, b, ByteOf(s', b))
    {
      assert CopiesHave(file, off, len, b, ByteOf(s, b));
    }
    forall x | 0 <= x < PAGE_SIZE
      ensures buf'[x] == ByteOf(s', PageBase(w) + x)
    {
    }
  }

  function DivRoundUp(x: nat, s: Positive): (r: nat) {
    Quotient(x + s - 1, s)
  }

  /** `len_dump_bitmap`, for the frame number behind the last block. */
  function LenDumpBitmap(maxMapnr: nat): (r: nat) {
    PageBase(DivRoundUp(DivRoundUp(maxMapnr, 8), PAGE_SIZE))
  }

  /** The windows up to that of the last frame fill the bitmap exactly. */
  lemma WindowsFill(last: nat)
    ensures LenDumpBitmap(last + 1) == PageBase(Window(last) + 1)
  {
    hide Pow2;
    WindowOfByte(last);
    assert DivRoundUp(last + 1, 8) == last / 8 + 1;
    AddrParts(last / 8);
    PageBaseNext(Window(last));
    AddrOnPage(last / 8 + PAGE_SIZE, Window(last) + 1);
  }

  /** The frames of the first `n` pages. */
  ghost function Frames(pages: seq<Page>, n: nat): (r: set<nat>)
    requires n <= |pages|
  {
    set a | 0 <= a < n :: pages[a].pfn
  }

  /** Both copies of the bitmap have the bit of each frame. */
  ghost predicate BitmapIn(file: File, off: nat, len: nat, blocks: seq<Block>) {
    forall p: nat | p < 8 * len ::
      && (TestBit(file(off + p / 8), p % 8) <==> InBlocks(blocks, p))
      && (TestBit(file(off + len + p / 8), p % 8) <==> InBlocks(blocks, p))
  }

  class BitmapWriter {
    const off: nat   // offset_dump_bitmap
    const len: nat   // len_dump_bitmap
    var file: File
    var buf: seq<byte>
    var numDumpable: nat

    constructor (off: nat, len: nat, file: File)
      ensures this.off == off && this.len == len && this.file == file
    {
      this.off, this.len, this.file := off, len, file;
      buf, numDumpable := [], 0;
    }

    /** `set_dump_bitmap`: `s` is the set recorded so far, `lastPfn` its window. */
    method SetDumpBitmap(lastPfn: nat, pfn: nat, value: bool, ghost file0: File, ghost s: set<nat>)
      requires lastPfn <= pfn
      requires Buffered(file0, file, buf, off, len, Window(lastPfn), s)
      requires PageBase(Window(pfn)) <= len
      modifies this`file, this`buf
      ensures Buffered(file0, file, buf, off, len, Window(pfn), if value then s + {pfn} else s - {pfn})
    {
      hide Buffered, Pow2, Window, InWindow, PageBase, WithBit, WithoutBit;
      WindowsAscend(lastPfn, pfn);
      var w, end := Window(lastPfn), Window(pfn);
      while w < end
        invariant w <= end && Buffered(file0, file, buf, off, len, w, s)
      {
        if w + 1 < end {
          PageBaseMono(w + 1, end);
        }
        FlushWindow(file0, file, buf, off, len, w, s);
        file := Written(file, off + PageBase(w), buf);
        file := Written(file, off + len + PageBase(w), buf);
        buf := ZeroPage();
        w := w + 1;
      }
      ChangeBit(file0, file, buf, off, len, s, pfn, value);
      var i, k := InWindow(pfn) / 8, InWindow(pfn) % 8;
      buf := buf[i := if value then WithBit(buf[i], k) else WithoutBit(buf[i], k)];
    }

    /** `write_dump_bitmap`: both copies end up as the bitmap of the blocks' pages. */
    method WriteDumpBitmap(blocks: seq<Block>)
      requires blocks != [] && Sorted(blocks) && len == LenDumpBitmap(End(blocks[|blocks| - 1]))
      modifies this
      ensures numDumpable == |AllPages(blocks)|
      ensures BitmapIn(file, off, len, blocks)
      ensures forall x: nat | !InCopies(off, len, len, x) :: file(x) == old(file)(x)
    {
      hide Buffered, Pow2, Window, PageBase, AllPages, BitmapIn, ByteOf, LenDumpBitmap, Sorted, End, Frames;
      ghost var file0, all := file, AllPages(blocks);
      PagesAscend(blocks);
      ghost var last := all[|all| - 1].pfn;
      WindowsFill(last);
      buf := ZeroPage();
      StartsEmpty(file, off, len);
      var num, lastPfn := 0, 0;
      var block, pfn, more := None, 0, true;
      ghost var s: set<nat> := {};
      NextFrame(all, 0, last);
      while more
        invariant num <= |all| && s == Frames(all, num)
        invariant more ==> if block.None? then num == 0 else num > 0 && At(blocks, block.value, pfn, num - 1)
        invariant !more ==> num == |all|
        invariant lastPfn == if num == 0 then 0 else all[num - 1].pfn
        invariant Buffered(file0, file, buf, off, len, Window(lastPfn), s)
        decreases more, |all| - num
      {
        var bytes;
        more, block, pfn, bytes := GetNextPage(blocks, block, pfn, num);
        if more {
          NextFrame(all, num, last);
          SetDumpBitmap(lastPfn, pfn, true, file0, s);
          s := s + {pfn};
          lastPfn := pfn;
          num := num + 1;
        }
      }
      NextWindow(lastPfn);
      if num > 0 {
        SetDumpBitmap(lastPfn, lastPfn + 8 * PAGE_SIZE, false, file0, s);
      }
      numDumpable := num;
      BitmapIs(blocks, file0, file, buf, off, len, lastPfn);
    }
  }

  lemma StartsEmpty(file: File, off: nat, len: nat)
    ensures Buffered(file, file, ZeroPage(), off, len, Window(0), {})
  {
    hide Pow2;
    PageFacts();
    WindowOfByte(0);
    AddrOnPage(0, 0);
    forall i | 0 <= i < PAGE_SIZE
      ensures ZeroPage()[i] == ByteOf({}, PageBase(Window(0)) + i)
    {
      EmptyByte({}, PageBase(Window(0)) + i);
    }
  }

  lemma WindowsAscend(a: nat, b: nat)
    requires a <= b
    ensures Window(a) <= Window(b)
  {
    hide Pow2;
    WindowOfByte(a);
    WindowOfByte(b);
    AddrParts(a / 8);
    AddrParts(b / 8);
    if Window(b) < Window(a) {
      PageBaseMono(Window(b), Window(a));
    }
  }

  lemma NextWindow(pfn: nat)
    ensures Window(pfn + 8 * PAGE_SIZE) == Window(pfn) + 1
  {
    hide Pow2;
    WindowOfByte(pfn);
    WindowOfByte(pfn + 8 * PAGE_SIZE);
    AddrParts(pfn / 8);
    PageBaseNext(Window(pfn));
    AddrOnPage(pfn / 8 + PAGE_SIZE, Window(pfn) + 1);
  }

  /** The next page to visit is above the ones visited and at most the last. */
  lemma NextFrame(all: seq<Page>, n: nat, last: nat)
    requires n < |all| && last == all[|all| - 1].pfn
    requires Ascending(all)
    ensures n > 0 ==> all[n - 1].pfn <= all[n].pfn
    ensures PageBase(Window(all[n].pfn)) <= PageBase(Window(last) + 1)
    ensures Frames(all, n + 1) == Frames(all, n) + {all[n].pfn}
    ensures Frames(all, 0) == {}
  {
    WindowsAscend(all[n].pfn, last);
    PageBaseMono(Window(all[n].pfn), Window(last) + 1);
  }

  lemma BitmapIs(blocks: seq<Block>, file0: File, file: File, buf: seq<byte>, off: nat, len: nat, last: nat)
    requires Sorted(blocks) && AllPages(blocks) != []
    requires last == AllPages(blocks)[|AllPages(blocks)| - 1].pfn && len == PageBase(Window(last) + 1)
    requires Buffered(file0, file, buf, off, len, Window(last + 8 * PAGE_SIZE),
                      Frames(AllPages(blocks), |AllPages(blocks)|) - {last + 8 * PAGE_SIZE})
    ensures BitmapIn(file, off, len, blocks)
    ensures forall x: nat | !InCopies(off, len, len, x) :: file(x) == file0(x)
  {
    hide Pow2, Window, PageBase, AllPages, TestBit, ByteOf, InBlocks;
    NextWindow(last);
    PagesAscend(blocks);
    var all := AllPages(blocks);
    var s := Frames(all, |all|) - {last + 8 * PAGE_SIZE};
    forall p: nat | p < 8 * len
      ensures TestBit(file(off + p / 8), p % 8) <==> InBlocks(blocks, p)
      ensures TestBit(file(off + len + p / 8), p % 8) <==> InBlocks(blocks, p)
    {
      assert CopiesHave(file, off, len, p / 8, ByteOf(s, p / 8));
      BitsOfByte(s, p / 8, p % 8);
      VisitsBlocks(blocks, p);
      assert p != last + 8 * PAGE_SIZE || !InBlocks(blocks, p) by {
        assert forall a | 0 <= a < |all| :: all[a].pfn <= last;
      }
      assert p in s <==> Visited(blocks, p);
    }
  }
}
