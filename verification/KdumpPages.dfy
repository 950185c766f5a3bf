/** The page part of a kdump file (dump.c): a table of descriptors and, behind it,
    the stored pages, each written through its own cache. */
module KdumpPages {
  import opened Basics
  import opened Files
  import opened Pages
  import opened GuestPages

  const BUFSIZE_DATA_CACHE: nat := 4 * PAGE_SIZE
  const SIZEOF_PAGE_DESCRIPTOR: nat := 24

  /** `offset` is where the cached bytes will go. */
  datatype DataCache = DataCache(offset: nat, data: seq<byte>)

  /** The bytes handed to a cache that started at `base` are `stream`: a part of
      them is in the file, the rest in the cache. */
  ghost predicate Streamed(file: File, base: nat, dc: DataCache, stream: seq<byte>) {
    && |dc.data| <= BUFSIZE_DATA_CACHE && |dc.data| <= |stream|
    && dc.offset == base + |stream| - |dc.data|
    && dc.data == stream[|stream| - |dc.data|..]
    && Has(file, base, stream[..|stream| - |dc.data|])
  }

  lemma FlushStreamed(file: File, base: nat, dc: DataCache, stream: seq<byte>)
    requires Streamed(file, base, dc, stream)
    ensures var file' := Written(file, dc.offset, dc.data);
            && Streamed(file', base, DataCache(dc.offset + |dc.data|, []), stream)
            && OnlyWithin(file, file', base, base + |stream|)
  {
    var n := |stream| - |dc.data|;
    var file' := Written(file, dc.offset, dc.data);
    assert stream == stream[..n] + dc.data;
    forall k | 0 <= k < |stream|
      ensures file'(base + k) == stream[k]
    {
      if k < n {
        assert file(base + k) == stream[..n][k];
      }
    }
    assert stream[..|stream|] == stream;
  }

  lemma CacheStreamed(file: File, base: nat, dc: DataCache, stream: seq<byte>, buf: seq<byte>)
    requires Streamed(file, base, dc, stream) && |dc.data| + |buf| <= BUFSIZE_DATA_CACHE
    ensures Streamed(file, base, DataCache(dc.offset, dc.data + buf), stream + buf)
  {
    var n := |stream| - |dc.data|;
    assert (stream + buf)[..n] == stream[..n];
    assert (stream + buf)[n..] == stream[n..] + buf;
  }

  lemma StaysStreamed(file: File, file': File, base: nat, dc: DataCache, stream: seq<byte>, lo: nat, hi: nat)
    requires Streamed(file, base, dc, stream) && OnlyWithin(file, file', lo, hi)
    requires hi <= base || base + |stream| <= lo
    ensures Streamed(file', base, dc, stream)
  {
    var s := stream[..|stream| - |dc.data|];
    forall k | 0 <= k < |s|
      ensures file'(base + k) == s[k]
    {
      assert file(base + k) == s[k];
    }
  }

  // ---- What the page part should contain ----

  datatype PageDescriptor = PageDescriptor(offset: nat, size: nat, flags: nat, pageFlags: nat)

  /** How descriptors become bytes and pages get compressed: `Serialize` stands for
      the dump's byte order, `Compress` for the one library in use. */
  datatype Format = Format(serialize: PageDescriptor -> seq<byte>, compress: seq<byte> -> Option<seq<byte>>, flag: nat)

  ghost predicate FormatOk(f: Format) {
    forall pd :: |f.serialize(pd)| == SIZEOF_PAGE_DESCRIPTOR
  }

  /** The stored form of a page that is not all zero. */
  function Encoded(f: Format, page: seq<byte>): (r: seq<byte>)
    ensures |page| == PAGE_SIZE ==> |r| <= PAGE_SIZE
  {
    var c := f.compress(page);
    if c.Some? && |c.value| < PAGE_SIZE then c.value else page
  }

  function EncodedFlag(f: Format, page: seq<byte>): (r: nat) {
    var c := f.compress(page);
    if c.Some? && |c.value| < PAGE_SIZE then f.flag else 0
  }

  /** The bytes that a page's descriptor must point at. */
  function Stored(f: Format, page: seq<byte>): (r: seq<byte>) {
    if page == ZeroPage() then page else Encoded(f, page)
  }

  /** The data area after the first `n` pages: a zero page, then the others. */
  function DataArea(f: Format, pages: seq<Page>, n: nat): (r: seq<byte>)
    requires n <= |pages|
  {
    if n == 0 then ZeroPage()
    else if pages[n - 1].bytes == ZeroPage() then DataArea(f, pages, n - 1)
    else DataArea(f, pages, n - 1) + Encoded(f, pages[n - 1].bytes)
  }

  function Descriptor(f: Format, pages: seq<Page>, k: nat, dataBase: nat): (r: PageDescriptor)
    requires k < |pages|
  {
    if pages[k].bytes == ZeroPage() then PageDescriptor(dataBase, PAGE_SIZE, 0, 0)
    else PageDescriptor(dataBase + |DataArea(f, pages, k)|, |Encoded(f, pages[k].bytes)|,
                        EncodedFlag(f, pages[k].bytes), 0)
  }

  function Table(f: Format, pages: seq<Page>, n: nat, dataBase: nat): (r: seq<byte>)
    requires n <= |pages|
  {
    if n == 0 then [] else Table(f, pages, n - 1, dataBase) + f.serialize(Descriptor(f, pages, n - 1, dataBase))
  }

  lemma {:induction false} TableSize(f: Format, pages: seq<Page>, n: nat, dataBase: nat)
    requires n <= |pages| && FormatOk(f)
    ensures |Table(f, pages, n, dataBase)| == SIZEOF_PAGE_DESCRIPTOR * n
  {
    if n > 0 {
      TableSize(f, pages, n - 1, dataBase);
    }
  }

  /** Entry `k` of the table is the descriptor of page `k`. */
  lemma {:induction false} TableEntry(f: Format, pages: seq<Page>, n: nat, dataBase: nat, k: nat)
    requires k < n <= |pages| && FormatOk(f)
    ensures |Table(f, pages, n, dataBase)| == SIZEOF_PAGE_DESCRIPTOR * n
    ensures var a := SIZEOF_PAGE_DESCRIPTOR * k;
            Table(f, pages, n, dataBase)[a..a + SIZEOF_PAGE_DESCRIPTOR]
            == f.serialize(Descriptor(f, pages, k, dataBase))
  {
    TableSize(f, pages, n, dataBase);
    TableSize(f, pages, n - 1, dataBase);
    var front := Table(f, pages, n - 1, dataBase);
    if k < n - 1 {
      TableEntry(f, pages, n - 1, dataBase, k);
      var a := SIZEOF_PAGE_DESCRIPTOR * k;
      assert (front + f.serialize(Descriptor(f, pages, n - 1, dataBase)))[a..a + SIZEOF_PAGE_DESCRIPTOR]
          == front[a..a + SIZEOF_PAGE_DESCRIPTOR];
    }
  }

  lemma {:induction false} AreaGrows(f: Format, pages: seq<Page>, k: nat, n: nat)
    requires k <= n <= |pages|
    ensures DataArea(f, pages, k) <= DataArea(f, pages, n)
    ensures ZeroPage() <= DataArea(f, pages, n)
    decreases n
  {
    if k < n {
      AreaGrows(f, pages, k, n - 1);
    } else if n > 0 {
      AreaGrows(f, pages, 0, n - 1);
    }
  }

  /** The descriptor of page `k` points at the page's stored form. */
  lemma DescriptorPoints(f: Format, pages: seq<Page>, n: nat, k: nat, dataBase: nat)
    requires k < n <= |pages|
    ensures var pd := Descriptor(f, pages, k, dataBase);
            var at := pd.offset - dataBase;
            && 0 <= at && at + pd.size <= |DataArea(f, pages, n)|
            && DataArea(f, pages, n)[at..at + pd.size] == Stored(f, pages[k].bytes)
  {
    hide Encoded;
    var page, area := pages[k].bytes, DataArea(f, pages, n);
    AreaGrows(f, pages, k + 1, n);
    if page == ZeroPage() {
      SliceOfPrefix(area, [], page);
    } else {
      SliceOfPrefix(area, DataArea(f, pages, k), Encoded(f, page));
    }
  }

  lemma SliceOfPrefix(area: seq<byte>, before: seq<byte>, part: seq<byte>)
    requires before + part <= area
    ensures |before| + |part| <= |area| && area[|before|..|before| + |part|] == part
  {
    assert area[..|before + part|] == before + part;
  }

  // ---- Writing it ----

  class PagesWriter {
    var file: File

    constructor (file: File)
      ensures this.file == file
    {
      this.file := file;
    }

    /** `write_cache`: with `sync` the cache is emptied, otherwise `buf` is added. */
    method WriteCache(dc: DataCache, buf: seq<byte>, sync: bool, ghost base: nat, ghost stream: seq<byte>)
      returns (dc': DataCache)
      requires |buf| <= BUFSIZE_DATA_CACHE && Streamed(file, base, dc, stream)
      modifies this
      ensures Streamed(file, base, dc', if sync then stream else stream + buf)
      ensures sync ==> dc'.data == []
      ensures OnlyWithin(old(file), file, base, base + |stream|)
    {
      dc' := dc;
      if (!sync && |dc.data| + |buf| > BUFSIZE_DATA_CACHE) || (sync && |dc.data| > 0) {
        FlushStreamed(file, base, dc, stream);
        file := Written(file, dc.offset, dc.data);
        dc' := DataCache(dc.offset + |dc.data|, []);
      }
      if !sync {
        CacheStreamed(file, base, dc', stream, buf);
        dc' := DataCache(dc'.offset, dc'.data + buf);
      }
    }

    /** The loop body of `write_dump_pages` for page `n`. */
    method WritePage(f: Format, page: seq<byte>, desc: DataCache, data: DataCache, offsetData: nat, dataBase: nat,
                     ghost pages: seq<Page>, ghost n: nat, ghost descBase: nat)
      returns (desc': DataCache, data': DataCache, offsetData': nat)
      requires FormatOk(f) && n < |pages| && page == pages[n].bytes && |page| == PAGE_SIZE
      requires dataBase == descBase + SIZEOF_PAGE_DESCRIPTOR * |pages|
      requires offsetData == dataBase + |DataArea(f, pages, n)|
      requires Streamed(file, descBase, desc, Table(f, pages, n, dataBase))
      requires Streamed(file, dataBase, data, DataArea(f, pages, n))
      modifies this
      ensures offsetData' == dataBase + |DataArea(f, pages, n + 1)|
      ensures Streamed(file, descBase, desc', Table(f, pages, n + 1, dataBase))
      ensures Streamed(file, dataBase, data', DataArea(f, pages, n + 1))
      ensures SameBelow(old(file), file, descBase)
    {
      hide Streamed, Pow2, EncodedFlag;
      ghost var table, area := Table(f, pages, n, dataBase), DataArea(f, pages, n);
      TableSize(f, pages, n, dataBase);
      TableSize(f, pages, n + 1, dataBase);
      PageFacts();
      data', offsetData' := data, offsetData;
      var pd := PageDescriptor(dataBase, PAGE_SIZE, 0, 0);
      if page != ZeroPage() {
        var sizeOut := Encoded(f, page);
        ghost var file0 := file;
        data' := WriteCache(data, sizeOut, false, dataBase, area);
        StaysStreamed(file0, file, descBase, desc, table, dataBase, dataBase + |area|);
        pd := PageDescriptor(offsetData, |sizeOut|, EncodedFlag(f, page), 0);
        offsetData' := offsetData + |sizeOut|;
      }
      ghost var file1 := file;
      desc' := WriteCache(desc, f.serialize(pd), false, descBase, table);
      StaysStreamed(file1, file, dataBase, data', DataArea(f, pages, n + 1), descBase, descBase + |table|);
    }

    /** `write_dump_pages`: `numDumpable` is the number of pages that the bitmap was
        written for. */
    method WriteDumpPages(f: Format, blocks: seq<Block>, offsetPage: nat, numDumpable: nat)
      requires FormatOk(f) && blocks != [] && Sorted(blocks) && numDumpable == |AllPages(blocks)|
      requires PageSized(blocks)
      modifies this
      ensures PagesIn(file, f, AllPages(blocks), offsetPage)
      ensures SameBelow(old(file), file, offsetPage)
    {
      hide *;
      var dataBase := offsetPage + SIZEOF_PAGE_DESCRIPTOR * numDumpable;
      ghost var all := AllPages(blocks);
      AllPageSized(blocks);
      var desc := DataCache(offsetPage, []);
      var data := WriteZeroPage(offsetPage, dataBase);
      ghost var file1 := file;
      StartsEmpty(file, offsetPage);
      desc, data := WriteAllPages(f, blocks, desc, data, dataBase + PAGE_SIZE, dataBase, offsetPage);
      ghost var file2 := file;
      TableSize(f, all, numDumpable, dataBase);
      SyncCaches(desc, data, offsetPage, dataBase, Table(f, all, numDumpable, dataBase), DataArea(f, all, numDumpable));
      SameBelowTrans(old(file), file1, file2, offsetPage);
      SameBelowTrans(old(file), file2, file, offsetPage);
      AllPagesIn(file, f, all, offsetPage);
    }

    /** The zero page that all zero pages share. */
    method WriteZeroPage(ghost descBase: nat, dataBase: nat) returns (data: DataCache)
      requires descBase <= dataBase
      modifies this
      ensures Streamed(file, dataBase, data, ZeroPage()) && SameBelow(old(file), file, descBase)
    {
      hide *;
      StartsEmpty(file, dataBase);
      ZeroPageFits();
      data := WriteCache(DataCache(dataBase, []), ZeroPage(), false, dataBase, []);
      WithinIsAbove(old(file), file, dataBase, dataBase, descBase);
    }

    /** The loop of `write_dump_pages`. */
    method WriteAllPages(f: Format, blocks: seq<Block>, desc: DataCache, data: DataCache, offsetData: nat,
                         dataBase: nat,
                         ghost descBase: nat)
      returns (desc': DataCache, data': DataCache)
      requires FormatOk(f) && blocks != [] && Sorted(blocks)
      requires WholePages(AllPages(blocks))
      requires dataBase == descBase + SIZEOF_PAGE_DESCRIPTOR * |AllPages(blocks)| && offsetData == dataBase + PAGE_SIZE
      requires Streamed(file, descBase, desc, []) && Streamed(file, dataBase, data, ZeroPage())
      modifies this
      ensures Streamed(file, descBase, desc', Table(f, AllPages(blocks), |AllPages(blocks)|, dataBase))
      ensures Streamed(file, dataBase, data', DataArea(f, AllPages(blocks), |AllPages(blocks)|))
      ensures SameBelow(old(file), file, descBase)
    {
      hide Streamed, Pow2, AllPages, Table, DataArea, Sorted, FormatOk, ZeroPage, SameBelow;
      ghost var all := AllPages(blocks);
      NoPagesYet(f, all, dataBase);
      assert SameBelow(file, file, descBase) by { SameFile(file, descBase); }
      desc', data' := desc, data;
      var at := offsetData;
      var block, pfn, more := None, 0, true;
      ghost var n: nat := 0;
      while more
        invariant n <= |all|
        invariant more ==> if block.None? then n == 0 else n > 0 && At(blocks, block.value, pfn, n - 1)
        invariant !more ==> n == |all|
        invariant at == dataBase + |DataArea(f, all, n)|
        invariant Streamed(file, descBase, desc', Table(f, all, n, dataBase))
        invariant Streamed(file, dataBase, data', DataArea(f, all, n))
        invariant SameBelow(old(file), file, descBase)
        decreases more, |all| - n
      {
        var bytes;
        more, block, pfn, bytes := GetNextPage(blocks, block, pfn, n);
        if more {
          ghost var before := file;
          desc', data', at := WritePage(f, bytes, desc', data', at, dataBase, all, n, descBase);
          SameBelowTrans(old(file), before, file, descBase);
          n := n + 1;
        }
      }
    }

    /** The end of `write_dump_pages`. */
    method SyncCaches(desc: DataCache, data: DataCache, ghost descBase: nat, ghost dataBase: nat,
                      ghost table: seq<byte>, ghost area: seq<byte>)
      requires descBase + |table| <= dataBase
      requires Streamed(file, descBase, desc, table) && Streamed(file, dataBase, data, area)
      modifies this
      ensures Has(file, descBase, table) && Has(file, dataBase, area)
      ensures SameBelow(old(file), file, descBase)
    {
      hide Streamed, Has, SameBelow, OnlyWithin;
      ghost var file0 := file;
      var desc' := WriteCache(desc, [], true, descBase, table);
      StaysStreamed(file0, file, dataBase, data, area, descBase, descBase + |table|);
      WithinIsAbove(file0, file, descBase, descBase + |table|, descBase);
      ghost var file1 := file;
      var data' := WriteCache(data, [], true, dataBase, area);
      StaysStreamed(file1, file, descBase, desc', table, dataBase, dataBase + |area|);
      WithinIsAbove(file1, file, dataBase, dataBase + |area|, descBase);
      SameBelowTrans(file0, file1, file, descBase);
      AllInFile(file, descBase, desc', table);
      AllInFile(file, dataBase, data', area);
    }
  }

  /** The pages of the blocks have the size of a page. */
  ghost predicate PageSized(blocks: seq<Block>) {
    forall i, j | 0 <= i < |blocks| && 0 <= j < |blocks[i].pages| :: |blocks[i].pages[j]| == PAGE_SIZE
  }

  lemma {:induction false} AllPageSized(blocks: seq<Block>)
    requires PageSized(blocks)
    ensures WholePages(AllPages(blocks))
  {
    if blocks != [] {
      var n := |blocks| - 1;
      AllPageSized(blocks[..n]);
      var head, tail := AllPages(blocks[..n]), PagesOf(blocks[n]);
      var all := AllPages(blocks);
      forall k | 0 <= k < |all|
        ensures |all[k].bytes| == PAGE_SIZE
      {
        if k >= |head| {
          assert all[k] == tail[k - |head|];
          assert |blocks[n].pages[k - |head|]| == PAGE_SIZE;
        }
      }
    }
  }

  ghost predicate WholePages(pages: seq<Page>) {
    forall k | 0 <= k < |pages| :: |pages[k].bytes| == PAGE_SIZE
  }

  /** The page part of the file: the table at `offsetPage`, the data area behind it. */
  ghost predicate PagesIn(file: File, f: Format, pages: seq<Page>, offsetPage: nat) {
    var n := |pages|;
    var dataBase := offsetPage + SIZEOF_PAGE_DESCRIPTOR * n;
    Has(file, offsetPage, Table(f, pages, n, dataBase)) && Has(file, dataBase, DataArea(f, pages, n))
  }

  lemma AllPagesIn(file: File, f: Format, pages: seq<Page>, offsetPage: nat)
    requires var n := |pages|;
             var dataBase := offsetPage + SIZEOF_PAGE_DESCRIPTOR * n;
             Has(file, offsetPage, Table(f, pages, n, dataBase)) && Has(file, dataBase, DataArea(f, pages, n))
    ensures PagesIn(file, f, pages, offsetPage)
  {
  }

  lemma ZeroPageFits()
    ensures |ZeroPage()| <= BUFSIZE_DATA_CACHE && [] + ZeroPage() == ZeroPage()
  {
  }

  lemma SameFile(file: File, n: nat)
    ensures SameBelow(file, file, n)
  {
  }

  lemma StartsEmpty(file: File, base: nat)
    ensures Streamed(file, base, DataCache(base, []), [])
  {
  }

  lemma NoPagesYet(f: Format, pages: seq<Page>, dataBase: nat)
    ensures Table(f, pages, 0, dataBase) == [] && DataArea(f, pages, 0) == ZeroPage()
  {
  }

  lemma AllInFile(file: File, base: nat, dc: DataCache, stream: seq<byte>)
    requires Streamed(file, base, dc, stream) && dc.data == []
    ensures Has(file, base, stream)
  {
    assert stream[..|stream|] == stream;
  }

  /** Reading the file back: for every page in iteration order, the entry of the
      table that it owns, and behind that entry's offset its stored form. The table
      ends where the data area begins, and every zero page shares its first slot. */
  lemma PageReadsBack(f: Format, pages: seq<Page>, file: File, offsetPage: nat, k: nat)
    requires FormatOk(f) && k < |pages| && PagesIn(file, f, pages, offsetPage)
    ensures var dataBase := offsetPage + SIZEOF_PAGE_DESCRIPTOR * |pages|;
            var pd := Descriptor(f, pages, k, dataBase);
            && |Table(f, pages, |pages|, dataBase)| == dataBase - offsetPage
            && Has(file, offsetPage + SIZEOF_PAGE_DESCRIPTOR * k, f.serialize(pd))
            && Has(file, pd.offset, Stored(f, pages[k].bytes)) && pd.size == |Stored(f, pages[k].bytes)|
            && (pages[k].bytes == ZeroPage() ==> pd.offset == dataBase)
  {
    hide Has, Table, DataArea, FormatOk, Stored;
    var n := |pages|;
    var dataBase := offsetPage + SIZEOF_PAGE_DESCRIPTOR * n;
    var pd := Descriptor(f, pages, k, dataBase);
    TableEntry(f, pages, n, dataBase, k);
    DescriptorPoints(f, pages, n, k, dataBase);
    PartOf(file, offsetPage, Table(f, pages, n, dataBase), SIZEOF_PAGE_DESCRIPTOR * k, SIZEOF_PAGE_DESCRIPTOR);
    PartOf(file, dataBase, DataArea(f, pages, n), pd.offset - dataBase, pd.size);
  }
}
