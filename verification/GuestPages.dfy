/** Iterating over the guest's pages for a kdump file (dump.c). Blocks are page
    aligned, so they are measured in pages here. */
module GuestPages {
  import opened Basics

  /** A `GuestPhysBlock`: frame number of its first page, contents of each page. */
  datatype Block = Block(first: nat, pages: seq<seq<byte>>)

  datatype Page = Page(pfn: nat, bytes: seq<byte>)

  function End(b: Block): (r: nat) {
    b.first + |b.pages|
  }

  /** Non-empty, sorted and disjoint, as `guest_phys_blocks_append` leaves them. */
  ghost predicate Sorted(blocks: seq<Block>) {
    && (forall i | 0 <= i < |blocks| :: blocks[i].pages != [])
    && (forall i, j | 0 <= i < j < |blocks| :: End(blocks[i]) <= blocks[j].first)
  }

  function PagesOf(b: Block): (r: seq<Page>)
    ensures |r| == |b.pages|
    ensures forall k | 0 <= k < |r| :: r[k] == Page(b.first + k, b.pages[k])
  {
    seq(|b.pages|, k requires 0 <= k < |b.pages| => Page(b.first + k, b.pages[k]))
  }

  /** All pages in iteration order. */
  function AllPages(blocks: seq<Block>): (r: seq<Page>) {
    if blocks == [] then [] else AllPages(blocks[..|blocks| - 1]) + PagesOf(blocks[|blocks| - 1])
  }

  lemma AllPagesStep(blocks: seq<Block>, i: nat)
    requires i < |blocks|
    ensures AllPages(blocks[..i + 1]) == AllPages(blocks[..i]) + PagesOf(blocks[i])
  {
    assert blocks[..i + 1][..i] == blocks[..i];
  }

  lemma {:induction false} AllPagesPrefix(blocks: seq<Block>, i: nat)
    requires i <= |blocks|
    ensures AllPages(blocks[..i]) <= AllPages(blocks)
    decreases |blocks| - i
  {
    if i < |blocks| {
      AllPagesStep(blocks, i);
      AllPagesPrefix(blocks, i + 1);
    } else {
      assert blocks[..i] == blocks;
    }
  }

  /** The iteration stands at page `j`, which is page `pfn` of block `i`. */
  ghost predicate At(blocks: seq<Block>, i: nat, pfn: nat, j: nat) {
    && i < |blocks| && blocks[i].first <= pfn < End(blocks[i])
    && j == |AllPages(blocks[..i])| + (pfn - blocks[i].first)
  }

  lemma AtPage(blocks: seq<Block>, i: nat, pfn: nat, j: nat)
    requires At(blocks, i, pfn, j)
    ensures j < |AllPages(blocks)|
    ensures AllPages(blocks)[j] == Page(pfn, blocks[i].pages[pfn - blocks[i].first])
  {
    AllPagesStep(blocks, i);
    AllPagesPrefix(blocks, i + 1);
    hide AllPages;
    assert AllPages(blocks)[j] == AllPages(blocks[..i + 1])[j];
  }

  /** `get_next_page`: `block` is `None` at the start of the iteration. */
  method GetNextPage(blocks: seq<Block>, block: Option<nat>, pfn: nat, ghost j: nat)
    returns (more: bool, block': Option<nat>, pfn': nat, bytes: seq<byte>)
    requires blocks != [] && Sorted(blocks)
    requires if block.None? then j == 0 else j > 0 && At(blocks, block.value, pfn, j - 1)
    ensures more <==> j < |AllPages(blocks)|
    ensures more ==> block'.Some? && At(blocks, block'.value, pfn', j) && AllPages(blocks)[j] == Page(pfn', bytes)
  {
    if block.None? {
      assert blocks[..0] == [];
      assert At(blocks, 0, blocks[0].first, 0);
      AtPage(blocks, 0, blocks[0].first, 0);
      return true, Some(0), blocks[0].first, blocks[0].pages[0];
    }
    var i := block.value;
    pfn' := pfn + 1;
    if blocks[i].first <= pfn' && pfn' + 1 <= End(blocks[i]) {
      AtPage(blocks, i, pfn', j);
      return true, block, pfn', blocks[i].pages[pfn' - blocks[i].first];
    }
    AllPagesStep(blocks, i);
    i := i + 1;
    if i == |blocks| {
      assert blocks[..i] == blocks;
      return false, None, pfn', [];
    }
    pfn' := blocks[i].first;
    AtPage(blocks, i, pfn', j);
    return true, Some(i), pfn', blocks[i].pages[0];
  }

  /** Frame number `p` belongs to a block. */
  ghost predicate InBlocks(blocks: seq<Block>, p: nat) {
    exists i :: 0 <= i < |blocks| && blocks[i].first <= p < End(blocks[i])
  }

  /** The iteration visits page `p`. */
  ghost predicate Visited(blocks: seq<Block>, p: nat) {
    exists a :: 0 <= a < |AllPages(blocks)| && AllPages(blocks)[a].pfn == p
  }

  /** The iteration visits exactly the pages of the blocks. */
  lemma {:induction false} VisitsBlocks(blocks: seq<Block>, p: nat)
    ensures InBlocks(blocks, p) <==> Visited(blocks, p)
  {
    if blocks != [] {
      var n := |blocks| - 1;
      var front, last := blocks[..n], blocks[n];
      var head, all := AllPages(front), AllPages(blocks);
      VisitsBlocks(front, p);
      if InBlocks(blocks, p) {
        var i :| 0 <= i < |blocks| && blocks[i].first <= p < End(blocks[i]);
        if i == n {
          assert all[|head| + (p - last.first)].pfn == p;
        } else {
          assert front[i].first <= p < End(front[i]);
          var a :| 0 <= a < |head| && head[a].pfn == p;
          assert all[a].pfn == p;
        }
      }
      if Visited(blocks, p) {
        var a :| 0 <= a < |all| && all[a].pfn == p;
        if a < |head| {
          assert head[a].pfn == p;
          var i :| 0 <= i < |front| && front[i].first <= p < End(front[i]);
          assert blocks[i].first <= p < End(blocks[i]);
        } else {
          assert all[a] == PagesOf(last)[a - |head|];
          assert blocks[n].first <= p < End(blocks[n]);
        }
      }
    }
  }

  ghost predicate Ascending(pages: seq<Page>) {
    forall a, b | 0 <= a < b < |pages| :: pages[a].pfn < pages[b].pfn
  }

  lemma AscendingJoined(head: seq<Page>, tail: seq<Page>)
    requires Ascending(head) && Ascending(tail)
    requires head != [] && tail != [] ==> head[|head| - 1].pfn < tail[0].pfn
    ensures Ascending(head + tail)
  {
    var all := head + tail;
    forall a, b | 0 <= a < b < |all|
      ensures all[a].pfn < all[b].pfn
    {
      if a < |head| <= b {
        assert a < |head| - 1 ==> head[a].pfn < head[|head| - 1].pfn;
        assert b > |head| ==> tail[0].pfn < tail[b - |head|].pfn;
      }
    }
  }

  /** Pages come in increasing order, the last one at the end of the last block. */
  lemma {:induction false} PagesAscend(blocks: seq<Block>)
    requires Sorted(blocks)
    ensures Ascending(AllPages(blocks))
    ensures blocks != [] ==> AllPages(blocks) != []
    ensures blocks != [] ==> AllPages(blocks)[|AllPages(blocks)| - 1].pfn + 1 == End(blocks[|blocks| - 1])
  {
    hide Ascending;
    if blocks == [] {
      NoneAscend();
    } else {
      var n := |blocks| - 1;
      var front, last := blocks[..n], blocks[n];
      PagesAscend(front);
      if front != [] {
        assert End(front[n - 1]) <= last.first;
      }
      BlockAscends(last);
      AscendingJoined(AllPages(front), PagesOf(last));
    }
  }

  lemma NoneAscend()
    ensures Ascending([])
  {
  }

  lemma BlockAscends(b: Block)
    ensures Ascending(PagesOf(b))
  {
  }
}
