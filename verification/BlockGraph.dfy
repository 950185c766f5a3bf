/** Backing chains of the block layer (block.c): reference counts, the blockers that
    an overlay puts on its backing node, and dropping intermediate nodes. */
module BlockGraph {
  import opened Basics

  const BLOCK_OP_TYPE_MAX: nat := 15
  const COMMIT_TARGET: nat := 4

  /** Why an operation is blocked: `backing_blocker` of an overlay, or anything else. */
  datatype Reason = Backing(overlay: nat) | Other(id: nat)

  type Blockers = seq<multiset<Reason>>

  /** A `BlockDriverState`; `hasBlocker` tells whether `backing_blocker` is set. */
  datatype Node = Node(hasDriver: bool, backing: Option<nat>, hasBlocker: bool, refcnt: nat, blockers: Blockers)

  type Graph = map<nat, Node>

  /** `bdrv_op_block_all` */
  function BlockedAll(b: Blockers, r: Reason): (b': Blockers)
    ensures |b'| == |b| && forall op | 0 <= op < |b| :: b'[op] == b[op][r := b[op][r] + 1]
  {
    seq(|b|, op requires 0 <= op < |b| => b[op][r := b[op][r] + 1])
  }

  /** `bdrv_op_unblock_all`: every occurrence of the reason goes. */
  function UnblockedAll(b: Blockers, r: Reason): (b': Blockers)
    ensures |b'| == |b| && forall op | 0 <= op < |b| :: b'[op] == b[op][r := 0]
  {
    seq(|b|, op requires 0 <= op < |b| => b[op][r := 0])
  }

  /** `bdrv_op_blocker_is_empty` */
  predicate NoBlockers(b: Blockers) {
    forall op | 0 <= op < |b| :: b[op] == multiset{}
  }

  /** Times that overlay `y` blocks operation `op` on node `x`. */
  function Expected(g: Graph, x: nat, y: nat, op: nat): (r: nat) {
    if y in g && g[y].backing == Some(x) && op != COMMIT_TARGET then 1 else 0
  }

  ghost predicate NodeOk(g: Graph, x: nat)
    requires x in g
  {
    && |g[x].blockers| == BLOCK_OP_TYPE_MAX
    && (g[x].hasBlocker <==> g[x].backing.Some?)
    && (g[x].backing.Some? ==> g[x].backing.value in g)
    && forall op, y: nat | 0 <= op < BLOCK_OP_TYPE_MAX :: g[x].blockers[op][Backing(y)] == Expected(g, x, y, op)
  }

  /** Every node is blocked by exactly its overlays, except as a commit target. */
  ghost predicate GraphOk(g: Graph) {
    forall x | x in g :: NodeOk(g, x)
  }

  function Overlays(g: Graph, x: nat): (r: set<nat>) {
    set y | y in g && g[y].backing == Some(x)
  }

  /** Every overlay holds a reference on its backing node. */
  ghost predicate RefsOk(g: Graph) {
    forall x | x in g :: |Overlays(g, x)| <= g[x].refcnt
  }

  /** References other than those of overlays. */
  ghost function External(g: Graph, x: nat): (r: int)
    requires x in g
  {
    g[x].refcnt - |Overlays(g, x)|
  }

  // ---- bdrv_set_backing_hd ----

  function WithBlockers(g: Graph, x: nat, b: Blockers): (r: Graph)
    requires x in g
  {
    g[x := g[x].(blockers := b)]
  }

  /** First part: the old backing node is no longer blocked by `b`. */
  function Detached(g: Graph, b: nat): (r: Graph)
    requires b in g
  {
    if g[b].backing.Some? && g[b].backing.value in g
    then WithBlockers(g, g[b].backing.value, UnblockedAll(g[g[b].backing.value].blockers, Backing(b)))
    else g
  }

  /** Second part: `b` points at `n`. */
  function Pointed(g: Graph, b: nat, n: Option<nat>): (r: Graph)
    requires b in g
  {
    g[b := g[b].(backing := n, hasBlocker := n.Some?)]
  }

  /** What `b` puts on its new backing node: all operations but commit target. */
  function Blocking(b: Blockers, r: Reason): (b': Blockers)
    requires |b| == BLOCK_OP_TYPE_MAX
  {
    BlockedAll(b, r)[COMMIT_TARGET := BlockedAll(b, r)[COMMIT_TARGET][r := 0]]
  }

  /** Third part: the new backing node is blocked by `b`. */
  function Attached(g: Graph, b: nat, n: Option<nat>): (r: Graph)
    requires n.Some? && n.value in g ==> |g[n.value].blockers| == BLOCK_OP_TYPE_MAX
  {
    if n.Some? && n.value in g then WithBlockers(g, n.value, Blocking(g[n.value].blockers, Backing(b))) else g
  }

  /** `bdrv_set_backing_hd` */
  function SetBacking(g: Graph, b: nat, n: Option<nat>): (r: Graph)
    requires b in g && forall x | x in g :: |g[x].blockers| == BLOCK_OP_TYPE_MAX
  {
    Attached(Pointed(Detached(g, b), b, n), b, n)
  }

  lemma SetBackingShape(g: Graph, b: nat, n: Option<nat>)
    requires GraphOk(g) && b in g
    ensures var g' := SetBacking(g, b, n);
            && g'.Keys == g.Keys && g'[b].backing == n
            && forall x | x in g :: && g'[x].refcnt == g[x].refcnt && g'[x].hasDriver == g[x].hasDriver
                                    && (x != b ==> g'[x].backing == g[x].backing)
                                    && |g'[x].blockers| == |g[x].blockers|
  {
    assert NodeOk(g, b);
  }

  /** Blockers follow the edge: the graph stays consistent, and blockers of other
      origin stay where they are. */
  lemma SetBackingOk(g: Graph, b: nat, n: Option<nat>)
    requires GraphOk(g) && b in g && (n.Some? ==> n.value in g)
    ensures GraphOk(SetBacking(g, b, n))
    ensures forall x, op, k: nat | x in g && 0 <= op < BLOCK_OP_TYPE_MAX ::
              SetBacking(g, b, n)[x].blockers[op][Other(k)] == g[x].blockers[op][Other(k)]
  {
    SetBackingShape(g, b, n);
    hide SetBacking, GraphOk;
    var g' := SetBacking(g, b, n);
    forall x | x in g'
      ensures NodeOk(g', x)
      ensures forall op, k: nat | 0 <= op < BLOCK_OP_TYPE_MAX ::
                g'[x].blockers[op][Other(k)] == g[x].blockers[op][Other(k)]
    {
      SetBackingNode(g, b, n, x);
    }
  }

  lemma SetBackingNode(g: Graph, b: nat, n: Option<nat>, x: nat)
    requires GraphOk(g) && b in g && (n.Some? ==> n.value in g) && x in g
    ensures x in SetBacking(g, b, n) && NodeOk(SetBacking(g, b, n), x)
    ensures forall op, k: nat | 0 <= op < BLOCK_OP_TYPE_MAX ::
              SetBacking(g, b, n)[x].blockers[op][Other(k)] == g[x].blockers[op][Other(k)]
  {
    SetBackingShape(g, b, n);
    assert NodeOk(g, x) && NodeOk(g, b);
    hide SetBacking, GraphOk;
    var g' := SetBacking(g, b, n);
    forall op, r | 0 <= op < BLOCK_OP_TYPE_MAX && r != Backing(b)
      ensures g'[x].blockers[op][r] == g[x].blockers[op][r]
    {
      SetBackingCount(g, b, n, x, op, r);
    }
    forall op, y: nat | 0 <= op < BLOCK_OP_TYPE_MAX
      ensures g'[x].blockers[op][Backing(y)] == Expected(g', x, y, op)
    {
      SetBackingCount(g, b, n, x, op, Backing(y));
      assert g[x].blockers[op][Backing(y)] == Expected(g, x, y, op);
    }
  }

  /** How often a reason blocks an operation afterwards. */
  lemma SetBackingCount(g: Graph, b: nat, n: Option<nat>, x: nat, op: nat, r: Reason)
    requires GraphOk(g) && b in g && (n.Some? ==> n.value in g) && x in g && op < BLOCK_OP_TYPE_MAX
    ensures x in SetBacking(g, b, n) && op < |SetBacking(g, b, n)[x].blockers| && op < |g[x].blockers|
    ensures SetBacking(g, b, n)[x].blockers[op][r]
            == if r != Backing(b) then g[x].blockers[op][r]
               else if n == Some(x) && op != COMMIT_TARGET then 1 else 0
  {
    DetachedCount(g, b, x, op, r);
    assert NodeOk(g, x);
    hide Detached, Blocking, GraphOk;
    var g1 := Pointed(Detached(g, b), b, n);
    if n == Some(x) {
      BlockingCount(g1[x].blockers, Backing(b), op, r);
    }
  }

  lemma DetachedCount(g: Graph, b: nat, x: nat, op: nat, r: Reason)
    requires GraphOk(g) && b in g && x in g && op < BLOCK_OP_TYPE_MAX
    ensures Detached(g, b).Keys == g.Keys && |Detached(g, b)[x].blockers| == BLOCK_OP_TYPE_MAX
    ensures Detached(g, b)[x].blockers[op][r] == if r == Backing(b) then 0 else g[x].blockers[op][r]
    ensures forall z | z in g :: |Detached(g, b)[z].blockers| == BLOCK_OP_TYPE_MAX
  {
    assert NodeOk(g, x) && NodeOk(g, b);
    assert g[x].blockers[op][Backing(b)] == Expected(g, x, b, op);
    assert forall z | z in g :: NodeOk(g, z);
  }

  lemma BlockingCount(bs: Blockers, own: Reason, op: nat, r: Reason)
    requires |bs| == BLOCK_OP_TYPE_MAX && op < BLOCK_OP_TYPE_MAX
    ensures |Blocking(bs, own)| == BLOCK_OP_TYPE_MAX
    ensures Blocking(bs, own)[op][r]
            == if r != own then bs[op][r] else if op != COMMIT_TARGET then bs[op][r] + 1 else 0
  {
  }

  // ---- Chains ----

  /** `c` is the backing chain from `c[0]` down to a node without backing. */
  ghost predicate IsChain(g: Graph, c: seq<nat>) {
    && c != []
    && (forall k | 0 <= k < |c| :: c[k] in g)
    && (forall k | 0 <= k < |c| - 1 :: g[c[k]].backing == Some(c[k + 1]))
    && g[c[|c| - 1]].backing.None?
  }

  /** What a chain node points at. */
  function Below(c: seq<nat>, k: nat): (r: Option<nat>)
    requires k < |c|
  {
    if k + 1 < |c| then Some(c[k + 1]) else None
  }

  /** A chain that ends visits no node twice. */
  lemma {:induction false} ChainDistinct(g: Graph, c: seq<nat>, i: nat, j: nat)
    requires IsChain(g, c) && i < j < |c|
    ensures c[i] != c[j]
    decreases |c| - j
  {
    assert g[c[i]].backing == Some(c[i + 1]);
    if j + 1 < |c| {
      assert g[c[j]].backing == Some(c[j + 1]);
      ChainDistinct(g, c, i + 1, j + 1);
    }
  }

  // ---- bdrv_unref and the deletion loop ----

  /** `bdrv_unref`: the last reference deletes the node. */
  function Unrefed(g: Graph, x: nat): (r: Graph)
    requires x in g
  {
    if g[x].refcnt <= 1 then g - {x} else g[x := g[x].(refcnt := g[x].refcnt - 1)]
  }

  /** How the graph compares with `g0` when `top` has been put on `base` and the
      nodes in `done` have been dropped. */
  ghost predicate Reduced(g0: Graph, g: Graph, top: nat, base: nat, done: set<nat>) {
    && (forall x :: x in g <==> x in g0 && !(x in done && g0[x].refcnt == 1))
    && (forall x | x in g ::
          && g[x].hasDriver == g0[x].hasDriver
          && g[x].backing == (if x in done then None else if x == top then Some(base) else g0[x].backing)
          && g[x].refcnt == g0[x].refcnt - (if x in done then 1 else 0)
          && SameOthers(g0, g, x))
  }

  /** Blockers that do not come from overlays are the same. */
  ghost predicate SameOthers(g0: Graph, g: Graph, x: nat)
    requires x in g0 && x in g
  {
    && |g0[x].blockers| == |g[x].blockers|
    && forall op, k: nat | 0 <= op < |g[x].blockers| :: g[x].blockers[op][Other(k)] == g0[x].blockers[op][Other(k)]
  }

  /** Only overlays block the node. */
  ghost predicate OnlyOverlaysBlock(n: Node) {
    forall op, k: nat | 0 <= op < |n.blockers| :: n.blockers[op][Other(k)] == 0
  }

  lemma ReducedStart(g0: Graph, top: nat, base: nat)
    requires GraphOk(g0) && top in g0 && base in g0
    ensures GraphOk(SetBacking(g0, top, Some(base)))
    ensures Reduced(g0, SetBacking(g0, top, Some(base)), top, base, {})
  {
    SetBackingShape(g0, top, Some(base));
    SetBackingOk(g0, top, Some(base));
    assert forall x | x in g0 :: NodeOk(g0, x);
    hide SetBacking;
  }

  /** The node `x`, whose only overlay in the original graph was its neighbour `up`
      in the chain, has no overlay left once `up` points elsewhere. */
  lemma NoOverlayLeft(g0: Graph, g: Graph, top: nat, base: nat, done: set<nat>, up: nat, x: nat)
    requires Reduced(g0, g, top, base, done) && RefsOk(g0) && x in g0 && x != base && g0[x].refcnt == 1
    requires up in g0 && g0[up].backing == Some(x) && (up == top || up in done)
    ensures Overlays(g, x) == {}
  {
    forall y | y in g && g[y].backing == Some(x)
      ensures false
    {
      assert {y, up} <= Overlays(g0, x);
      assert y != up;
      TwoOverlays(g0, x, y, up);
    }
  }

  lemma TwoOverlays(g: Graph, x: nat, y: nat, z: nat)
    requires y != z && {y, z} <= Overlays(g, x)
    ensures |Overlays(g, x)| >= 2
  {
    var rest := Overlays(g, x) - {y};
    assert z in rest;
    assert |Overlays(g, x)| == |rest| + 1;
  }

  /** One round of the deletion loop: `x` loses its backing node, then a reference. */
  lemma DropOne(g0: Graph, g: Graph, top: nat, base: nat, done: set<nat>, up: nat, x: nat)
    requires GraphOk(g) && Reduced(g0, g, top, base, done) && RefsOk(g0)
    requires x in g0 && x !in done && x != base && x != top
    requires up in g0 && g0[up].backing == Some(x) && (up == top || up in done)
    requires g0[x].refcnt == 1 ==> OnlyOverlaysBlock(g0[x])
    ensures x in g && g[x].refcnt >= 1
    ensures var g1 := SetBacking(g, x, None);
            && x in g1 && (g1[x].refcnt == 1 ==> NoBlockers(g1[x].blockers))
            && (forall op | 0 <= op < |g1[x].blockers| :: g1[x].blockers[op][Backing(up)] == 0)
            && GraphOk(Unrefed(g1, x)) && Reduced(g0, Unrefed(g1, x), top, base, done + {x})
  {
    assert up in Overlays(g0, x);
    SetBackingShape(g, x, None);
    SetBackingOk(g, x, None);
    hide SetBacking;
    var g1 := SetBacking(g, x, None);
    DroppedFree(g0, g, g1, top, base, done, up, x);
    if g0[x].refcnt == 1 {
      DeletedOk(g1, x);
    } else {
      CountedOk(g1, x);
    }
    DroppedReduced(g0, g, g1, top, base, done, x);
  }

  /** Before its unref, the node has none of the chain's blockers; before its
      deletion, none at all. */
  lemma DroppedFree(g0: Graph, g: Graph, g1: Graph, top: nat, base: nat, done: set<nat>, up: nat, x: nat)
    requires GraphOk(g1) && Reduced(g0, g, top, base, done) && RefsOk(g0) && x in g0 && x in g && x != base
    requires up in g0 && g0[up].backing == Some(x) && (up == top || up in done)
    requires g0[x].refcnt == 1 ==> OnlyOverlaysBlock(g0[x])
    requires g1.Keys == g.Keys && SameOthers(g, g1, x)
    requires forall y | y in g && y != x :: g1[y].backing == g[y].backing
    requires g1[x].backing.None?
    ensures forall op | 0 <= op < |g1[x].blockers| :: g1[x].blockers[op][Backing(up)] == 0
    ensures g0[x].refcnt == 1 ==> Overlays(g1, x) == {} && NoBlockers(g1[x].blockers)
  {
    assert NodeOk(g1, x);
    forall op | 0 <= op < |g1[x].blockers|
      ensures g1[x].blockers[op][Backing(up)] == 0
    {
      assert g1[x].blockers[op][Backing(up)] == Expected(g1, x, up, op);
    }
    if g0[x].refcnt == 1 {
      NoOverlayLeft(g0, g, top, base, done, up, x);
      assert Overlays(g1, x) == {} by {
        assert forall y | y in g1 && g1[y].backing == Some(x) :: y in Overlays(g, x);
      }
      forall op | 0 <= op < |g1[x].blockers|
        ensures g1[x].blockers[op] == multiset{}
      {
        NoReason(g0, g, g1, x, op);
      }
    }
  }

  lemma NoReason(g0: Graph, g: Graph, g1: Graph, x: nat, op: nat)
    requires x in g0 && x in g && x in g1 && NodeOk(g1, x) && Overlays(g1, x) == {} && op < |g1[x].blockers|
    requires OnlyOverlaysBlock(g0[x]) && SameOthers(g0, g, x) && SameOthers(g, g1, x)
    ensures g1[x].blockers[op] == multiset{}
  {
    forall r: Reason
      ensures g1[x].blockers[op][r] == 0
    {
      match r
      case Backing(y) =>
        assert g1[x].blockers[op][Backing(y)] == Expected(g1, x, y, op);
        assert y !in Overlays(g1, x);
      case Other(k) =>
        assert g1[x].blockers[op][Other(k)] == g[x].blockers[op][Other(k)] == g0[x].blockers[op][Other(k)];
    }
  }

  lemma DeletedOk(g: Graph, x: nat)
    requires GraphOk(g) && x in g && Overlays(g, x) == {} && g[x].backing.None? && g[x].refcnt == 1
    ensures GraphOk(Unrefed(g, x))
  {
    var g' := Unrefed(g, x);
    forall z | z in g'
      ensures NodeOk(g', z)
    {
      assert NodeOk(g, z);
      assert z !in Overlays(g, x);
      forall op, y: nat | 0 <= op < BLOCK_OP_TYPE_MAX
        ensures g'[z].blockers[op][Backing(y)] == Expected(g', z, y, op)
      {
        assert g[z].blockers[op][Backing(y)] == Expected(g, z, y, op);
      }
    }
  }

  lemma CountedOk(g: Graph, x: nat)
    requires GraphOk(g) && x in g && g[x].refcnt > 1
    ensures GraphOk(Unrefed(g, x))
  {
    var g' := Unrefed(g, x);
    forall z | z in g'
      ensures NodeOk(g', z)
    {
      assert NodeOk(g, z);
      forall op, y: nat | 0 <= op < BLOCK_OP_TYPE_MAX
        ensures g'[z].blockers[op][Backing(y)] == Expected(g', z, y, op)
      {
        assert g[z].blockers[op][Backing(y)] == Expected(g, z, y, op);
      }
    }
  }

  lemma DroppedReduced(g0: Graph, g: Graph, g1: Graph, top: nat, base: nat, done: set<nat>, x: nat)
    requires Reduced(g0, g, top, base, done) && x in g && x !in done && x != top && g[x].refcnt >= 1
    requires g1.Keys == g.Keys && g1[x].backing.None?
    requires forall y | y in g ::
               g1[y].refcnt == g[y].refcnt && g1[y].hasDriver == g[y].hasDriver && SameOthers(g, g1, y)
    requires forall y | y in g && y != x :: g1[y].backing == g[y].backing
    ensures Reduced(g0, Unrefed(g1, x), top, base, done + {x})
  {
    var g' := Unrefed(g1, x);
    forall y | y in g'
      ensures SameOthers(g0, g', y)
    {
      assert SameOthers(g0, g, y) && SameOthers(g, g1, y);
      forall op, k: nat | 0 <= op < |g'[y].blockers|
        ensures g'[y].blockers[op][Other(k)] == g0[y].blockers[op][Other(k)]
      {
        assert g1[y].blockers[op][Other(k)] == g[y].blockers[op][Other(k)] == g0[y].blockers[op][Other(k)];
      }
    }
  }

  datatype Errno = Success | EIO

  /** The chain nodes from position `p` up to, not including, position `m`. */
  function Span(c: seq<nat>, p: nat, m: nat): (r: set<nat>)
    requires p <= m <= |c|
  {
    set k | p <= k < m :: c[k]
  }

  lemma SpanMore(c: seq<nat>, p: nat, k: nat)
    requires p <= k < |c|
    ensures Span(c, p, k + 1) == Span(c, p, k) + {c[k]} && Span(c, p, p) == {}
  {
  }

  /** `DropOne` along the chain: the nodes from `p` to `k` are dropped, `k` is next. */
  lemma DropAt(g0: Graph, g: Graph, c: seq<nat>, p: nat, k: nat, m: nat)
    requires IsChain(g0, c) && 1 <= p <= k < m < |c| && RefsOk(g0)
    requires GraphOk(g) && Reduced(g0, g, c[p - 1], c[m], Span(c, p, k))
    requires g0[c[k]].refcnt == 1 ==> OnlyOverlaysBlock(g0[c[k]])
    ensures c[k] in g && g[c[k]].refcnt >= 1
    ensures var g1 := SetBacking(g, c[k], None);
            && c[k] in g1 && (g1[c[k]].refcnt == 1 ==> NoBlockers(g1[c[k]].blockers))
            && g1[c[k]].refcnt >= 1 && g1[c[k]].backing.None?
            && (forall op | 0 <= op < |g1[c[k]].blockers| :: g1[c[k]].blockers[op][Backing(c[k - 1])] == 0)
            && GraphOk(Unrefed(g1, c[k])) && Reduced(g0, Unrefed(g1, c[k]), c[p - 1], c[m], Span(c, p, k + 1))
  {
    hide SetBacking, GraphOk, Reduced, RefsOk, OnlyOverlaysBlock, NoBlockers, Unrefed;
    SpanMore(c, p, k);
    AllDistinct(g0, c);
    assert g0[c[k - 1]].backing == Some(c[k]);
    assert k > p ==> c[k - 1] in Span(c, p, k);
    DropOne(g0, g, c[p - 1], c[m], Span(c, p, k), c[k - 1], c[k]);
    SetBackingShape(g, c[k], None);
  }

  class BlockDrivers {
    var nodes: Graph

    constructor (nodes: Graph)
      ensures this.nodes == nodes
    {
      this.nodes := nodes;
    }

    /** `bdrv_op_block_all` */
    method OpBlockAll(x: nat, r: Reason)
      requires x in nodes && |nodes[x].blockers| == BLOCK_OP_TYPE_MAX
      modifies this
      ensures nodes == WithBlockers(old(nodes), x, BlockedAll(old(nodes)[x].blockers, r))
    {
      var b := nodes[x].blockers;
      var op := 0;
      while op < BLOCK_OP_TYPE_MAX
        invariant op <= BLOCK_OP_TYPE_MAX && |b| == BLOCK_OP_TYPE_MAX && nodes == old(nodes)
        invariant forall k | 0 <= k < BLOCK_OP_TYPE_MAX ::
                    b[k] == if k < op then BlockedAll(nodes[x].blockers, r)[k] else nodes[x].blockers[k]
      {
        b := b[op := b[op][r := b[op][r] + 1]];
        op := op + 1;
      }
      assert b == BlockedAll(nodes[x].blockers, r);
      nodes := nodes[x := nodes[x].(blockers := b)];
    }

    /** `bdrv_op_unblock_all` */
    method OpUnblockAll(x: nat, r: Reason)
      requires x in nodes && |nodes[x].blockers| == BLOCK_OP_TYPE_MAX
      modifies this
      ensures nodes == WithBlockers(old(nodes), x, UnblockedAll(old(nodes)[x].blockers, r))
    {
      var b := nodes[x].blockers;
      var op := 0;
      while op < BLOCK_OP_TYPE_MAX
        invariant op <= BLOCK_OP_TYPE_MAX && |b| == BLOCK_OP_TYPE_MAX && nodes == old(nodes)
        invariant forall k | 0 <= k < BLOCK_OP_TYPE_MAX ::
                    b[k] == if k < op then UnblockedAll(nodes[x].blockers, r)[k] else nodes[x].blockers[k]
      {
        b := b[op := b[op][r := 0]];
        op := op + 1;
      }
      assert b == UnblockedAll(nodes[x].blockers, r);
      nodes := nodes[x := nodes[x].(blockers := b)];
    }

    /** `bdrv_set_backing_hd` */
    method SetBackingHd(b: nat, n: Option<nat>)
      requires GraphOk(nodes) && b in nodes && (n.Some? ==> n.value in nodes)
      modifies this
      ensures nodes == SetBacking(old(nodes), b, n)
      ensures GraphOk(nodes)
    {
      SetBackingOk(nodes, b, n);
      assert NodeOk(nodes, b) && forall x | x in nodes :: NodeOk(nodes, x);
      if nodes[b].backing.Some? {
        OpUnblockAll(nodes[b].backing.value, Backing(b));
      }
      nodes := nodes[b := nodes[b].(backing := n, hasBlocker := n.Some?)];
      if n.None? {
        return;
      }
      OpBlockAll(n.value, Backing(b));
      var bs := nodes[n.value].blockers;
      nodes := nodes[n.value := nodes[n.value].(blockers := bs[COMMIT_TARGET := bs[COMMIT_TARGET][Backing(b) := 0]])];
    }

    /** `bdrv_unref`; deleting asserts that no operation is blocked. */
    method Unref(x: nat)
      requires x in nodes && nodes[x].refcnt > 0
      requires nodes[x].refcnt == 1 ==> NoBlockers(nodes[x].blockers) && nodes[x].backing.None?
      modifies this
      ensures nodes == Unrefed(old(nodes), x)
    {
      var refcnt := nodes[x].refcnt - 1;
      if refcnt == 0 {
        nodes := nodes - {x};
      } else {
        nodes := nodes[x := nodes[x].(refcnt := refcnt)];
      }
    }

    /** `bdrv_find_overlay`; `bs` may be `None`, for the end of the chain. */
    method FindOverlay(active: nat, bs: Option<nat>, ghost c: seq<nat>) returns (r: Option<nat>)
      requires IsChain(nodes, c) && active == c[0]
      ensures r.None? <==> forall k | 0 <= k < |c| :: Below(c, k) != bs
      ensures forall k | 0 <= k < |c| && Below(c, k) == bs :: r == Some(c[k])
    {
      var cur := Some(active);
      ghost var i: nat := 0;
      while cur.Some? && nodes[cur.value].backing != bs
        invariant cur.Some? ==> i < |c| && cur.value == c[i]
        invariant cur.None? ==> i == |c|
        invariant forall k | 0 <= k < i && k < |c| :: Below(c, k) != bs
        decreases |c| - i
      {
        assert Below(c, i) == nodes[c[i]].backing;
        cur := nodes[cur.value].backing;
        i := i + 1;
      }
      if cur.Some? {
        assert Below(c, i) == nodes[c[i]].backing;
        forall k | 0 <= k < |c| && Below(c, k) == bs
          ensures k == i
        {
          SameBelow(nodes, c, i, k);
        }
      }
      return cur;
    }

    /** `bdrv_drop_intermediate`: `changeOk` is the success of
        `bdrv_change_backing_file`, `c` the chain of `active`. A node to be dropped
        whose only reference is the chain's must not be blocked for other reasons:
        `bdrv_delete` asserts it. */
    method DropIntermediate(active: nat, top: nat, base: nat, changeOk: bool, ghost c: seq<nat>) returns (ret: Errno)
      requires GraphOk(nodes) && RefsOk(nodes) && IsChain(nodes, c) && active == c[0] && top in nodes && base in nodes
      requires forall k | 1 <= Find(c, top) <= k < Find(c, base) < |c| && nodes[c[k]].refcnt == 1 ::
                 OnlyOverlaysBlock(nodes[c[k]])
      modifies this
      ensures ret == EIO ==> nodes == old(nodes)
      ensures ret == Success <==>
                && old(nodes)[top].hasDriver && old(nodes)[base].hasDriver
                && 1 <= Find(c, top) <= Find(c, base) < |c| && (top == base || changeOk)
      ensures ret == Success && top == base ==> nodes == old(nodes)
      ensures ret == Success && top != base ==>
                && GraphOk(nodes) && RefsOk(nodes)
                && Reduced(old(nodes), nodes, c[Find(c, top) - 1], base, Span(c, Find(c, top), Find(c, base)))
    {
      hide GraphOk, Reduced, RefsOk, OnlyOverlaysBlock, Find, Span, Below, SetBacking;
      ghost var p, m := Find(c, top), Find(c, base);
      AllDistinct(nodes, c);
      if !nodes[top].hasDriver || !nodes[base].hasDriver {
        return EIO;
      }
      var newTop := FindOverlay(active, Some(top), c);
      OverlayFound(c, top, newTop);
      if newTop.None? {
        return EIO;
      }
      if nodes[newTop.value].backing == Some(base) {
        assert c[p] == base;
        return Success;
      }
      var queue, found := CollectIntermediates(top, base, c, p);
      if !found || !changeOk {
        return EIO;
      }
      assert m == p + |queue|;
      ReducedStart(nodes, c[p - 1], base);
      ghost var g0 := nodes;
      SetBackingHd(newTop.value, Some(base));
      DeleteAll(queue, g0, c, p);
      DropKeepsRefs(g0, nodes, c, p, m);
      return Success;
    }

    /** The walk from `top` down to the node above `base`. */
    method CollectIntermediates(top: nat, base: nat, ghost c: seq<nat>, ghost p: nat)
      returns (queue: seq<nat>, found: bool)
      requires IsChain(nodes, c) && p < |c| && c[p] == top && top != base
      ensures found ==> p + |queue| < |c| && queue == c[p..p + |queue|] && c[p + |queue|] == base
      ensures !found ==> forall k | p <= k < |c| :: c[k] != base
    {
      queue := [];
      var cur := Some(top);
      ghost var i := p;
      while cur.Some?
        invariant p <= i <= |c| && queue == c[p..i] && forall k | p <= k < i :: c[k] != base
        invariant if cur.Some? then i < |c| && cur.value == c[i] && c[i] != base else i == |c|
        decreases |c| - i
      {
        queue := queue + [cur.value];
        if nodes[cur.value].backing == Some(base) {
          return queue, true;
        }
        cur := nodes[cur.value].backing;
        i := i + 1;
      }
      return queue, false;
    }

    /** The deletion loop. */
    method DeleteAll(queue: seq<nat>, ghost g0: Graph, ghost c: seq<nat>, ghost p: nat)
      requires GraphOk(nodes) && RefsOk(g0) && IsChain(g0, c) && 1 <= p && p + |queue| < |c|
      requires queue == c[p..p + |queue|]
      requires Reduced(g0, nodes, c[p - 1], c[p + |queue|], {})
      requires forall k | p <= k < p + |queue| && g0[c[k]].refcnt == 1 :: OnlyOverlaysBlock(g0[c[k]])
      modifies this
      ensures GraphOk(nodes) && Reduced(g0, nodes, c[p - 1], c[p + |queue|], Span(c, p, p + |queue|))
    {
      hide GraphOk, Reduced, RefsOk, OnlyOverlaysBlock, NoBlockers, SetBacking, Unrefed, Span;
      SpanMore(c, p, p);
      ghost var m := p + |queue|;
      var i := 0;
      while i < |queue|
        invariant i <= |queue|
        invariant GraphOk(nodes) && Reduced(g0, nodes, c[p - 1], c[m], Span(c, p, p + i))
      {
        DropAt(g0, nodes, c, p, p + i, m);
        SetBackingHd(queue[i], None);
        Unref(queue[i]);
        i := i + 1;
      }
    }
  }

  lemma SameBelow(g: Graph, c: seq<nat>, i: nat, k: nat)
    requires IsChain(g, c) && i < |c| && k < |c| && Below(c, i) == Below(c, k)
    ensures i == k
  {
    if i < k && k + 1 < |c| {
      ChainDistinct(g, c, i + 1, k + 1);
    } else if k < i && i + 1 < |c| {
      ChainDistinct(g, c, k + 1, i + 1);
    }
  }

  lemma AllDistinct(g: Graph, c: seq<nat>)
    requires IsChain(g, c)
    ensures forall i, j | 0 <= i < j < |c| :: c[i] != c[j]
  {
    forall i, j | 0 <= i < j < |c|
      ensures c[i] != c[j]
    {
      ChainDistinct(g, c, i, j);
    }
  }

  lemma OverlayFound(c: seq<nat>, top: nat, r: Option<nat>)
    requires forall i, j | 0 <= i < j < |c| :: c[i] != c[j]
    requires r.None? <==> forall k | 0 <= k < |c| :: Below(c, k) != Some(top)
    requires forall k | 0 <= k < |c| && Below(c, k) == Some(top) :: r == Some(c[k])
    ensures r.Some? <==> 1 <= Find(c, top) < |c|
    ensures r.Some? ==> r.value == c[Find(c, top) - 1]
  {
    hide Find;
    var p := Find(c, top);
    assert 1 <= p < |c| ==> Below(c, p - 1) == Some(top);
    if r.Some? {
      var k :| 0 <= k < |c| && Below(c, k) == Some(top);
      assert p == k + 1;
    }
  }

  // ---- What a drop means ----

  /** The overlays of `x` after the drop: the dropped nodes and the top one no longer
      count, except that the top one is now an overlay of the base. */
  lemma OverlaysAfter(g0: Graph, g: Graph, c: seq<nat>, p: nat, m: nat, x: nat)
    requires IsChain(g0, c) && 1 <= p < m < |c| && Reduced(g0, g, c[p - 1], c[m], Span(c, p, m))
    ensures Overlays(g, x) == Overlays(g0, x) - Span(c, p - 1, m) + if x == c[m] then {c[p - 1]} else {}
  {
    AllDistinct(g0, c);
    var q := p - 1;
    var all, lower := Span(c, q, m), Span(c, p, m);
    assert all == lower + {c[q]} by {
      forall y | y in all
        ensures y in lower + {c[q]}
      {
        var k :| q <= k < m && c[k] == y;
      }
    }
    assert c[p - 1] !in Span(c, p, m);
  }

  /** Which of them were overlays of `x`: the chain node right above it. */
  lemma OverlaysBefore(g0: Graph, c: seq<nat>, p: nat, m: nat, x: nat)
    requires IsChain(g0, c) && 1 <= p < m < |c|
    ensures forall k | p <= k <= m && x == c[k] :: Overlays(g0, x) * Span(c, p - 1, m) == {c[k - 1]}
    ensures (forall k | p <= k <= m :: x != c[k]) ==> Overlays(g0, x) * Span(c, p - 1, m) == {}
  {
    AllDistinct(g0, c);
    var both := Overlays(g0, x) * Span(c, p - 1, m);
    forall y | y in both
      ensures exists k :: p <= k <= m && x == c[k] && y == c[k - 1]
    {
      var j :| p - 1 <= j < m && c[j] == y;
      assert g0[c[j]].backing == Some(c[j + 1]);
      assert p <= j + 1 <= m && x == c[j + 1] && y == c[j + 1 - 1];
    }
    forall k | p <= k <= m && x == c[k]
      ensures Overlays(g0, x) * Span(c, p - 1, m) == {c[k - 1]}
    {
      assert g0[c[k - 1]].backing == Some(c[k - 1 + 1]);
      assert c[k - 1] in Span(c, p - 1, m);
    }
  }

  /** References are conserved: what the chain's overlays held moves with the edges,
      so every surviving node keeps exactly its other references. The base node gets
      the overlay's reference in place of the lowest intermediate's. */
  lemma DropConservesRefs(g0: Graph, g: Graph, c: seq<nat>, p: nat, m: nat, x: nat)
    requires IsChain(g0, c) && 1 <= p < m < |c|
    requires Reduced(g0, g, c[p - 1], c[m], Span(c, p, m)) && x in g
    ensures External(g, x) == External(g0, x)
  {
    hide IsChain, Overlays, SameOthers;
    OverlaysCounted(g0, g, c, p, m, x);
  }

  /** So overlays still hold a reference each, and the next drop can follow. */
  lemma DropKeepsRefs(g0: Graph, g: Graph, c: seq<nat>, p: nat, m: nat)
    requires IsChain(g0, c) && 1 <= p < m < |c| && RefsOk(g0)
    requires Reduced(g0, g, c[p - 1], c[m], Span(c, p, m))
    ensures RefsOk(g)
  {
    hide IsChain, Overlays, Span, SameOthers;
    forall x | x in g
      ensures |Overlays(g, x)| <= g[x].refcnt
    {
      DropConservesRefs(g0, g, c, p, m, x);
    }
  }

  lemma OverlaysCounted(g0: Graph, g: Graph, c: seq<nat>, p: nat, m: nat, x: nat)
    requires IsChain(g0, c) && 1 <= p < m < |c|
    requires Reduced(g0, g, c[p - 1], c[m], Span(c, p, m))
    ensures |Overlays(g, x)| == |Overlays(g0, x)| - (if x in Span(c, p, m) then 1 else 0)
  {
    hide IsChain, Overlays, Reduced, Span;
    OverlaysAfter(g0, g, c, p, m, x);
    OverlaysBefore(g0, c, p, m, x);
    var before, moved := Overlays(g0, x), Span(c, p - 1, m);
    if x in Span(c, p, m) {
      var k := SpanIndex(c, p, m, x);
      ChainDistinct(g0, c, k, m);
      OneLess(before, moved, c[k - 1]);
      assert Overlays(g, x) == before - moved;
    } else if x == c[m] {
      OneLess(before, moved, c[m - 1]);
      InSpan(c, p - 1, m, p - 1);
      OneMore(before - moved, c[p - 1]);
    } else {
      forall k | p <= k <= m
        ensures x != c[k]
      {
        if k < m {
          InSpan(c, p, m, k);
        }
      }
      assert Overlays(g, x) == before;
    }
  }

  lemma SpanIndex(c: seq<nat>, p: nat, m: nat, x: nat) returns (k: nat)
    requires p <= m <= |c| && x in Span(c, p, m)
    ensures p <= k < m && c[k] == x
  {
    k :| p <= k < m && c[k] == x;
  }

  lemma InSpan(c: seq<nat>, p: nat, m: nat, k: nat)
    requires p <= k < m <= |c|
    ensures c[k] in Span(c, p, m)
  {
  }

  lemma OneLess(s: set<nat>, moved: set<nat>, e: nat)
    requires s * moved == {e}
    ensures |s - moved| == |s| - 1
  {
    assert e in s * moved;
    assert s - moved == s - {e};
  }

  lemma OneMore(s: set<nat>, e: nat)
    requires e !in s
    ensures |s + {e}| == |s| + 1
  {
  }

  /** After the drop no chain node but the new top blocks the base, and the top one
      blocks it for everything but committing into it. */
  lemma DropBlocksBase(g0: Graph, g: Graph, c: seq<nat>, p: nat, m: nat, k: nat, op: nat)
    requires IsChain(g0, c) && 1 <= p < m < |c| && GraphOk(g)
    requires Reduced(g0, g, c[p - 1], c[m], Span(c, p, m)) && k < |c| && op < BLOCK_OP_TYPE_MAX
    ensures c[m] in g && |g[c[m]].blockers| == BLOCK_OP_TYPE_MAX
    ensures g[c[m]].blockers[op][Backing(c[k])] == if k == p - 1 && op != COMMIT_TARGET then 1 else 0
  {
    AllDistinct(g0, c);
    assert c[m] !in Span(c, p, m) && c[p - 1] !in Span(c, p, m);
    assert NodeOk(g, c[m]);
    assert g[c[m]].blockers[op][Backing(c[k])] == Expected(g, c[m], c[k], op);
    if k != p - 1 && c[k] in g {
      if p <= k < m {
        assert c[k] in Span(c, p, m);
      } else {
        assert g[c[k]].backing == g0[c[k]].backing;
        assert k < |c| - 1 ==> g0[c[k]].backing == Some(c[k + 1]);
      }
    }
  }
}
