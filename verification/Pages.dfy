/** Page-size arithmetic shared by the models. */
module Pages {
  import opened Radix

  const ADDR_SPACE_BITS: nat := 64
  const TWO64: nat := 0x1_0000_0000_0000_0000

  /** Targets define pages of 1K to 64K bytes; every proof holds for all of them. */
  type PageBits = b: nat | 10 <= b <= 16 witness 12
  const TARGET_PAGE_BITS: PageBits

  function Pow2(n: nat): (r: nat)
    ensures r >= 1
  {
    if n == 0 then 1 else 2 * Pow2(n - 1)
  }

  type Positive = n: nat | n >= 1 witness 1
  const PAGE_SIZE: Positive := Pow2(TARGET_PAGE_BITS)

  const P_L2_LEVELS: nat := (ADDR_SPACE_BITS - TARGET_PAGE_BITS - 1) / P_L2_BITS + 1

  /** Number of pages of the 64-bit address space. */
  const NPAGES: nat := Pow2(ADDR_SPACE_BITS - TARGET_PAGE_BITS)

  function Max(a: nat, b: nat): nat { if a < b then b else a }
  function Min(a: nat, b: nat): nat { if a < b then a else b }

  function PageOf(addr: nat): (p: nat) {
    Quotient(addr, PAGE_SIZE)
  }

  function Quotient(x: nat, s: Positive): (q: nat)
    ensures q * s <= x < q * s + s
  {
    x / s
  }

  function PageBase(p: nat): (addr: nat) {
    p * PAGE_SIZE
  }

  lemma {:induction false} Pow2Add(a: nat, b: nat)
    ensures Pow2(a + b) == Pow2(a) * Pow2(b)
  {
    if a > 0 {
      Pow2Add(a - 1, b);
      Doubled(Pow2(a - 1), Pow2(b));
    }
  }

  lemma Doubled(x: nat, y: nat)
    ensures 2 * (x * y) == (2 * x) * y
  {
  }

  lemma {:induction false} Pow2Mono(a: nat, b: nat)
    requires a <= b
    ensures Pow2(a) <= Pow2(b)
  {
    if a < b {
      Pow2Mono(a, b - 1);
    }
  }

  lemma {:induction false} SpanIsPow2(k: nat)
    ensures Span(k) == Pow2(P_L2_BITS * k)
  {
    if k > 0 {
      SpanIsPow2(k - 1);
      Pow2Add(P_L2_BITS, P_L2_BITS * (k - 1));
      Pow2Nine();
    }
  }

  lemma Pow2Nine()
    ensures Pow2(1) == 2 && Pow2(3) == 8 && Pow2(6) == 64 && Pow2(9) == 512
  {
    Pow2Add(3, 3);
    Pow2Add(6, 3);
  }

  lemma PageFacts()
    ensures 1024 <= PAGE_SIZE <= 65536
    ensures PAGE_SIZE * NPAGES == TWO64
    ensures 1 <= NPAGES <= Span(P_L2_LEVELS)
    ensures P_L2_LEVELS == 6
  {
    PageSizeFacts();
    Pow2Add(TARGET_PAGE_BITS, ADDR_SPACE_BITS - TARGET_PAGE_BITS);
    LevelsSuffice();
  }

  lemma PageSizeFacts()
    ensures 1024 <= PAGE_SIZE <= 65536
    ensures Pow2(64) == TWO64
  {
    Pow2Powers();
    hide Pow2;
    Pow2Mono(10, TARGET_PAGE_BITS);
    Pow2Mono(TARGET_PAGE_BITS, 16);
  }

  lemma Pow2Powers()
    ensures Pow2(10) == 1024 && Pow2(16) == 65536 && Pow2(64) == TWO64
  {
    Pow2Nine();
    hide Pow2;
    Pow2Add(9, 1);
    Pow2Add(10, 6);
    Pow2Add(16, 16);
    Pow2Add(32, 32);
  }

  /** The tree has enough levels for every page. */
  lemma LevelsSuffice()
    ensures NPAGES <= Span(P_L2_LEVELS)
    ensures P_L2_LEVELS == 6
  {
    SpanIsPow2(P_L2_LEVELS);
    Pow2Mono(ADDR_SPACE_BITS - TARGET_PAGE_BITS, P_L2_BITS * P_L2_LEVELS);
  }

  lemma AddrParts(addr: nat)
    ensures addr == PageBase(PageOf(addr)) + addr % PAGE_SIZE && addr % PAGE_SIZE < PAGE_SIZE
    ensures addr < TWO64 ==> PageOf(addr) < NPAGES
  {
    hide Pow2, Span;
    PageFacts();
    var q := PageOf(addr);
    DivModUnique(addr, PAGE_SIZE, q, addr - PageBase(q));
    if addr < TWO64 && q >= NPAGES {
      MulMono(NPAGES, q, PAGE_SIZE);
    }
  }

  /** An address on page `p` splits into page and offset in one way. */
  lemma AddrOnPage(addr: nat, p: nat)
    ensures PageBase(p) <= addr < PageBase(p) + PAGE_SIZE <==> PageOf(addr) == p
    ensures PageOf(addr) == p ==> addr % PAGE_SIZE == addr - PageBase(p)
  {
    hide Pow2, Span;
    PageFacts();
    AddrParts(addr);
    if PageBase(p) <= addr < PageBase(p) + PAGE_SIZE {
      DivModUnique(addr, PAGE_SIZE, p, addr - PageBase(p));
    }
  }

  lemma PageBaseMono(p: nat, q: nat)
    requires p < q
    ensures PageBase(p) + PAGE_SIZE <= PageBase(q)
  {
    hide Pow2, Span;
    PageFacts();
    MulMono(p + 1, q, PAGE_SIZE);
  }

  lemma PageEnd(p: nat)
    requires p < NPAGES
    ensures PageBase(p) + PAGE_SIZE <= TWO64
  {
    hide Pow2, Span;
    PageFacts();
    if p + 1 < NPAGES {
      PageBaseMono(p, p + 1);
    }
    MulMono(p + 1, NPAGES, PAGE_SIZE);
  }

  lemma PageBaseAdd(x: nat, y: nat)
    ensures PageBase(x + y) == PageBase(x) + PageBase(y)
  {
    Distribute(x, y, PAGE_SIZE);
  }

  lemma PageBaseNext(i: nat)
    ensures PageBase(0) == 0 && PageBase(i + 1) == PageBase(i) + PAGE_SIZE
  {
    Distribute(i, 1, PAGE_SIZE);
  }

  lemma Distribute(x: nat, y: nat, z: nat)
    ensures (x + y) * z == x * z + y * z
  {
  }

  lemma PageBaseBound(b: nat)
    requires PageBase(b) <= TWO64
    ensures b <= NPAGES
  {
    hide Pow2, Span;
    PageFacts();
    if b > NPAGES {
      PageBaseMono(NPAGES, b);
    }
  }
}
