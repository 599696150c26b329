/**
 Dirty page bitmaps (lib/dma.h, lib/dma.c): one bit per page, packed eight to a
 byte, and the page range that is computed for a piece of a DMA transfer.
 */
module DirtyBitmap {
  import opened Common

  const CHAR_BIT := 8

  /** Number of bytes needed for the bitmap of a region, or None (EINVAL). */
  function BitmapSize(regionSize: nat, pgsize: nat): (r: Option<nat>) {
    if pgsize == 0 || regionSize < pgsize then None
    else Some(Ceil(Ceil(regionSize, pgsize), CHAR_BIT))
  }

  function Ceil(n: nat, d: nat): nat
    requires d > 0
  {
    n / d + if n % d != 0 then 1 else 0
  }

  predicate BitAt(bm: seq<bv8>, q: nat, k: nat)
    requires k < CHAR_BIT
  {
    q < |bm| && bm[q] & Mask(k) != 0
  }

  function SetAt(bm: seq<bv8>, q: nat, k: nat): seq<bv8>
    requires q < |bm| && k < CHAR_BIT
  {
    bm[q := bm[q] | Mask(k)]
  }

  /** Whether page i is marked. Pages beyond the bitmap never are. */
  predicate Bit(bm: seq<bv8>, i: nat) {
    BitAt(bm, i / CHAR_BIT, i % CHAR_BIT)
  }

  function SetBit(bm: seq<bv8>, i: nat): seq<bv8>
    requires i / CHAR_BIT < |bm|
  {
    SetAt(bm, i / CHAR_BIT, i % CHAR_BIT)
  }

  /** First page of a piece: the region base is subtracted from the offset, in 64 bits. */
  function PgStart(pgsize: nat, base: nat, offset: nat): nat
    requires pgsize > 0
  {
    (offset - base) % U64 / pgsize
  }

  /** One past the last page of a piece of len bytes whose first page is start. */
  function PgLimit(pgsize: nat, len: nat, start: nat): nat
    requires pgsize > 0
  {
    start + Ceil(len, pgsize)
  }

  /** The bitmap after pages [start, limit) have been marked. */
  function MarkRange(bm: seq<bv8>, start: nat, limit: nat): (r: seq<bv8>)
    requires start < limit ==> (limit - 1) / CHAR_BIT < |bm|
    ensures |r| == |bm|
    decreases limit - start
  {
    if start >= limit then bm else SetBit(MarkRange(bm, start, limit - 1), limit - 1)
  }

  lemma MaskDistinct(b: bv8, k: nat, m: nat)
    requires k < CHAR_BIT && m < CHAR_BIT
    ensures (b | Mask(k)) & Mask(m) != 0 <==> k == m || b & Mask(m) != 0
  {
  }

  lemma SetAtSets(bm: seq<bv8>, q: nat, k: nat, r: nat, m: nat)
    requires q < |bm| && k < CHAR_BIT && m < CHAR_BIT
    ensures BitAt(SetAt(bm, q, k), r, m) <==> (q == r && k == m) || BitAt(bm, r, m)
  {
    MaskDistinct(bm[q], k, m);
  }

  lemma SetBitSets(bm: seq<bv8>, i: nat, j: nat)
    requires i / CHAR_BIT < |bm|
    ensures Bit(SetBit(bm, i), j) <==> i == j || Bit(bm, j)
  {
    SetAtSets(bm, i / CHAR_BIT, i % CHAR_BIT, j / CHAR_BIT, j % CHAR_BIT);
  }

  function Pow2(k: nat): nat {
    if k == 0 then 1 else 2 * Pow2(k - 1)
  }

  /** The bits of a byte are numbered from the least significant one. */
  lemma MaskIsPower(k: nat)
    requires k < CHAR_BIT
    ensures Mask(k) as nat == Pow2(k)
  {
    assert Pow2(0) == 1 && Pow2(1) == 2 && Pow2(2) == 4 && Pow2(3) == 8;
    assert Pow2(4) == 2 * Pow2(3);
    assert Pow2(5) == 2 * Pow2(4);
    assert Pow2(6) == 2 * Pow2(5);
    assert Pow2(7) == 2 * Pow2(6);
  }

  /** Marking a range adds exactly the pages of that range. */
  lemma {:induction false} MarkRangeAdds(bm: seq<bv8>, start: nat, limit: nat, j: nat)
    requires start < limit ==> (limit - 1) / CHAR_BIT < |bm|
    ensures Bit(MarkRange(bm, start, limit), j) <==> start <= j < limit || Bit(bm, j)
    decreases limit - start
  {
    if start < limit {
      MarkRangeAdds(bm, start, limit - 1, j);
      SetBitSets(MarkRange(bm, start, limit - 1), limit - 1, j);
    }
  }

  function Page(pgsize: nat, b: nat): nat
    requires pgsize > 0
  {
    b / pgsize
  }

  /** Whether bytes [offset, offset + len) of a region lie partly on the given page. */
  ghost predicate Touched(pgsize: nat, offset: nat, len: nat, page: nat)
    requires pgsize > 0
  {
    exists b: nat :: offset <= b < offset + len && Page(pgsize, b) == page
  }

  lemma LeDiv(k: int, x: int, p: nat)
    requires p > 0
    ensures k <= x / p <==> k * p <= x
  {
    var q := x / p;
    assert x == q * p + x % p;
    if k <= q {
      assert k * p <= q * p;
    } else {
      assert (q + 1) * p <= k * p;
    }
  }

  lemma DivAdd(a: nat, b: nat, p: nat)
    requires p > 0
    ensures (a + b) / p == a / p + b / p + if a % p + b % p >= p then 1 else 0
  {
    var q := a / p + b / p + if a % p + b % p >= p then 1 else 0;
    assert q * p == a / p * p + b / p * p + if a % p + b % p >= p then p else 0;
    LeDiv(q, a + b, p);
    LeDiv(q + 1, a + b, p);
  }

  lemma DivMonotone(a: int, b: int, p: nat)
    requires p > 0 && a <= b
    ensures a / p <= b / p
  {
    LeDiv(a / p, a, p);
    LeDiv(a / p, b, p);
  }

  lemma CeilIsLastPlusOne(n: nat, p: nat)
    requires p > 0 && n > 0
    ensures Ceil(n, p) == (n - 1) / p + 1
  {
    var c := Ceil(n, p);
    assert n == n / p * p + n % p;
    LeDiv(c - 1, n - 1, p);
    LeDiv(c, n - 1, p);
  }

  lemma PageBounds(p: nat, b: nat, page: nat)
    requires p > 0
    ensures Page(p, b) == page <==> page * p <= b < page * p + p
  {
    LeDiv(page, b, p);
    LeDiv(page + 1, b, p);
  }

  lemma TouchedLiesBetween(p: nat, o: nat, l: nat, page: nat)
    requires p > 0 && Touched(p, o, l, page)
    ensures Page(p, o) <= page <= Page(p, o + l - 1)
  {
    var b: nat :| o <= b < o + l && Page(p, b) == page;
    DivMonotone(o, b, p);
    DivMonotone(b, o + l - 1, p);
  }

  lemma BetweenIsTouched(p: nat, o: nat, l: nat, page: nat)
    requires p > 0 && l > 0
    requires Page(p, o) <= page <= Page(p, o + l - 1)
    ensures Touched(p, o, l, page)
  {
    LeDiv(page + 1, o, p);
    LeDiv(page, o + l - 1, p);
    var b := Max(o, page * p);
    PageBounds(p, b, page);
    assert Page(p, b) == page;
  }

  /**
   A region that can be logged: it fits in the address space and has at least one page, and pages
   have more than one byte, so that page numbers do not wrap around.
   */
  predicate Loggable(pgsize: nat, base: nat, regionLen: nat) {
    pgsize > 1 && base + regionLen <= U64 && pgsize <= regionLen
  }

  lemma PageBelow(p: nat, o: nat, x: nat)
    requires p > 0 && x <= o
    ensures x / p == Page(p, o) <==> o - x <= o % p
    ensures x / p <= Page(p, o)
  {
    var q := Page(p, o);
    assert o == q * p + o % p;
    LeDiv(q, x, p);
    DivMonotone(x, o, p);
  }

  lemma PageAbove(p: nat, o: nat, x: nat)
    requires p > 0 && x >= o + p
    ensures x / p != Page(p, o) && o % p <= o
  {
    var q := Page(p, o);
    assert o == q * p + o % p && q * p >= 0;
    LeDiv(q + 1, x, p);
  }

  lemma Wrapped(o: nat, base: nat)
    requires o < U64 && base <= U64
    ensures (o - base) % U64 == if base <= o then o - base else U64 - base + o
  {
  }

  /** The base is at most the offset within its page. */
  predicate LowBase(p: nat, base: nat, o: nat)
    requires p > 0
  {
    base <= o % p
  }

  /** The remainders of offset and length carry into another page. */
  predicate Carries(p: nat, o: nat, l: nat)
    requires p > 0 && l > 0
  {
    o % p + (l - 1) % p >= p
  }

  /** The first page is computed right if and only if the base is at most the offset in that page. */
  lemma FirstPageExact(p: nat, base: nat, regionLen: nat, o: nat)
    requires Loggable(p, base, regionLen) && o < regionLen
    ensures PgStart(p, base, o) == Page(p, o) <==> LowBase(p, base, o)
    ensures base <= o ==> PgStart(p, base, o) <= Page(p, o)
  {
    hide Page;
    Wrapped(o, base);
    if base <= o {
      PageBelow(p, o, o - base);
    } else {
      PageAbove(p, o, U64 - base + o);
    }
  }

  /** The last page is one further than that of an aligned piece exactly when the remainders carry. */
  lemma LastPage(p: nat, o: nat, l: nat)
    requires p > 0 && l > 0
    ensures Page(p, o + l - 1) == Page(p, o) + Ceil(l, p) - 1 + if Carries(p, o, l) then 1 else 0
    ensures Ceil(l, p) > 0
  {
    CeilIsLastPlusOne(l, p);
    DivAdd(o, l - 1, p);
  }

  ghost predicate ComputedPagesAreTouched(p: nat, base: nat, o: nat, l: nat)
    requires p > 0
  {
    forall page: nat ::
      PgStart(p, base, o) <= page < PgLimit(p, l, PgStart(p, base, o)) <==> Touched(p, o, l, page)
  }

  lemma SameIntervals(p: nat, base: nat, o: nat, l: nat)
    requires p > 0 && l > 0 && Ceil(l, p) > 0
    ensures ComputedPagesAreTouched(p, base, o, l) <==>
            PgStart(p, base, o) == Page(p, o) && PgLimit(p, l, PgStart(p, base, o)) == Page(p, o + l - 1) + 1
  {
    var s, t, a, b := PgStart(p, base, o), PgLimit(p, l, PgStart(p, base, o)), Page(p, o), Page(p, o + l - 1);
    forall page: nat
      ensures Touched(p, o, l, page) <==> a <= page <= b
    {
      if a <= page <= b {
        BetweenIsTouched(p, o, l, page);
      }
      if Touched(p, o, l, page) {
        TouchedLiesBetween(p, o, l, page);
      }
    }
    DivMonotone(o, o + l - 1, p);
    if ComputedPagesAreTouched(p, base, o, l) {
      assert Touched(p, o, l, s) && Touched(p, o, l, t - 1);
      assert Touched(p, o, l, a) && Touched(p, o, l, b);
    }
  }

  /**
   The pages computed for a piece are exactly the pages it touches if and only if the
   region base is no larger than the piece's offset within its first page, and the piece
   does not reach one page further than a page-aligned piece of the same length.
   */
  lemma PageRangeExact(p: nat, base: nat, regionLen: nat, o: nat, l: nat)
    requires Loggable(p, base, regionLen) && 0 < l && o + l <= regionLen
    ensures ComputedPagesAreTouched(p, base, o, l) <==> LowBase(p, base, o) && !Carries(p, o, l)
  {
    hide ComputedPagesAreTouched, Page, PgStart, Ceil, LowBase, Carries;
    FirstPageExact(p, base, regionLen, o);
    LastPage(p, o, l);
    SameIntervals(p, base, o, l);
  }

  /** Computed pages stay inside the region's bitmap whenever the offset reaches the region base. */
  lemma PageRangeInBitmap(p: nat, base: nat, regionLen: nat, o: nat, l: nat)
    requires Loggable(p, base, regionLen) && 0 < l && base <= o && o + l <= regionLen
    ensures PgLimit(p, l, PgStart(p, base, o)) <= Ceil(regionLen, p)
    ensures (PgLimit(p, l, PgStart(p, base, o)) - 1) / CHAR_BIT < BitmapSize(regionLen, p).value
  {
    FirstPageExact(p, base, regionLen, o);
    LastPage(p, o, l);
    DivMonotone(o + l - 1, regionLen - 1, p);
    CeilIsLastPlusOne(regionLen, p);
    LastByte(PgLimit(p, l, PgStart(p, base, o)), Ceil(regionLen, p));
  }

  lemma LastByte(limit: nat, pages: nat)
    requires limit <= pages && pages > 0
    ensures (limit - 1) / CHAR_BIT < Ceil(pages, CHAR_BIT)
  {
    CeilIsLastPlusOne(pages, CHAR_BIT);
    DivMonotone(limit - 1, pages - 1, CHAR_BIT);
  }

  lemma AtMostHalf(x: nat, p: nat)
    requires p > 1
    ensures x / p <= x / 2
  {
    var q := x / p;
    LeDiv(q, x, p);
    TimesAtMost(2, p, q);
    LeDiv(q, x, 2);
  }

  /** Pages of more than one byte: the sum that gives the end of a page range does not wrap around. */
  lemma PageLimitFits(p: nat, base: nat, regionLen: nat, o: nat, l: nat)
    requires Loggable(p, base, regionLen) && 0 < l && o + l <= regionLen
    ensures PgLimit(p, l, PgStart(p, base, o)) < U64
  {
    CeilIsLastPlusOne(l, p);
    AtMostHalf((o - base) % U64, p);
    AtMostHalf(l - 1, p);
  }

  lemma LastByteOutside(limit: nat, bytes: nat)
    requires limit > 0
    ensures (limit - 1) / CHAR_BIT < bytes <==> limit <= bytes * CHAR_BIT
  {
    LeDiv(bytes, limit - 1, CHAR_BIT);
  }

  /** The offset reaches the base, or the subtraction wraps around to pages that the bitmap still has. */
  predicate Inside(p: nat, base: nat, regionLen: nat, o: nat, l: nat)
    requires p > 0 && p <= regionLen
  {
    base <= o || (U64 - base + o) / p + Ceil(l, p) <= BitmapSize(regionLen, p).value * CHAR_BIT
  }

  /** Marking a piece writes inside the bitmap that its region was given if and only if the piece is inside. */
  lemma MarkInsideIff(p: nat, base: nat, regionLen: nat, o: nat, l: nat)
    requires Loggable(p, base, regionLen) && 0 < l && o + l <= regionLen
    ensures (PgLimit(p, l, PgStart(p, base, o)) - 1) / CHAR_BIT < BitmapSize(regionLen, p).value
       <==> Inside(p, base, regionLen, o, l)
  {
    if base <= o {
      PageRangeInBitmap(p, base, regionLen, o, l);
    } else {
      assert (o - base) % U64 == U64 - base + o;
      CeilIsLastPlusOne(l, p);
      DivMonotone(0, l - 1, p);
      LastByteOutside(PgLimit(p, l, PgStart(p, base, o)), BitmapSize(regionLen, p).value);
    }
  }

  lemma CeilAtMost(n: nat, d: nat)
    requires d > 0
    ensures Ceil(n, d) * d < n + d
  {
    assert n == n / d * d + n % d;
  }

  lemma TimesAtMost(a: nat, b: nat, p: nat)
    requires a <= b
    ensures a * p <= b * p
  {
  }

  lemma BitmapSpans(p: nat, regionLen: nat)
    requires p > 0 && p <= regionLen
    ensures BitmapSize(regionLen, p).value * CHAR_BIT * p < regionLen + CHAR_BIT * p
  {
    var pages := Ceil(regionLen, p);
    var cap := BitmapSize(regionLen, p).value * CHAR_BIT;
    CeilAtMost(regionLen, p);
    CeilAtMost(pages, CHAR_BIT);
    TimesAtMost(cap, pages + 7, p);
    assert (pages + 7) * p == pages * p + 7 * p;
  }

  /** A region that ends eight pages or more before the end of the address space: only the base counts. */
  lemma InsideIffReaches(p: nat, base: nat, regionLen: nat, o: nat, l: nat)
    requires Loggable(p, base, regionLen) && 0 < l && o + l <= regionLen
    requires base + regionLen + CHAR_BIT * p <= U64
    ensures Inside(p, base, regionLen, o, l) <==> base <= o
  {
    if o < base {
      BitmapSpans(p, regionLen);
      LeDiv(BitmapSize(regionLen, p).value * CHAR_BIT, U64 - base + o, p);
      CeilIsLastPlusOne(l, p);
      DivMonotone(0, l - 1, p);
    }
  }

  /** One page at address 0x100000: its very first byte is marked far behind its bitmap of one byte. */
  lemma MarkLeavesBitmap()
    ensures var p, base := 4096, 0x100000;
            && Loggable(p, base, p) && BitmapSize(p, p) == Some(1)
            && (PgLimit(p, 1, PgStart(p, base, 0)) - 1) / CHAR_BIT > 0x1_0000_0000_0000
  {
    assert (0 - 0x100000) % U64 == U64 - 0x100000;
  }
}
