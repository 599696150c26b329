/**
 Dirty page logging (lib/dma.c): starting, stopping, and what the bitmaps hold after any
 sequence of translations.
 */
module DmaLogging {
  import opened Common
  import opened DirtyBitmap
  import opened DmaTable
  import opened DmaTranslate

  const EINVAL := 22
  const ENOMEM := 12

  datatype Logging = Logging(rs: seq<Region>, pgsize: nat, ret: int)

  function Blank(n: nat): seq<bv8> {
    seq(n, _ => 0)
  }

  /** The table when the first n regions have been given a blank bitmap. */
  function WithBitmaps(rs: seq<Region>, pgsize: nat, n: nat): (r: seq<Region>)
    requires n <= |rs|
    ensures |r| == |rs|
  {
    seq(|rs|, i requires 0 <= i < |rs| =>
      var size := BitmapSize(rs[i].len, pgsize);
      if i < n && size.Some? then rs[i].(bitmap := Some(Blank(size.value))) else rs[i])
  }

  /** The table when the bitmaps of the first n regions have been released. */
  function WithoutBitmaps(rs: seq<Region>, n: nat): (r: seq<Region>)
    requires n <= |rs|
    ensures |r| == |rs|
  {
    seq(|rs|, i requires 0 <= i < |rs| => if i < n then rs[i].(bitmap := None) else rs[i])
  }

  /** The first region from n on that is smaller than a page or whose allocation fails; |rs| if there is none. */
  function FirstFailure(rs: seq<Region>, pgsize: nat, failAt: nat, n: nat): (i: nat)
    requires n <= |rs|
    ensures n <= i <= |rs|
    ensures i < |rs| ==> i == failAt || BitmapSize(rs[i].len, pgsize).None?
    ensures forall j :: n <= j < i ==> BitmapSize(rs[j].len, pgsize).Some?
    ensures !(n <= failAt < i)
    decreases |rs| - n
  {
    if n == |rs| || n == failAt || BitmapSize(rs[n].len, pgsize).None? then n
    else FirstFailure(rs, pgsize, failAt, n + 1)
  }

  /**
   dma_controller_dirty_page_logging_start() with current page size cur; the allocation for
   region failAt fails. A region that is too small leaves the bitmaps made so far behind.
   */
  function Start(rs: seq<Region>, cur: nat, pgsize: nat, failAt: nat): (l: Logging)
    ensures |l.rs| == |rs|
  {
    if pgsize == 0 then Logging(rs, cur, -EINVAL)
    else if cur > 0 then Logging(rs, cur, if cur != pgsize then -EINVAL else 0)
    else
      var i := FirstFailure(rs, pgsize, failAt, 0);
      if i == |rs| then Logging(WithBitmaps(rs, pgsize, i), pgsize, 0)
      else if BitmapSize(rs[i].len, pgsize).None? then Logging(WithBitmaps(rs, pgsize, i), 0, -EINVAL)
      else Logging(WithoutBitmaps(rs, i + 1), 0, -ENOMEM)
  }

  /** dma_controller_dirty_page_logging_stop(). */
  function Stop(rs: seq<Region>, cur: nat): (l: Logging)
    ensures |l.rs| == |rs|
  {
    if cur == 0 then Logging(rs, 0, 0) else Logging(WithoutBitmaps(rs, |rs|), 0, 0)
  }

  lemma WithBitmapsKeepWellFormed(rs: seq<Region>, pgsize: nat, n: nat)
    requires n <= |rs| && WellFormed(rs)
    ensures WellFormed(WithBitmaps(rs, pgsize, n))
  {
  }

  lemma WithoutBitmapsKeepWellFormed(rs: seq<Region>, n: nat)
    requires n <= |rs| && WellFormed(rs)
    ensures WellFormed(WithoutBitmaps(rs, n))
  {
  }

  /** A region whose bitmap is blank and has one bit for each page, in whole bytes. */
  predicate BlankFor(r: Region, pgsize: nat)
    requires pgsize > 0
  {
    && r.bitmap.Some?
    && (forall k :: 0 <= k < |r.bitmap.value| ==> r.bitmap.value[k] == 0)
    && |r.bitmap.value| == Ceil(Ceil(r.len, pgsize), 8)
  }

  predicate AtLeastAPage(rs: seq<Region>, pgsize: nat) {
    forall i :: 0 <= i < |rs| ==> pgsize <= rs[i].len
  }

  /**
   Logging that is off is started if and only if the page size is not 0, every region has at least one
   page, and every allocation succeeds; then every region has a blank bitmap, and nothing else of it
   has changed. Logging that is on stays as it is, and only the same page size is accepted.
   */
  lemma StartOutcome(rs: seq<Region>, cur: nat, pgsize: nat, failAt: nat)
    ensures var l := Start(rs, cur, pgsize, failAt);
            if cur > 0 then l == Logging(rs, cur, if pgsize == cur then 0 else -22)
            else
              && (l.ret == 0 <==> pgsize > 0 && AtLeastAPage(rs, pgsize) && failAt >= |rs|)
              && (if l.ret == 0 then
                    l.pgsize == pgsize && forall i :: 0 <= i < |rs| ==> BlankFor(l.rs[i], pgsize)
                  else l.pgsize == 0)
              && forall i :: 0 <= i < |rs| ==> l.rs[i] == rs[i].(bitmap := l.rs[i].bitmap)
  {
    hide Ceil;
  }

  /**
   What a failing start leaves behind, when region i is the first that is too small or cannot be given
   a bitmap: too small, and the regions in front of it keep their bitmaps; no memory, and neither
   they nor region i have one. Later regions stay as they were.
   */
  lemma FailedStart(rs: seq<Region>, pgsize: nat, failAt: nat, i: nat)
    requires pgsize > 0 && i < |rs| && (rs[i].len < pgsize || failAt == i)
    requires forall j :: 0 <= j < i ==> pgsize <= rs[j].len && failAt != j
    ensures var l := Start(rs, 0, pgsize, failAt);
            && l.ret == (if rs[i].len < pgsize then -22 else -12) && l.pgsize == 0
            && (forall j :: 0 <= j < i ==>
                  if rs[i].len < pgsize then BlankFor(l.rs[j], pgsize) else l.rs[j].bitmap.None?)
            && (rs[i].len >= pgsize ==> l.rs[i].bitmap.None?)
            && (forall j :: i < j < |rs| ==> l.rs[j] == rs[j])
  {
    hide Ceil;
  }

  /** Stopping turns logging off and releases the bitmap of every region, if logging was on. */
  lemma StopOutcome(rs: seq<Region>, cur: nat)
    ensures var l := Stop(rs, cur);
            && l.ret == 0 && l.pgsize == 0
            && forall i :: 0 <= i < |rs| ==> l.rs[i] == if cur == 0 then rs[i] else rs[i].(bitmap := None)
  {
  }

  // ---------------------------------------------------------- reading a bitmap

  const ENOTSUP := 95

  datatype Bitmap = Bitmap(ret: int, data: Option<seq<bv8>>)

  /** dma_controller_dirty_page_get() for a span, with current page size cur. */
  function Get(rs: seq<Region>, cur: nat, addr: nat, len: nat, pgsize: nat, size: nat): Bitmap {
    var o := SplitSpan(rs, cur, addr, len, 1, 0, Sg(0, 0, 0, 0, false));
    if o.ret != 1 || o.sg.base != addr || o.sg.length != len || o.sg.region >= |rs| then Bitmap(-ENOTSUP, None)
    else if pgsize != cur || BitmapSize(len, pgsize) != Some(size) then Bitmap(-EINVAL, None)
    else Bitmap(0, rs[o.sg.region].bitmap)
  }

  /** Reading a bitmap translates without the intent to write, which marks nothing. */
  lemma GetTranslates(rs: seq<Region>, cur: nat, addr: nat, len: nat)
    ensures AllMarksSafe(cur, 0, rs, Entries(Pieces(rs, addr, len), 1))
    ensures SplitSpan(rs, cur, addr, len, 1, 0, Sg(0, 0, 0, 0, false)).rs == rs
    ensures var o := SplitSpan(rs, cur, addr, len, 1, 0, Sg(0, 0, 0, 0, false));
            o.ret == 1 ==> o.sg.region < |rs|
  {
    PiecesTile(rs, addr, len);
  }

  /** The region a request for a bitmap is about: it starts at the address and is long enough. */
  predicate Serves(r: Region, addr: nat, len: nat) {
    r.base == addr && 0 < len <= r.len
  }

  /**
   A bitmap is returned if and only if some region starts at the address and is at least len
   bytes long, the page size is the current one, and the size is that of len bytes; what is
   returned is that region's bitmap.
   */
  lemma GetSucceedsIff(rs: seq<Region>, cur: nat, addr: nat, len: nat, pgsize: nat, size: nat)
    requires WellFormed(rs)
    ensures Get(rs, cur, addr, len, pgsize, size).ret == 0 <==>
            && (exists i :: 0 <= i < |rs| && Serves(rs[i], addr, len))
            && pgsize == cur && BitmapSize(len, pgsize) == Some(size)
    ensures forall i :: 0 <= i < |rs| && Serves(rs[i], addr, len)
                        && Get(rs, cur, addr, len, pgsize, size).ret == 0 ==>
              Get(rs, cur, addr, len, pgsize, size).data == rs[i].bitmap
  {
    var sg := Sg(0, 0, 0, 0, false);
    var o := SplitSpan(rs, cur, addr, len, 1, 0, sg);
    GetTranslates(rs, cur, addr, len);
    forall i | 0 <= i < |rs| && Serves(rs[i], addr, len)
      ensures o.ret == 1 && o.sg == SgOf(rs, Piece(i, addr, len))
    {
      SpanInsideRegion(rs, cur, addr, len, 1, 0, sg, i);
    }
    if o.ret == 1 && o.sg.base == addr && o.sg.length == len {
      OneEntryServes(rs, cur, addr, len);
    }
  }

  /**
   A request for a bitmap is answered with -ENOTSUP if no region starts at the address and is long
   enough, and otherwise with -EINVAL if the page size is not the current one or the size is not that
   of len bytes.
   */
  lemma GetAnswers(rs: seq<Region>, cur: nat, addr: nat, len: nat, pgsize: nat, size: nat)
    requires WellFormed(rs)
    ensures Get(rs, cur, addr, len, pgsize, size).ret ==
            if !exists i :: 0 <= i < |rs| && Serves(rs[i], addr, len) then -95
            else if pgsize != cur || BitmapSize(len, pgsize) != Some(size) then -22 else 0
  {
    hide WellFormed, SplitSpan;
    var sg := Sg(0, 0, 0, 0, false);
    var o := SplitSpan(rs, cur, addr, len, 1, 0, sg);
    GetTranslates(rs, cur, addr, len);
    if i :| 0 <= i < |rs| && Serves(rs[i], addr, len) {
      SpanInsideRegion(rs, cur, addr, len, 1, 0, sg, i);
    } else if o.ret == 1 && o.sg.base == addr && o.sg.length == len {
      OneEntryServes(rs, cur, addr, len);
    }
  }

  lemma OneEntryServes(rs: seq<Region>, cur: nat, addr: nat, len: nat)
    requires var o := SplitSpan(rs, cur, addr, len, 1, 0, Sg(0, 0, 0, 0, false));
             o.ret == 1 && o.sg.base == addr && o.sg.length == len
    ensures exists i :: 0 <= i < |rs| && Serves(rs[i], addr, len)
  {
    var ps := Pieces(rs, addr, len);
    PiecesTile(rs, addr, len);
    assert |ps| == 1 && Entries(ps, 1) == ps;
    assert Serves(rs[ps[0].idx], addr, len);
  }

  lemma {:induction false} BitmapSizeMonotone(a: nat, b: nat, pgsize: nat)
    requires a <= b && BitmapSize(a, pgsize).Some?
    ensures BitmapSize(b, pgsize).Some? && BitmapSize(a, pgsize).value <= BitmapSize(b, pgsize).value
  {
    CeilMonotone(a, b, pgsize);
    CeilMonotone(Ceil(a, pgsize), Ceil(b, pgsize), CHAR_BIT);
  }

  lemma CeilMonotone(a: nat, b: nat, d: nat)
    requires a <= b && d > 0
    ensures Ceil(a, d) <= Ceil(b, d)
  {
    if a > 0 {
      CeilIsLastPlusOne(a, d);
      CeilIsLastPlusOne(b, d);
      DivMonotone(a - 1, b - 1, d);
    }
  }

  // ----------------------------------------------- sequences of translations

  function Apply(rs: seq<Region>, pgsize: nat, t: Transfer): seq<Region> {
    SplitSpan(rs, pgsize, t.addr, t.len, t.maxSg, t.prot, t.sg).rs
  }

  function ApplyAll(rs: seq<Region>, pgsize: nat, ts: seq<Transfer>): seq<Region> {
    if ts == [] then rs else Apply(ApplyAll(rs, pgsize, ts[..|ts| - 1]), pgsize, ts[|ts| - 1])
  }

  /** The pieces whose pages one translation marks. */
  function Marked(rs: seq<Region>, pgsize: nat, t: Transfer): seq<Piece> {
    var es := Entries(Pieces(rs, t.addr, t.len), t.maxSg);
    if Logs(pgsize, t.prot) then es[..Granted(rs, es, t.prot)] else []
  }

  function AllMarked(rs: seq<Region>, pgsize: nat, ts: seq<Transfer>): seq<Piece> {
    if ts == [] then [] else AllMarked(rs, pgsize, ts[..|ts| - 1]) + Marked(rs, pgsize, ts[|ts| - 1])
  }

  /** The tables differ in nothing but dirty bitmaps. */
  predicate SameButBitmaps(rs: seq<Region>, rs': seq<Region>) {
    && |rs| == |rs'|
    && forall i :: 0 <= i < |rs| ==> rs'[i] == rs[i].(bitmap := rs'[i].bitmap)
  }

  predicate SameSpans(rs: seq<Region>, rs': seq<Region>) {
    && |rs| == |rs'|
    && forall i :: 0 <= i < |rs| ==> rs[i].base == rs'[i].base && rs[i].len == rs'[i].len
  }

  lemma FindBySpan(rs: seq<Region>, rs': seq<Region>, addr: nat)
    requires SameSpans(rs, rs')
    ensures Find(rs, addr) == Find(rs', addr)
  {
    var i, j := Find(rs, addr), Find(rs', addr);
    assert i < |rs| ==> rs'[i].Contains(addr);
    assert j < |rs| ==> rs[j].Contains(addr);
  }

  lemma FirstPieceBySpan(rs: seq<Region>, rs': seq<Region>, addr: nat, len: nat, l: nat)
    requires SameSpans(rs, rs')
    requires len > 0 && Find(rs, addr) < |rs| && Find(rs, addr) == Find(rs', addr)
    requires l == Min(rs[Find(rs, addr)].End() - addr, len)
    requires Pieces(rs, addr + l, len - l) == Pieces(rs', addr + l, len - l)
    ensures Pieces(rs, addr, len) == Pieces(rs', addr, len)
  {
  }

  lemma {:induction false} PiecesBySpan(rs: seq<Region>, rs': seq<Region>, addr: nat, len: nat)
    requires SameSpans(rs, rs')
    ensures Pieces(rs, addr, len) == Pieces(rs', addr, len)
    decreases len
  {
    FindBySpan(rs, rs', addr);
    var i := Find(rs, addr);
    if len > 0 && i < |rs| {
      var l := Min(rs[i].End() - addr, len);
      PiecesBySpan(rs, rs', addr + l, len - l);
      FirstPieceBySpan(rs, rs', addr, len, l);
    }
  }

  lemma GrantedIgnoresBitmaps(rs: seq<Region>, rs': seq<Region>, ps: seq<Piece>, prot: nat)
    requires SameButBitmaps(rs, rs')
    ensures Granted(rs, ps, prot) == Granted(rs', ps, prot)
  {
    var g, g' := Granted(rs, ps, prot), Granted(rs', ps, prot);
    assert g < |ps| && ps[g].idx < |rs| ==> !rs'[ps[g].idx].Grants(prot);
    assert g' < |ps| && ps[g'].idx < |rs| ==> !rs[ps[g'].idx].Grants(prot);
  }

  lemma {:induction false} MarkAllAppend(pgsize: nat, rs: seq<Region>, a: seq<Piece>, b: seq<Piece>)
    ensures MarkAll(pgsize, PROT_WRITE, rs, a + b) ==
            MarkAll(pgsize, PROT_WRITE, MarkAll(pgsize, PROT_WRITE, rs, a), b)
    decreases |b|
  {
    if b == [] {
      assert a + b == a;
    } else {
      var n := |b| - 1;
      assert (a + b)[..|a + b| - 1] == a + b[..n];
      MarkAllAppend(pgsize, rs, a, b[..n]);
    }
  }

  lemma {:induction false} MarkAllIgnoresProt(pgsize: nat, prot: nat, rs: seq<Region>, ps: seq<Piece>)
    requires Logs(pgsize, prot)
    ensures MarkAll(pgsize, prot, rs, ps) == MarkAll(pgsize, PROT_WRITE, rs, ps)
  {
    if ps != [] {
      MarkAllIgnoresProt(pgsize, prot, rs, ps[..|ps| - 1]);
    }
  }

  lemma MarkedIgnoresBitmaps(rs: seq<Region>, rs': seq<Region>, pgsize: nat, t: Transfer)
    requires SameButBitmaps(rs, rs')
    ensures Marked(rs, pgsize, t) == Marked(rs', pgsize, t)
  {
    PiecesBySpan(rs, rs', t.addr, t.len);
    GrantedIgnoresBitmaps(rs, rs', Entries(Pieces(rs, t.addr, t.len), t.maxSg), t.prot);
  }

  lemma ApplyMarks(rs: seq<Region>, pgsize: nat, t: Transfer)
    ensures Apply(rs, pgsize, t) == MarkAll(pgsize, PROT_WRITE, rs, Marked(rs, pgsize, t))
  {
    var es := Entries(Pieces(rs, t.addr, t.len), t.maxSg);
    var g := Granted(rs, es, t.prot);
    if Logs(pgsize, t.prot) {
      MarkAllIgnoresProt(pgsize, t.prot, rs, es[..g]);
    }
  }

  /** A run of translations marks exactly the pieces that its translations mark, one after the other. */
  lemma {:induction false} ApplyAllMarks(rs: seq<Region>, pgsize: nat, ts: seq<Transfer>)
    ensures ApplyAll(rs, pgsize, ts) == MarkAll(pgsize, PROT_WRITE, rs, AllMarked(rs, pgsize, ts))
  {
    if ts != [] {
      var n := |ts| - 1;
      var before := ApplyAll(rs, pgsize, ts[..n]);
      ApplyAllMarks(rs, pgsize, ts[..n]);
      ApplyMarks(before, pgsize, ts[n]);
      MarkedIgnoresBitmaps(rs, before, pgsize, ts[n]);
      MarkAllAppend(pgsize, rs, AllMarked(rs, pgsize, ts[..n]), Marked(rs, pgsize, ts[n]));
    }
  }

  // -------------------------------------------------- the bitmap is a page set

  predicate Covers(pgsize: nat, r: Region, p: Piece, page: nat)
    requires pgsize > 0
  {
    r.base <= p.addr && FirstPage(pgsize, r, p) <= page < PageLimit(pgsize, r, p)
  }

  /** Some marked piece of region i was computed to cover the page. */
  ghost predicate SomeCovers(pgsize: nat, rs: seq<Region>, ps: seq<Piece>, i: nat, page: nat)
    requires pgsize > 0 && i < |rs|
  {
    exists k :: 0 <= k < |ps| && ps[k].idx == i && Covers(pgsize, rs[i], ps[k], page)
  }

  lemma MarkKeepsSafe(pgsize: nat, rs: seq<Region>, p: Piece, q: Piece)
    requires MarkSafe(pgsize, rs, q)
    ensures MarkSafe(pgsize, Mark(pgsize, rs, p), q)
  {
  }

  lemma {:induction false} MarkAllKeepsSafe(pgsize: nat, rs: seq<Region>, ps: seq<Piece>, q: Piece)
    requires MarkSafe(pgsize, rs, q)
    ensures MarkSafe(pgsize, MarkAll(pgsize, PROT_WRITE, rs, ps), q)
  {
    if ps != [] {
      var n := |ps| - 1;
      MarkAllKeepsSafe(pgsize, rs, ps[..n], q);
      MarkKeepsSafe(pgsize, MarkAll(pgsize, PROT_WRITE, rs, ps[..n]), ps[n], q);
    }
  }

  lemma MarkAdds(pgsize: nat, rs: seq<Region>, p: Piece, i: nat, page: nat)
    requires MarkSafe(pgsize, rs, p) && i < |rs| && rs[i].bitmap.Some?
    ensures Mark(pgsize, rs, p)[i].bitmap.Some?
    ensures Bit(Mark(pgsize, rs, p)[i].bitmap.value, page) <==>
            Bit(rs[i].bitmap.value, page) || (p.idx == i && Covers(pgsize, rs[i], p, page))
  {
    if p.idx == i {
      MarkRangeAdds(rs[i].bitmap.value, FirstPage(pgsize, rs[i], p), PageLimit(pgsize, rs[i], p), page);
    }
  }

  /** After marking any pieces, a page is marked if it was before or some piece was computed to cover it. */
  lemma {:induction false} MarkAllAdds(pgsize: nat, rs: seq<Region>, ps: seq<Piece>, i: nat, page: nat)
    requires pgsize > 0 && i < |rs| && rs[i].bitmap.Some?
    requires forall k :: 0 <= k < |ps| ==> MarkSafe(pgsize, rs, ps[k])
    ensures MarkAll(pgsize, PROT_WRITE, rs, ps)[i].bitmap.Some?
    ensures Bit(MarkAll(pgsize, PROT_WRITE, rs, ps)[i].bitmap.value, page) <==>
            Bit(rs[i].bitmap.value, page) || SomeCovers(pgsize, rs, ps, i, page)
  {
    if ps != [] {
      hide Bit, Mark, MarkSafe, Covers, SomeCovers;
      var n := |ps| - 1;
      var before := MarkAll(pgsize, PROT_WRITE, rs, ps[..n]);
      MarkAllAdds(pgsize, rs, ps[..n], i, page);
      MarkAllKeepsSafe(pgsize, rs, ps[..n], ps[n]);
      MarkAdds(pgsize, before, ps[n], i, page);
      CoversBySpan(pgsize, rs[i], before[i], ps[n], page);
      SomeCoversLast(pgsize, rs, ps, i, page);
    }
  }

  lemma CoversBySpan(pgsize: nat, r: Region, r': Region, p: Piece, page: nat)
    requires pgsize > 0 && r.base == r'.base
    ensures Covers(pgsize, r, p, page) == Covers(pgsize, r', p, page)
  {
  }

  lemma SomeCoversLast(pgsize: nat, rs: seq<Region>, ps: seq<Piece>, i: nat, page: nat)
    requires ps != [] && i < |rs| && pgsize > 0
    ensures SomeCovers(pgsize, rs, ps, i, page) <==>
            || SomeCovers(pgsize, rs, ps[..|ps| - 1], i, page)
            || (ps[|ps| - 1].idx == i && Covers(pgsize, rs[i], ps[|ps| - 1], page))
  {
    var n := |ps| - 1;
    if k :| 0 <= k < n && ps[..n][k].idx == i && Covers(pgsize, rs[i], ps[..n][k], page) {
      assert ps[k] == ps[..n][k];
    }
    if k :| 0 <= k < |ps| && ps[k].idx == i && Covers(pgsize, rs[i], ps[k], page) && k != n {
      assert ps[..n][k] == ps[k];
    }
  }

  /** The caller's condition for a mark to stay inside the bitmap that logging start gave the region. */
  predicate PieceInside(rs: seq<Region>, pgsize: nat, p: Piece)
    requires pgsize > 0
  {
    && p.idx < |rs| && rs[p.idx].base <= p.addr && pgsize <= rs[p.idx].len
    && Inside(pgsize, rs[p.idx].base, rs[p.idx].len, p.addr - rs[p.idx].base, p.len)
  }

  /** The caller's condition for the computed pages to be the pages touched. */
  predicate PageExact(rs: seq<Region>, pgsize: nat, p: Piece)
    requires pgsize > 0
  {
    && p.idx < |rs| && rs[p.idx].base <= p.addr && p.len > 0
    && rs[p.idx].base <= (p.addr - rs[p.idx].base) % pgsize
    && (p.addr - rs[p.idx].base) % pgsize + (p.len - 1) % pgsize < pgsize
  }

  /** Every region is a page or more and ends within the address space. */
  predicate AllLoggable(rs: seq<Region>, pgsize: nat) {
    forall i :: 0 <= i < |rs| ==> Loggable(pgsize, rs[i].base, rs[i].len)
  }

  lemma StartedIsSafeIff(rs: seq<Region>, pgsize: nat, p: Piece)
    requires AllLoggable(rs, pgsize) && pgsize > 0 && Fits(rs, p)
    ensures MarkSafe(pgsize, WithBitmaps(rs, pgsize, |rs|), p) <==> PieceInside(rs, pgsize, p)
  {
    MarkInsideIff(pgsize, rs[p.idx].base, rs[p.idx].len, p.addr - rs[p.idx].base, p.len);
  }

  lemma BlankIsClean(n: nat, page: nat)
    ensures !Bit(Blank(n), page)
  {
    if page / CHAR_BIT < n {
      assert 0 & Mask(page % CHAR_BIT) == 0;
    }
  }

  lemma {:induction false} MarkedFit(rs: seq<Region>, pgsize: nat, ts: seq<Transfer>, k: nat)
    requires k < |AllMarked(rs, pgsize, ts)|
    ensures Fits(rs, AllMarked(rs, pgsize, ts)[k])
  {
    var n := |ts| - 1;
    var before := AllMarked(rs, pgsize, ts[..n]);
    if k < |before| {
      MarkedFit(rs, pgsize, ts[..n], k);
    } else {
      PiecesTile(rs, ts[n].addr, ts[n].len);
    }
  }

  /**
   Every mark that a run makes after logging has started falls inside its region's bitmap if and
   only if every piece that it marks is inside.
   */
  lemma MarksStayInsideIff(rs: seq<Region>, pgsize: nat, ts: seq<Transfer>)
    requires AllLoggable(rs, pgsize) && pgsize > 0
    ensures (forall k :: 0 <= k < |AllMarked(rs, pgsize, ts)| ==>
               MarkSafe(pgsize, WithBitmaps(rs, pgsize, |rs|), AllMarked(rs, pgsize, ts)[k]))
       <==> (forall k :: 0 <= k < |AllMarked(rs, pgsize, ts)| ==>
               PieceInside(rs, pgsize, AllMarked(rs, pgsize, ts)[k]))
  {
    hide MarkSafe, PieceInside;
    var ps := AllMarked(rs, pgsize, ts);
    forall k | 0 <= k < |ps|
      ensures MarkSafe(pgsize, WithBitmaps(rs, pgsize, |rs|), ps[k]) <==> PieceInside(rs, pgsize, ps[k])
    {
      MarkedFit(rs, pgsize, ts, k);
      StartedIsSafeIff(rs, pgsize, ps[k]);
    }
  }

  /** A region of one page at a nonzero address: the first write that is logged leaves the bitmap. */
  lemma FirstLoggedWriteStrays(r: Region, sg: Sg)
    requires r.base == 0x100000 && r.len == 4096 && Writes(r.prot)
    ensures AllMarked([r], 4096, [Transfer(0x100000, 1, 1, PROT_WRITE, sg)]) == [Piece(0, 0x100000, 1)]
    ensures AllLoggable([r], 4096) && !MarkSafe(4096, WithBitmaps([r], 4096, 1), Piece(0, 0x100000, 1))
  {
    MarkLeavesBitmap();
    assert Pieces([r], 0x100000, 1) == [Piece(0, 0x100000, 1)];
    assert [Transfer(0x100000, 1, 1, PROT_WRITE, sg)][..0] == [];
  }

  lemma StartSucceeds(rs: seq<Region>, pgsize: nat)
    requires AllLoggable(rs, pgsize) && pgsize > 0
    ensures Start(rs, 0, pgsize, |rs|) == Logging(WithBitmaps(rs, pgsize, |rs|), pgsize, 0)
  {
  }

  /** From logging start on, a page is marked exactly when some translated piece was computed to cover it. */
  lemma LoggedPages(rs: seq<Region>, pgsize: nat, ts: seq<Transfer>, i: nat, page: nat)
    requires AllLoggable(rs, pgsize) && i < |rs| && pgsize > 0
    requires forall k :: 0 <= k < |AllMarked(rs, pgsize, ts)| ==> PieceInside(rs, pgsize, AllMarked(rs, pgsize, ts)[k])
    ensures var after := ApplyAll(Start(rs, 0, pgsize, |rs|).rs, pgsize, ts);
            && |after| == |rs| && after[i].bitmap.Some?
            && (Bit(after[i].bitmap.value, page) <==> SomeCovers(pgsize, rs, AllMarked(rs, pgsize, ts), i, page))
  {
    StartSucceeds(rs, pgsize);
    var started := WithBitmaps(rs, pgsize, |rs|);
    var ps := AllMarked(rs, pgsize, ts);
    assert SameButBitmaps(rs, started);
    AllMarkedIgnoresBitmaps(rs, started, pgsize, ts);
    MarksStayInsideIff(rs, pgsize, ts);
    ApplyAllMarks(started, pgsize, ts);
    MarkAllAdds(pgsize, started, ps, i, page);
    BlankIsClean(BitmapSize(rs[i].len, pgsize).value, page);
    SomeCoversBySpan(pgsize, rs, started, ps, i, page);
  }

  lemma SomeCoversBySpan(pgsize: nat, rs: seq<Region>, rs': seq<Region>, ps: seq<Piece>, i: nat, page: nat)
    requires i < |rs| && pgsize > 0 && SameSpans(rs, rs')
    ensures SomeCovers(pgsize, rs, ps, i, page) == SomeCovers(pgsize, rs', ps, i, page)
  {
    forall k | 0 <= k < |ps|
      ensures Covers(pgsize, rs[i], ps[k], page) == Covers(pgsize, rs'[i], ps[k], page)
    {
      CoversBySpan(pgsize, rs[i], rs'[i], ps[k], page);
    }
  }

  lemma {:induction false} AllMarkedIgnoresBitmaps(rs: seq<Region>, rs': seq<Region>, pgsize: nat, ts: seq<Transfer>)
    requires SameButBitmaps(rs, rs')
    ensures AllMarked(rs, pgsize, ts) == AllMarked(rs', pgsize, ts)
  {
    if ts != [] {
      AllMarkedIgnoresBitmaps(rs, rs', pgsize, ts[..|ts| - 1]);
      MarkedIgnoresBitmaps(rs, rs', pgsize, ts[|ts| - 1]);
    }
  }

  ghost predicate Touches(r: Region, pgsize: nat, p: Piece, page: nat)
    requires pgsize > 0
  {
    r.base <= p.addr && Touched(pgsize, p.addr - r.base, p.len, page)
  }

  /** Some marked piece of region i holds a byte of the page. */
  ghost predicate SomeTouches(rs: seq<Region>, pgsize: nat, ps: seq<Piece>, i: nat, page: nat)
    requires pgsize > 0 && i < |rs|
  {
    exists k :: 0 <= k < |ps| && ps[k].idx == i && Touches(rs[i], pgsize, ps[k], page)
  }

  lemma ExactPieceCovers(rs: seq<Region>, pgsize: nat, p: Piece, page: nat)
    requires AllLoggable(rs, pgsize) && pgsize > 0 && Fits(rs, p) && PageExact(rs, pgsize, p)
    ensures PieceInside(rs, pgsize, p)
    ensures var r := rs[p.idx];
            Covers(pgsize, r, p, page) <==> Touched(pgsize, p.addr - r.base, p.len, page)
  {
    var r := rs[p.idx];
    ModAtMost(p.addr - r.base, pgsize);
    PageRangeExact(pgsize, r.base, r.len, p.addr - r.base, p.len);
  }

  /** If every translated piece meets the exact condition, the bitmap is exactly the set of pages touched. */
  lemma DirtyPagesExact(rs: seq<Region>, pgsize: nat, ts: seq<Transfer>, i: nat, page: nat)
    requires AllLoggable(rs, pgsize) && i < |rs| && pgsize > 0
    requires forall k :: 0 <= k < |AllMarked(rs, pgsize, ts)| ==> PageExact(rs, pgsize, AllMarked(rs, pgsize, ts)[k])
    ensures var after := ApplyAll(Start(rs, 0, pgsize, |rs|).rs, pgsize, ts);
            && |after| == |rs| && after[i].bitmap.Some?
            && (Bit(after[i].bitmap.value, page) <==>
                SomeTouches(rs, pgsize, AllMarked(rs, pgsize, ts), i, page))
  {
    var ps := AllMarked(rs, pgsize, ts);
    forall k | 0 <= k < |ps|
      ensures PieceInside(rs, pgsize, ps[k])
      ensures ps[k].idx == i ==>
                (Covers(pgsize, rs[i], ps[k], page) <==> Touches(rs[i], pgsize, ps[k], page))
    {
      MarkedFit(rs, pgsize, ts, k);
      ExactPieceCovers(rs, pgsize, ps[k], page);
    }
    LoggedPages(rs, pgsize, ts, i, page);
  }

  lemma ModAtMost(x: nat, p: nat)
    requires p > 0
    ensures x % p <= x
  {
    assert x == x / p * p + x % p;
    assert x / p * p >= 0;
  }

  /** A piece of a region with a nonzero base that starts on a page boundary is never marked right. */
  lemma WrongPageForNonzeroBase(pgsize: nat, base: nat, regionLen: nat, o: nat, l: nat)
    requires Loggable(pgsize, base, regionLen) && 0 < l && o + l <= regionLen
    requires base > 0 && o % pgsize == 0
    ensures !ComputedPagesAreTouched(pgsize, base, o, l)
  {
    PageRangeExact(pgsize, base, regionLen, o, l);
  }

  // ------------------------------------------------- reading after a run

  /** Marks, inside or not, keep the length of every bitmap. */
  lemma {:induction false} MarkAllKeepsLength(pgsize: nat, rs: seq<Region>, ps: seq<Piece>, i: nat)
    requires i < |rs| && rs[i].bitmap.Some?
    ensures var b := MarkAll(pgsize, PROT_WRITE, rs, ps)[i].bitmap;
            b.Some? && |b.value| == |rs[i].bitmap.value|
  {
    if ps != [] {
      MarkAllKeepsLength(pgsize, rs, ps[..|ps| - 1], i);
    }
  }

  /**
   After logging start and any run of translations: a bitmap that is read is that of the region
   at the address, and what is sent back is never larger than what was allocated for it.
   */
  lemma GetFitsAllocation(rs: seq<Region>, pgsize: nat, ts: seq<Transfer>, addr: nat, len: nat, size: nat)
    requires WellFormed(rs) && pgsize > 0 && Start(rs, 0, pgsize, |rs|).ret == 0
    ensures var after := ApplyAll(Start(rs, 0, pgsize, |rs|).rs, pgsize, ts);
            var b := Get(after, pgsize, addr, len, pgsize, size);
            && |after| == |rs|
            && (b.ret == 0 ==>
                  && (exists i :: 0 <= i < |rs| && Serves(rs[i], addr, len))
                  && (forall i :: 0 <= i < |rs| && Serves(rs[i], addr, len) ==>
                        && b.data == after[i].bitmap && BitmapSize(rs[i].len, pgsize).Some? && b.data.Some?
                        && size <= |b.data.value| == BitmapSize(rs[i].len, pgsize).value))
  {
    hide WellFormed, Get;
    var started := WithBitmaps(rs, pgsize, |rs|);
    assert Start(rs, 0, pgsize, |rs|).rs == started;
    var after := ApplyAll(started, pgsize, ts);
    ApplyAllMarks(started, pgsize, ts);
    WithBitmapsKeepWellFormed(rs, pgsize, |rs|);
    MarkAllKeepsWellFormed(pgsize, started, AllMarked(started, pgsize, ts));
    GetSucceedsIff(after, pgsize, addr, len, pgsize, size);
    ServesBySpan(rs, after, addr, len);
    forall i | 0 <= i < |rs| && Serves(rs[i], addr, len) && BitmapSize(len, pgsize) == Some(size)
      ensures BitmapSize(rs[i].len, pgsize).Some? && after[i].bitmap.Some?
              && size <= |after[i].bitmap.value| == BitmapSize(rs[i].len, pgsize).value
    {
      BitmapSizeMonotone(len, rs[i].len, pgsize);
      MarkAllKeepsLength(pgsize, started, AllMarked(started, pgsize, ts), i);
    }
  }

  lemma MarkAllKeepsWellFormed(pgsize: nat, rs: seq<Region>, ps: seq<Piece>)
    requires WellFormed(rs)
    ensures WellFormed(MarkAll(pgsize, PROT_WRITE, rs, ps))
  {
  }

  lemma ServesBySpan(rs: seq<Region>, rs': seq<Region>, addr: nat, len: nat)
    requires SameSpans(rs, rs')
    ensures (exists i :: 0 <= i < |rs| && Serves(rs[i], addr, len))
       <==> (exists i :: 0 <= i < |rs'| && Serves(rs'[i], addr, len))
    ensures forall i :: 0 <= i < |rs| ==> (Serves(rs[i], addr, len) <==> Serves(rs'[i], addr, len))
  {
    if i :| 0 <= i < |rs| && Serves(rs[i], addr, len) {
      assert Serves(rs'[i], addr, len);
    }
    if i :| 0 <= i < |rs'| && Serves(rs'[i], addr, len) {
      assert Serves(rs[i], addr, len);
    }
  }

  /** A client that reads the bitmap of region i after a run gets exactly the pages the run was computed to cover. */
  lemma ReadBackPages(rs: seq<Region>, pgsize: nat, ts: seq<Transfer>, i: nat, len: nat, page: nat)
    requires WellFormed(rs) && AllLoggable(rs, pgsize) && pgsize > 0 && i < |rs| && pgsize <= len <= rs[i].len
    requires forall k :: 0 <= k < |AllMarked(rs, pgsize, ts)| ==> PieceInside(rs, pgsize, AllMarked(rs, pgsize, ts)[k])
    ensures var size := BitmapSize(len, pgsize).value;
            var b := Get(ApplyAll(Start(rs, 0, pgsize, |rs|).rs, pgsize, ts), pgsize, rs[i].base, len, pgsize, size);
            && b.ret == 0 && b.data.Some? && size <= |b.data.value|
            && (Bit(b.data.value, page) <==> SomeCovers(pgsize, rs, AllMarked(rs, pgsize, ts), i, page))
  {
    hide WellFormed, Get, Bit, SomeCovers, AllLoggable, PieceInside;
    var size := BitmapSize(len, pgsize).value;
    StartSucceeds(rs, pgsize);
    LoggedPages(rs, pgsize, ts, i, page);
    var started := WithBitmaps(rs, pgsize, |rs|);
    var after := ApplyAll(started, pgsize, ts);
    ApplyAllMarks(started, pgsize, ts);
    WithBitmapsKeepWellFormed(rs, pgsize, |rs|);
    MarkAllKeepsWellFormed(pgsize, started, AllMarked(started, pgsize, ts));
    assert Serves(after[i], rs[i].base, len);
    GetSucceedsIff(after, pgsize, rs[i].base, len, pgsize, size);
    GetFitsAllocation(rs, pgsize, ts, rs[i].base, len, size);
    assert Serves(rs[i], rs[i].base, len);
  }
}
