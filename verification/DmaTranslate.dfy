/**
 Translation of a span of DMA addresses into scatter/gather entries (lib/dma.c,
 lib/dma.h). The span is cut into pieces, one for each region met; Split says what
 _dma_addr_sg_split() returns and which dirty pages it marks.
 */
module DmaTranslate {
  import opened Common
  import opened DirtyBitmap
  import opened DmaTable

  /** A piece of a span: len bytes from addr, all in the region with this index. */
  datatype Piece = Piece(idx: nat, addr: nat, len: nat)

  /** A scatter/gather entry; base and region both identify the region it was made for. */
  datatype Sg = Sg(base: nat, region: nat, offset: nat, length: nat, mappable: bool)

  datatype Errno = NoError | ProtectionDenied | NotFound

  datatype Split = Split(rs: seq<Region>, ret: int, errno: Errno, sg: Sg)

  /** Index of the first region from n on that holds the address; |rs| if there is none. */
  function Find(rs: seq<Region>, addr: nat, n: nat := 0): (i: nat)
    requires n <= |rs|
    ensures n <= i <= |rs|
    ensures i < |rs| ==> rs[i].Contains(addr)
    ensures forall j :: n <= j < i ==> !rs[j].Contains(addr)
    decreases |rs| - n
  {
    if n == |rs| || rs[n].Contains(addr) then n else Find(rs, addr, n + 1)
  }

  /** The pieces of [addr, addr + len), in order, up to the first address that is in no region. */
  function Pieces(rs: seq<Region>, addr: nat, len: nat): seq<Piece>
    decreases len
  {
    var i := Find(rs, addr);
    if len == 0 || i == |rs| then []
    else
      var l := Min(rs[i].End() - addr, len);
      [Piece(i, addr, l)] + Pieces(rs, addr + l, len - l)
  }

  function Total(ps: seq<Piece>): nat {
    if ps == [] then 0 else ps[0].len + Total(ps[1..])
  }

  /** How many leading pieces lie in regions that grant the protection. */
  function Granted(rs: seq<Region>, ps: seq<Piece>, prot: nat, n: nat := 0): (g: nat)
    requires n <= |ps|
    ensures n <= g <= |ps|
    ensures forall k :: n <= k < g ==> ps[k].idx < |rs| && rs[ps[k].idx].Grants(prot)
    ensures g < |ps| ==> !(ps[g].idx < |rs| && rs[ps[g].idx].Grants(prot))
    decreases |ps| - n
  {
    if n < |ps| && ps[n].idx < |rs| && rs[ps[n].idx].Grants(prot) then Granted(rs, ps, prot, n + 1) else n
  }

  function SgOf(rs: seq<Region>, p: Piece): Sg
    requires p.idx < |rs| && rs[p.idx].base <= p.addr
  {
    Sg(rs[p.idx].base, p.idx, p.addr - rs[p.idx].base, p.len, rs[p.idx].vaddr.Some?)
  }

  // ------------------------------------------------------------- dirty pages

  predicate Logs(pgsize: nat, prot: nat) {
    Writes(prot) && pgsize > 0
  }

  function FirstPage(pgsize: nat, r: Region, p: Piece): nat
    requires pgsize > 0 && r.base <= p.addr
  {
    PgStart(pgsize, r.base, p.addr - r.base)
  }

  function PageLimit(pgsize: nat, r: Region, p: Piece): nat
    requires pgsize > 0 && r.base <= p.addr
  {
    PgLimit(pgsize, p.len, FirstPage(pgsize, r, p))
  }

  /** Marking a piece is memory safe: its region has a bitmap that covers the computed pages. */
  predicate MarkSafe(pgsize: nat, rs: seq<Region>, p: Piece) {
    && pgsize > 0
    && p.idx < |rs| && rs[p.idx].base <= p.addr && p.len > 0
    && rs[p.idx].bitmap.Some?
    && (PageLimit(pgsize, rs[p.idx], p) - 1) / CHAR_BIT < |rs[p.idx].bitmap.value|
  }

  /** The table after the pages of one piece have been marked; a mark that is not safe is left out. */
  function Mark(pgsize: nat, rs: seq<Region>, p: Piece): (r: seq<Region>)
    ensures |r| == |rs|
    ensures forall i :: 0 <= i < |rs| ==> r[i] == rs[i].(bitmap := r[i].bitmap)
    ensures forall i :: 0 <= i < |rs| && i != p.idx ==> r[i] == rs[i]
  {
    if !MarkSafe(pgsize, rs, p) then rs
    else
      var r := rs[p.idx];
      rs[p.idx := r.(bitmap := Some(
                       MarkRange(r.bitmap.value, FirstPage(pgsize, r, p), PageLimit(pgsize, r, p))))]
  }

  lemma MarkKeepsWellFormed(pgsize: nat, rs: seq<Region>, p: Piece)
    requires WellFormed(rs)
    ensures WellFormed(Mark(pgsize, rs, p))
  {
    hide MarkSafe;
  }

  function MarkAll(pgsize: nat, prot: nat, rs: seq<Region>, ps: seq<Piece>): (r: seq<Region>)
    ensures |r| == |rs|
    ensures forall i :: 0 <= i < |rs| ==> r[i] == rs[i].(bitmap := r[i].bitmap)
  {
    if ps == [] || !Logs(pgsize, prot) then rs
    else Mark(pgsize, MarkAll(pgsize, prot, rs, ps[..|ps| - 1]), ps[|ps| - 1])
  }

  lemma MarkOne(pgsize: nat, prot: nat, rs: seq<Region>, p: Piece)
    ensures MarkAll(pgsize, prot, rs, [p]) == if Logs(pgsize, prot) then Mark(pgsize, rs, p) else rs
  {
    assert [p][..0] == [];
  }

  /** No piece that gets an entry is marked outside its region's bitmap. */
  predicate AllMarksSafe(pgsize: nat, prot: nat, rs: seq<Region>, ps: seq<Piece>) {
    Logs(pgsize, prot) ==> forall k :: 0 <= k < Granted(rs, ps, prot) ==> MarkSafe(pgsize, rs, ps[k])
  }

  // --------------------------------------------------------- the slow search

  /** The entry left in the caller's slot: every piece is written to the same one. */
  function LastSg(rs: seq<Region>, ps: seq<Piece>, sg: Sg): Sg
    requires forall k :: 0 <= k < |ps| ==> ps[k].idx < |rs| && rs[ps[k].idx].base <= ps[k].addr
  {
    if ps == [] then sg else SgOf(rs, ps[|ps| - 1])
  }

  /** The pieces that get an entry when there is room for maxSg entries. */
  function Entries(ps: seq<Piece>, maxSg: int): seq<Piece> {
    ps[..Min(|ps|, Max(maxSg, 0))]
  }

  /** What is asked of a translation: a span, room for maxSg entries, a protection, and the caller's first entry. */
  datatype Transfer = Transfer(addr: nat, len: nat, maxSg: int, prot: nat, sg: Sg)

  /** _dma_addr_sg_split() on a table with dirty page size pgsize (0 when logging is off). */
  function SplitSpan(rs: seq<Region>, pgsize: nat, addr: nat, len: nat, maxSg: int, prot: nat, sg: Sg): Split {
    var ps := Pieces(rs, addr, len);
    PiecesTile(rs, addr, len);
    var es := Entries(ps, maxSg);
    var g := Granted(rs, es, prot);
    var rs' := MarkAll(pgsize, prot, rs, es[..g]);
    var last := LastSg(rs, es[..g], sg);
    if g < |es| then Split(rs', -1, ProtectionDenied, last)
    else if Total(ps) < len then Split(rs', -1, NotFound, last)
    else Split(rs', if |ps| > maxSg then -1 - |ps| else |ps|, NoError, last)
  }

  // ----------------------------------------------------------- tiling, exactly

  /** The piece is not empty and lies inside its region. */
  predicate Fits(rs: seq<Region>, p: Piece) {
    && p.len > 0
    && p.idx < |rs|
    && rs[p.idx].base <= p.addr
    && p.addr + p.len <= rs[p.idx].End()
  }

  /** The pieces cover a prefix of [addr, addr + len) in order, without gap or overlap, each in one region. */
  predicate Tile(rs: seq<Region>, ps: seq<Piece>, addr: nat, len: nat) {
    && Total(ps) <= len
    && (forall k :: 0 <= k < |ps| ==> Fits(rs, ps[k]))
    && (forall k :: 0 <= k < |ps| ==> ps[k].addr == addr + Total(ps[..k]))
  }

  lemma TotalOfPrefix(ps: seq<Piece>, k: nat)
    requires 0 < k <= |ps|
    ensures Total(ps[..k]) == ps[0].len + Total(ps[1..][..k - 1])
  {
    assert ps[..k][1..] == ps[1..][..k - 1];
  }

  lemma TileCons(rs: seq<Region>, ps: seq<Piece>, addr: nat, len: nat)
    requires ps != [] && Fits(rs, ps[0]) && ps[0].addr == addr && ps[0].len <= len
    requires Tile(rs, ps[1..], addr + ps[0].len, len - ps[0].len)
    ensures Tile(rs, ps, addr, len)
  {
    var rest := ps[1..];
    forall k | 0 <= k < |ps|
      ensures Fits(rs, ps[k]) && ps[k].addr == addr + Total(ps[..k])
    {
      if k > 0 {
        TotalOfPrefix(ps, k);
        assert ps[k] == rest[k - 1];
      }
    }
  }

  lemma FirstPiece(rs: seq<Region>, addr: nat, len: nat)
    requires Pieces(rs, addr, len) != []
    ensures var ps := Pieces(rs, addr, len);
            && Fits(rs, ps[0]) && ps[0].addr == addr && ps[0].len <= len
            && (ps[0].len < len ==> addr + ps[0].len == rs[ps[0].idx].End())
            && ps[1..] == Pieces(rs, addr + ps[0].len, len - ps[0].len)
            && Total(ps) == ps[0].len + Total(ps[1..])
  {
  }

  lemma {:induction false} PiecesTile(rs: seq<Region>, addr: nat, len: nat)
    ensures Tile(rs, Pieces(rs, addr, len), addr, len)
    decreases len
  {
    var ps := Pieces(rs, addr, len);
    if ps != [] {
      FirstPiece(rs, addr, len);
      var l := ps[0].len;
      PiecesTile(rs, addr + l, len - l);
      TileCons(rs, ps, addr, len);
    }
  }

  /** The span is fully covered by pieces if and only if every one of its bytes is in some region. */
  lemma {:induction false} CoveredIff(rs: seq<Region>, addr: nat, len: nat)
    ensures Total(Pieces(rs, addr, len)) == len <==>
            forall a: nat :: addr <= a < addr + len ==> Find(rs, a) < |rs|
    decreases len
  {
    var ps := Pieces(rs, addr, len);
    if len > 0 && ps == [] {
      assert Find(rs, addr) == |rs|;
    } else if len > 0 {
      var p := ps[0];
      FirstPiece(rs, addr, len);
      CoveredIff(rs, addr + p.len, len - p.len);
      forall a: nat | addr <= a < addr + p.len
        ensures Find(rs, a) < |rs|
      {
        assert rs[p.idx].Contains(a);
      }
    }
  }

  /**
   The search fails with NotFound if and only if some byte of the span lies in no region,
   provided the regions met grant the protection.
   */
  lemma NotFoundIff(rs: seq<Region>, pgsize: nat, addr: nat, len: nat, maxSg: int, prot: nat, sg: Sg)
    requires forall i :: 0 <= i < |rs| && Meets(rs[i], addr, len) ==> rs[i].Grants(prot)
    ensures SplitSpan(rs, pgsize, addr, len, maxSg, prot, sg).errno == NotFound <==>
            exists a: nat :: addr <= a < addr + len && Find(rs, a) == |rs|
    ensures SplitSpan(rs, pgsize, addr, len, maxSg, prot, sg).errno != ProtectionDenied
  {
    PiecesTile(rs, addr, len);
    CoveredIff(rs, addr, len);
    AllGranted(rs, addr, len, prot, maxSg);
    if a: nat :| addr <= a < addr + len && Find(rs, a) == |rs| {
      assert !(Find(rs, a) < |rs|);
    }
  }

  // ---------------------------------------------- one piece for each region met

  /** The region holds at least one byte of the span. */
  predicate Meets(r: Region, addr: nat, len: nat) {
    r.base < addr + len && addr < r.End() && r.len > 0 && len > 0
  }

  ghost function RegionsMet(rs: seq<Region>, addr: nat, len: nat): set<nat> {
    set i: nat | i < |rs| && Meets(rs[i], addr, len)
  }

  lemma PiecesMeet(rs: seq<Region>, addr: nat, len: nat, k: nat)
    requires k < |Pieces(rs, addr, len)|
    ensures Pieces(rs, addr, len)[k].idx < |rs|
    ensures Meets(rs[Pieces(rs, addr, len)[k].idx], addr, len)
  {
    PiecesTile(rs, addr, len);
    var ps := Pieces(rs, addr, len);
    TotalSplit(ps, k);
  }

  lemma {:induction false} TotalSplit(ps: seq<Piece>, k: nat)
    requires k < |ps|
    ensures Total(ps[..k]) + ps[k].len <= Total(ps)
  {
    if k > 0 {
      TotalSplit(ps[1..], k - 1);
      TotalOfPrefix(ps, k);
    }
  }

  lemma AllGranted(rs: seq<Region>, addr: nat, len: nat, prot: nat, maxSg: int)
    requires forall i :: 0 <= i < |rs| && Meets(rs[i], addr, len) ==> rs[i].Grants(prot)
    ensures var es := Entries(Pieces(rs, addr, len), maxSg); Granted(rs, es, prot) == |es|
  {
    var es := Entries(Pieces(rs, addr, len), maxSg);
    var g := Granted(rs, es, prot);
    if g < |es| {
      PiecesMeet(rs, addr, len, g);
    }
  }

  /** Behind a first piece that lies in region i, the span still meets every region but i. */
  lemma MetByFirstPiece(rs: seq<Region>, p: Piece, addr: nat, len: nat)
    requires WellFormed(rs) && Fits(rs, p) && p.addr == addr && p.len <= len
    requires p.len < len ==> addr + p.len == rs[p.idx].End()
    ensures p.idx !in RegionsMet(rs, addr + p.len, len - p.len)
    ensures RegionsMet(rs, addr, len) == RegionsMet(rs, addr + p.len, len - p.len) + {p.idx}
  {
    forall i: nat | i < |rs| && i != p.idx && Meets(rs[i], addr, len)
      ensures Meets(rs[i], addr + p.len, len - p.len)
    {
      var a := Max(addr, rs[i].base);
      assert rs[i].Contains(a);
    }
  }

  lemma OneRegionFewer(rs: seq<Region>, p: Piece, addr: nat, len: nat)
    requires WellFormed(rs) && Fits(rs, p) && p.addr == addr && p.len <= len
    requires p.len < len ==> addr + p.len == rs[p.idx].End()
    ensures |RegionsMet(rs, addr, len)| == |RegionsMet(rs, addr + p.len, len - p.len)| + 1
  {
    MetByFirstPiece(rs, p, addr, len);
  }

  /** The pieces use up the span, and each but the last reaches the end of its region. */
  predicate Cut(rs: seq<Region>, ps: seq<Piece>, addr: nat, len: nat) {
    if ps == [] then len == 0
    else
      var p := ps[0];
      && Fits(rs, p) && p.addr == addr && p.len <= len
      && (p.len < len ==> addr + p.len == rs[p.idx].End())
      && Cut(rs, ps[1..], addr + p.len, len - p.len)
  }

  lemma {:induction false} CutIntoRegions(rs: seq<Region>, ps: seq<Piece>, addr: nat, len: nat)
    requires WellFormed(rs) && Cut(rs, ps, addr, len)
    ensures |ps| == |RegionsMet(rs, addr, len)|
  {
    if ps == [] {
      assert RegionsMet(rs, addr, len) == {};
    } else {
      OneRegionFewer(rs, ps[0], addr, len);
      CutIntoRegions(rs, ps[1..], addr + ps[0].len, len - ps[0].len);
    }
  }

  lemma {:induction false} PiecesCut(rs: seq<Region>, addr: nat, len: nat)
    requires Total(Pieces(rs, addr, len)) == len
    ensures Cut(rs, Pieces(rs, addr, len), addr, len)
    decreases len
  {
    var ps := Pieces(rs, addr, len);
    if ps != [] {
      FirstPiece(rs, addr, len);
      PiecesCut(rs, addr + ps[0].len, len - ps[0].len);
    }
  }

  /** A covered span has exactly one piece for each region it meets. */
  lemma OnePiecePerRegion(rs: seq<Region>, addr: nat, len: nat)
    requires WellFormed(rs) && Total(Pieces(rs, addr, len)) == len
    ensures |Pieces(rs, addr, len)| == |RegionsMet(rs, addr, len)|
  {
    PiecesCut(rs, addr, len);
    CutIntoRegions(rs, Pieces(rs, addr, len), addr, len);
  }

  /**
   The count that is returned: with enough room it is the number of regions the span meets;
   otherwise it is -x - 1 for that number x, which is never -1, and a retry on the same table
   with room for x entries returns x.
   */
  lemma RetryCount(rs: seq<Region>, pgsize: nat, addr: nat, len: nat, maxSg: nat, prot: nat, sg: Sg, sg2: Sg)
    requires WellFormed(rs)
    requires forall i :: 0 <= i < |rs| && Meets(rs[i], addr, len) ==> rs[i].Grants(prot)
    requires forall a: nat :: addr <= a < addr + len ==> Find(rs, a) < |rs|
    ensures var x := |RegionsMet(rs, addr, len)|;
            var o := SplitSpan(rs, pgsize, addr, len, maxSg, prot, sg);
            && o.errno == NoError
            && o.ret == (if x <= maxSg then x else -1 - x)
            && (x > maxSg ==> o.ret != -1)
            && SplitSpan(rs, pgsize, addr, len, x, prot, sg2).ret == x
  {
    CoveredIff(rs, addr, len);
    OnePiecePerRegion(rs, addr, len);
    AllGranted(rs, addr, len, prot, maxSg);
    AllGranted(rs, addr, len, prot, |RegionsMet(rs, addr, len)|);
  }

  // ----------------------------------------------------------- refused writes

  /** A piece in a region that the client registered without permission to write: bit 1 of its protection is clear. */
  predicate ReadOnlyPiece(rs: seq<Region>, p: Piece) {
    p.idx < |rs| && rs[p.idx].prot / 2 % 2 == 0
  }

  /**
   For any table and any span: access is denied if and only if writing is asked for and one of the
   pieces that get an entry lies in a read-only region; otherwise the span is not found if and only
   if one of its bytes is in no region.
   */
  lemma TranslationOutcome(rs: seq<Region>, pgsize: nat, addr: nat, len: nat, maxSg: nat, prot: nat, sg: Sg)
    ensures var o := SplitSpan(rs, pgsize, addr, len, maxSg, prot, sg);
            var ps := Pieces(rs, addr, len);
            && (o.errno == ProtectionDenied <==>
                prot / 2 % 2 == 1 && exists k :: 0 <= k < |ps| && k < maxSg && ReadOnlyPiece(rs, ps[k]))
            && (o.errno == NotFound <==>
                o.errno != ProtectionDenied && exists a: nat :: addr <= a < addr + len && Find(rs, a) == |rs|)
            && (o.ret == -1 <==> o.errno != NoError)
  {
    hide MarkAll, LastSg, Pieces, Granted, Find;
    var ps := Pieces(rs, addr, len);
    PiecesTile(rs, addr, len);
    CoveredIff(rs, addr, len);
    StoppedIff(rs, ps, maxSg, prot);
  }

  lemma StoppedIff(rs: seq<Region>, ps: seq<Piece>, maxSg: nat, prot: nat)
    requires forall k :: 0 <= k < |ps| ==> ps[k].idx < |rs|
    ensures var es := Entries(ps, maxSg);
            Granted(rs, es, prot) < |es| <==>
            prot / 2 % 2 == 1 && exists k :: 0 <= k < |ps| && k < maxSg && ReadOnlyPiece(rs, ps[k])
  {
    var es := Entries(ps, maxSg);
    var g := Granted(rs, es, prot);
    assert g < |es| ==> ReadOnlyPiece(rs, ps[g]);
    if k :| 0 <= k < |ps| && k < maxSg && ReadOnlyPiece(rs, ps[k]) {
      assert es[k] == ps[k];
    }
  }

  /** Every region that a covered span meets has a piece of it. */
  lemma {:induction false} MetHasPiece(rs: seq<Region>, addr: nat, len: nat, i: nat)
    requires WellFormed(rs) && Total(Pieces(rs, addr, len)) == len
    requires i < |rs| && Meets(rs[i], addr, len)
    ensures exists k :: 0 <= k < |Pieces(rs, addr, len)| && Pieces(rs, addr, len)[k].idx == i
    decreases len
  {
    hide WellFormed, Meets;
    var ps := Pieces(rs, addr, len);
    MetIsNotEmpty(rs[i], addr, len);
    FirstPiece(rs, addr, len);
    if ps[0].idx != i {
      MetByFirstPiece(rs, ps[0], addr, len);
      assert i in RegionsMet(rs, addr, len);
      MetHasPiece(rs, addr + ps[0].len, len - ps[0].len, i);
      var k :| 0 <= k < |ps[1..]| && ps[1..][k].idx == i;
      assert ps[k + 1].idx == i;
    }
  }

  lemma MetIsNotEmpty(r: Region, addr: nat, len: nat)
    ensures Meets(r, addr, len) ==> len > 0
  {
  }

  /**
   With room for all entries, a covered span is refused if and only if writing is asked for and some
   region that it meets was registered without bit 1 (PROT_WRITE) of its protection.
   */
  lemma DeniedIff(rs: seq<Region>, pgsize: nat, addr: nat, len: nat, maxSg: nat, prot: nat, sg: Sg)
    requires WellFormed(rs) && |RegionsMet(rs, addr, len)| <= maxSg
    requires forall a: nat :: addr <= a < addr + len ==> Find(rs, a) < |rs|
    ensures SplitSpan(rs, pgsize, addr, len, maxSg, prot, sg).errno == ProtectionDenied <==>
            prot / 2 % 2 == 1
            && exists i :: 0 <= i < |rs| && Meets(rs[i], addr, len) && rs[i].prot / 2 % 2 == 0
  {
    hide SplitSpan, WellFormed, Meets;
    var ps := Pieces(rs, addr, len);
    CoveredIff(rs, addr, len);
    OnePiecePerRegion(rs, addr, len);
    TranslationOutcome(rs, pgsize, addr, len, maxSg, prot, sg);
    if i :| 0 <= i < |rs| && Meets(rs[i], addr, len) && rs[i].prot / 2 % 2 == 0 {
      MetHasPiece(rs, addr, len, i);
      var k :| 0 <= k < |ps| && ps[k].idx == i;
      assert ReadOnlyPiece(rs, ps[k]);
    }
    if k :| 0 <= k < |ps| && ReadOnlyPiece(rs, ps[k]) {
      PiecesMeet(rs, addr, len, k);
    }
  }

  // ------------------------------------------------------------ one region only

  /** A span inside region i is one piece, so the search returns what a direct lookup of i would. */
  lemma SpanInsideRegion(rs: seq<Region>, pgsize: nat, addr: nat, len: nat, maxSg: int, prot: nat, sg: Sg, i: nat)
    requires WellFormed(rs) && i < |rs| && maxSg > 0 && len > 0
    requires rs[i].base <= addr && addr + len <= rs[i].End()
    ensures Pieces(rs, addr, len) == [Piece(i, addr, len)]
    ensures SplitSpan(rs, pgsize, addr, len, maxSg, prot, sg) ==
            if rs[i].Grants(prot) then
              Split(MarkAll(pgsize, prot, rs, [Piece(i, addr, len)]), 1, NoError, SgOf(rs, Piece(i, addr, len)))
            else Split(rs, -1, ProtectionDenied, sg)
  {
    NoAddressTwice(rs, i, Find(rs, addr), addr);
    var p := Piece(i, addr, len);
    var ps := Pieces(rs, addr, len);
    assert Pieces(rs, addr + len, 0) == [];
    assert ps == [p];
    assert Entries(ps, maxSg) == [p];
    assert [p][..1] == [p];
  }

  // -------------------------------------------------------- the caller's entries

  /** The list has the entry of each piece in its place. */
  predicate Describes(rs: seq<Region>, ps: seq<Piece>, list: seq<Sg>) {
    && |ps| <= |list|
    && forall k :: 0 <= k < |ps| ==> Fits(rs, ps[k]) && list[k] == SgOf(rs, ps[k])
  }

  lemma LastIsNotFirst(rs: seq<Region>, addr: nat, len: nat)
    requires |Pieces(rs, addr, len)| > 1
    ensures var ps := Pieces(rs, addr, len);
            && Fits(rs, ps[0]) && Fits(rs, ps[|ps| - 1])
            && SgOf(rs, ps[0]) != SgOf(rs, ps[|ps| - 1])
  {
    var ps := Pieces(rs, addr, len);
    var n := |ps| - 1;
    PiecesTile(rs, addr, len);
    TotalSplit(ps[..n], 0);
    assert ps[..n][0] == ps[0];
  }

  /**
   The search never moves on in the caller's array: only its first entry is written. After a
   search that succeeds the array describes the span if and only if at most one region was met.
   */
  lemma ListDescribesIff(rs: seq<Region>, pgsize: nat, addr: nat, len: nat, prot: nat, sgs: seq<Sg>)
    requires WellFormed(rs) && sgs != [] && |RegionsMet(rs, addr, len)| <= |sgs|
    requires forall i :: 0 <= i < |rs| && Meets(rs[i], addr, len) ==> rs[i].Grants(prot)
    requires forall a: nat :: addr <= a < addr + len ==> Find(rs, a) < |rs|
    ensures var o := SplitSpan(rs, pgsize, addr, len, |sgs|, prot, sgs[0]);
            && o.ret == |RegionsMet(rs, addr, len)|
            && (Describes(rs, Pieces(rs, addr, len), sgs[0 := o.sg]) <==> o.ret <= 1)
  {
    hide WellFormed, Pieces, MarkAll, Meets;
    var ps := Pieces(rs, addr, len);
    var o := SplitSpan(rs, pgsize, addr, len, |sgs|, prot, sgs[0]);
    RetryCount(rs, pgsize, addr, len, |sgs|, prot, sgs[0], sgs[0]);
    CoveredIff(rs, addr, len);
    OnePiecePerRegion(rs, addr, len);
    AllGranted(rs, addr, len, prot, |sgs|);
    PiecesTile(rs, addr, len);
    assert Entries(ps, |sgs|)[..|ps|] == ps;
    assert o.sg == LastSg(rs, ps, sgs[0]);
    if |ps| > 1 {
      LastIsNotFirst(rs, addr, len);
      assert sgs[0 := o.sg][0] == o.sg;
    }
  }
}
