/**
 The DMA controller (lib/dma.c, lib/dma.h): a fixed array of region slots of which the
 first nregions are in use, changed in place. Every method is proved against the value-level
 table; slots behind the table may hold anything.
 */
module DmaController {
  import opened Common
  import opened DirtyBitmap
  import opened DmaTable
  import opened DmaTranslate
  import opened DmaMapping
  import opened DmaLogging
  import opened DmaSearch

  const ZERO_REGION := Region(0, 0, 0, 0, 0, 0, None, 0, 0, 0, None)

  class Controller {
    const maxRegions: nat
    const regions: array<Region>
    var nregions: nat
    var dirtyPgsize: nat
    /** Index of the region that the last slow translation ended in; survives removals. */
    var regionHint: nat

    ghost predicate Valid()
      reads this, regions
    {
      && regions.Length == maxRegions
      && nregions <= maxRegions
      && regionHint < maxRegions
      && WellFormed(Live())
    }

    ghost function Live(): seq<Region>
      requires nregions <= regions.Length
      reads this, regions
    {
      regions[..nregions]
    }

    constructor (maxRegions: nat)
      requires maxRegions > 0
      ensures Valid() && fresh(regions) && this.maxRegions == maxRegions
      ensures Live() == [] && dirtyPgsize == 0
    {
      this.maxRegions := maxRegions;
      regions := new Region[maxRegions](_ => ZERO_REGION);
      nregions, dirtyPgsize, regionHint := 0, 0, 0;
    }

    /** dma_controller_add_region() */
    method AddRegion(q: Request, env: AddEnv) returns (ret: int, closed: multiset<int>)
      requires Valid()
      modifies this`nregions, regions
      ensures Valid()
      ensures Outcome(Live(), ret, closed) == Add(old(Live()), maxRegions, q, env)
    {
      ghost var rs := Live();
      AddKeepsWellFormed(rs, maxRegions, q, env);
      closed := multiset{};
      var idx := 0;
      while idx < nregions
        invariant idx <= nregions
        invariant forall j :: 0 <= j < idx ==> !Clashes(rs[j], q)
      {
        var r := regions[idx];
        if SameSpan(r, q) {
          if !Compatible(r, q, env.files) {
            return -1 - idx, closed;
          }
          return idx, closed;
        }
        if r.Contains(q.base) || q.base <= r.base < q.base + q.len {
          return -1 - idx, closed;
        }
        idx := idx + 1;
      }
      if nregions == maxRegions {
        return -1 - maxRegions, closed;
      }
      if q.fd != -1 && q.fd !in env.files {
        return -1 - nregions, closed;
      }
      regions[nregions] := NewRegion(q, env);
      assert Live() == rs;
      if q.fd != -1 && env.mmap.None? {
        closed := multiset{q.fd};
        return -1 - nregions, closed;
      }
      nregions := nregions + 1;
      assert Live() == rs + [NewRegion(q, env)];
      ret := nregions - 1;
    }

    /** array_remove(): moves the regions behind slot i one slot down. */
    method RemoveSlot(i: nat)
      requires Valid() && i < nregions
      modifies this`nregions, regions
      ensures Valid() && Live() == Without(old(Live()), i)
    {
      hide WellFormed, Without;
      ghost var rs := Live();
      var k := i;
      while k + 1 < nregions
        invariant nregions == old(nregions) && i <= k < nregions
        invariant forall j :: 0 <= j < i || k <= j < nregions ==> regions[j] == rs[j]
        invariant forall j :: i < j <= k ==> regions[j - 1] == rs[j]
      {
        regions[k] := regions[k + 1];
        k := k + 1;
      }
      nregions := nregions - 1;
      WithoutKeepsWellFormed(rs, i);
      forall j | i <= j < nregions
        ensures regions[j] == rs[j + 1]
      {
        assert regions[(j + 1) - 1] == rs[j + 1];
      }
      ShiftedIsWithout(rs, i, Live());
    }

    /**
     dma_controller_remove_region(). A region may only be removed once nothing in it is mapped;
     the two descriptor assertions of the original always hold.
     */
    method RemoveRegion(base: nat, len: nat, unregErr: int) returns (ret: int, closed: multiset<int>)
      requires Valid()
      requires unregErr == 0 ==>
        forall i :: 0 <= i < nregions && Live()[i].base == base && Live()[i].len == len ==> Live()[i].refcnt == 0
      modifies this`nregions, regions
      ensures Valid()
      ensures Outcome(Live(), ret, closed) == Remove(old(Live()), base, len, unregErr)
    {
      ghost var rs := Live();
      closed := multiset{};
      var idx := 0;
      while idx < nregions
        invariant idx <= nregions
        invariant forall j :: 0 <= j < idx ==> !(rs[j].base == base && rs[j].len == len)
      {
        var r := regions[idx];
        if r.base == base && r.len == len {
          assert r == rs[idx];
          if unregErr != 0 {
            return unregErr, closed;
          }
          assert r.refcnt == 0;
          if r.vaddr.Some? {
            assert r.fd != -1;
            closed := multiset{r.fd};
          } else {
            assert r.fd == -1;
          }
          RemoveSlot(idx);
          return 0, closed;
        }
        idx := idx + 1;
      }
      ret := -DmaTable.ENOENT;
    }

    /** The descriptors that removing every region closes: those of the mapped ones. */
    method MappedFds() returns (fds: multiset<int>)
      requires Valid()
      ensures fds == Fds(Live())
    {
      fds := multiset{};
      ghost var rs := Live();
      var i := 0;
      while i < nregions
        invariant i <= nregions
        invariant fds == Fds(rs[..i])
      {
        FdsExtend(rs, i);
        var r := regions[i];
        assert r == rs[i] && MappedIffFd(rs[i]);
        fds := if r.vaddr.Some? then fds + multiset{r.fd} else fds;
        i := i + 1;
      }
      assert rs[..i] == rs;
    }

    /** dma_controller_remove_regions() */
    method RemoveRegions() returns (closed: multiset<int>)
      requires Valid()
      modifies this`nregions, regions
      ensures Valid()
      ensures Outcome(Live(), 0, closed) == RemoveAll(old(Live()))
    {
      closed := MappedFds();
      forall k | 0 <= k < regions.Length {
        regions[k] := ZERO_REGION;
      }
      nregions := 0;
    }

    // ------------------------------------------------------- translation

    /** _dma_mark_dirty() */
    method MarkDirty(i: nat, p: Piece)
      requires Valid() && dirtyPgsize > 0 && i < nregions && p.idx == i
      requires MarkSafe(dirtyPgsize, Live(), p)
      modifies regions
      ensures Valid() && Live() == Mark(dirtyPgsize, old(Live()), p)
    {
      hide WellFormed, BitAt, SetBit, PgStart;
      ghost var rs := Live();
      var r := regions[i];
      var start := FirstPage(dirtyPgsize, r, p);
      var limit := PageLimit(dirtyPgsize, r, p);
      var bm := r.bitmap.value;
      CeilIsLastPlusOne(p.len, dirtyPgsize);
      var page := start;
      while page < limit
        invariant start <= page <= limit
        invariant bm == MarkRange(r.bitmap.value, start, page)
        modifies {}
      {
        DivMonotone(page, limit - 1, CHAR_BIT);
        bm := SetBit(bm, page);
        page := page + 1;
      }
      regions[i] := r.(bitmap := Some(bm));
      assert Live() == rs[i := r.(bitmap := Some(bm))];
      assert Live() == Mark(dirtyPgsize, rs, p);
      MarkKeepsWellFormed(dirtyPgsize, rs, p);
    }

    /** dma_init_sg() for a piece of a region. */
    method InitSg(p: Piece, prot: nat, sg: Sg) returns (ok: bool, out: Sg)
      requires Valid() && Fits(Live(), p)
      requires Logs(dirtyPgsize, prot) && Live()[p.idx].Grants(prot) ==> MarkSafe(dirtyPgsize, Live(), p)
      modifies regions
      ensures Valid()
      ensures ok == old(Live())[p.idx].Grants(prot)
      ensures Live() == if ok && Logs(dirtyPgsize, prot) then Mark(dirtyPgsize, old(Live()), p) else old(Live())
      ensures out == if ok then SgOf(old(Live()), p) else sg
    {
      var r := regions[p.idx];
      if Writes(prot) && !Writes(r.prot) {
        return false, sg;
      }
      out := Sg(r.base, p.idx, p.addr - r.base, p.len, r.vaddr.Some?);
      if Writes(prot) && dirtyPgsize > 0 {
        MarkDirty(p.idx, p);
      }
      ok := true;
    }

    /** Handles the next piece of the slow search: its entry, if there is room, and its dirty pages. */
    method TakePiece(t: Transfer, p: Piece, len: nat, sg: Sg, cnt: nat,
                     ghost rs: seq<Region>, ghost done: seq<Piece>)
      returns (denied: bool, out: Sg)
      requires Valid() && WellFormed(rs) && |done| == cnt
      requires Next(rs, p, p.addr, len) && SameButBitmaps(rs, Live())
      requires Progress(rs, dirtyPgsize, t, done, p.addr, len, Live(), sg)
      requires AllMarksSafe(dirtyPgsize, t.prot, rs, Entries(Pieces(rs, t.addr, t.len), t.maxSg))
      modifies regions
      ensures Valid() && SameButBitmaps(rs, Live())
      ensures denied ==> Split(Live(), -1, ProtectionDenied, out) == Result(rs, dirtyPgsize, t)
      ensures !denied ==> Progress(rs, dirtyPgsize, t, done + [p], p.addr + p.len, len - p.len, Live(), out)
    {
      hide Progress, Pieces, MarkAll, WellFormed;
      ghost var cur := Live();
      denied, out := false, sg;
      if cnt < t.maxSg {
        if Logs(dirtyPgsize, t.prot) && regions[p.idx].Grants(t.prot) {
          NextMarkSafe(rs, dirtyPgsize, t, done, p, p.addr, len, cur, sg);
        }
        var ok;
        ok, out := InitSg(p, t.prot, sg);
        if ok {
          StepWithEntry(rs, dirtyPgsize, t, done, p, p.addr, len, cur, sg);
        } else {
          denied := true;
          ProgressDenied(rs, dirtyPgsize, t, done, p, p.addr, len, cur, sg);
        }
      } else {
        StepWithoutEntry(rs, dirtyPgsize, t, done, p, p.addr, len, cur, sg);
      }
    }

    /**
     _dma_addr_sg_split(). The original tests whether a region holds the address in a loop,
     which runs at most once since a piece ends where its region ends.
     */
    method SgSplit(t: Transfer) returns (ret: int, errno: Errno, sg: Sg)
      requires Valid()
      requires AllMarksSafe(dirtyPgsize, t.prot, Live(), Entries(Pieces(Live(), t.addr, t.len), t.maxSg))
      modifies regions
      ensures Valid()
      ensures Split(Live(), ret, errno, sg) == Result(old(Live()), dirtyPgsize, t)
    {
      hide Progress, Pieces, MarkAll;
      ghost var rs := Live();
      var addr: nat, len: nat, cnt: nat, found := t.addr, t.len, 0, true;
      sg := t.sg;
      ghost var done: seq<Piece> := [];
      ProgressStart(rs, dirtyPgsize, t);
      label Search:
      while found && len > 0
        invariant Valid() && |done| == cnt && SameButBitmaps(rs, Live())
        invariant Progress(rs, dirtyPgsize, t, done, addr, len, Live(), sg)
        invariant found || (len > 0 && forall j :: 0 <= j < |rs| ==> !rs[j].Contains(addr))
        decreases len, found
      {
        ghost var before := len;
        found := false;
        var idx := 0;
        while idx < nregions
          invariant Valid() && |done| == cnt && idx <= nregions && 0 < len <= before
          invariant SameButBitmaps(rs, Live())
          invariant Progress(rs, dirtyPgsize, t, done, addr, len, Live(), sg)
          invariant if found then len < before
                    else len == before && forall j :: 0 <= j < idx ==> !rs[j].Contains(addr)
        {
          var r := regions[idx];
          assert r == rs[idx].(bitmap := r.bitmap);
          if r.Contains(addr) {
            var p := Piece(idx, addr, Min(r.End() - addr, len));
            var denied;
            denied, sg := TakePiece(t, p, len, sg, cnt, rs, done);
            if denied {
              return -1, ProtectionDenied, sg;
            }
            done := done + [p];
            cnt := cnt + 1;
            found := true;
            addr, len := addr + p.len, len - p.len;
            if len == 0 {
              break Search;
            }
          }
          idx := idx + 1;
        }
      }
      if !found {
        ProgressStuck(rs, dirtyPgsize, t, done, addr, len, Live(), sg);
        return -1, NotFound, sg;
      }
      ProgressDone(rs, dirtyPgsize, t, done, addr, Live(), sg);
      return if cnt > t.maxSg then -1 - cnt else cnt, NoError, sg;
    }

    /** dma_addr_to_sg(): whatever region the hint names, the result is that of the slow search. */
    method AddrToSg(t: Transfer) returns (ret: int, errno: Errno, sg: Sg)
      requires Valid()
      requires AllMarksSafe(dirtyPgsize, t.prot, Live(), Entries(Pieces(Live(), t.addr, t.len), t.maxSg))
      modifies this`regionHint, regions
      ensures Valid()
      ensures Split(Live(), ret, errno, sg) == Result(old(Live()), dirtyPgsize, t)
    {
      hide SplitSpan, Pieces, MarkAll, MarkSafe, WellFormed;
      ghost var rs := Live();
      var r := regions[regionHint];
      if t.maxSg > 0 && t.len > 0 && t.addr >= r.base && t.addr + t.len <= r.End() && regionHint < nregions {
        var p := Piece(regionHint, t.addr, t.len);
        SpanInsideRegion(rs, dirtyPgsize, t.addr, t.len, t.maxSg, t.prot, t.sg, regionHint);
        MarkOne(dirtyPgsize, t.prot, rs, p);
        assert Entries([p], t.maxSg)[0] == p;
        var ok, out := InitSg(p, t.prot, t.sg);
        if !ok {
          return -1, ProtectionDenied, out;
        }
        return 1, NoError, out;
      }
      ret, errno, sg := SgSplit(t);
      if ret > 0 {
        LastEntryInTable(rs, dirtyPgsize, t);
        regionHint := sg.region;
      }
    }

    // ------------------------------------------------------------ mapping

    /** Changes the reference count in slot i, which may be the one behind the table. */
    method BumpSlot(i: nat, d: int)
      requires nregions <= regions.Length && i < regions.Length
      modifies regions
      ensures Live() == Bump(old(Live()), i, d)
    {
      ghost var rs := Live();
      regions[i] := regions[i].(refcnt := regions[i].refcnt + d);
      assert Live() == Bump(rs, i, d);
    }

    /** dma_map_sg() */
    method MapSg(es: seq<Sg>) returns (ret: int, iovs: seq<Iov>)
      requires Valid()
      modifies regions
      ensures Valid()
      ensures Mapped(Live(), ret, iovs) == Map(old(Live()), es)
    {
      hide WellFormed, Iovs, Taken, Bump;
      ghost var rs := Live();
      iovs := [];
      var i := 0;
      NothingTaken(rs, es);
      while i < |es|
        invariant i <= |es| && |Live()| == |rs|
        invariant forall j :: 0 <= j < i ==> Mappable(rs, es[j])
        invariant Live() == Taken(rs, es[..i])
        invariant iovs == Iovs(rs, es[..i])
      {
        var e := es[i];
        if e.region >= nregions {
          StopsAt(rs, es, i);
          TakenKeepsWellFormed(rs, es[..i]);
          return -DmaMapping.EINVAL, iovs;
        }
        var r := regions[e.region];
        assert r == Live()[e.region];
        if r.vaddr.None? {
          StopsAt(rs, es, i);
          TakenKeepsWellFormed(rs, es[..i]);
          return -EFAULT, iovs;
        }
        TakeOneMore(rs, es, i);
        iovs := iovs + [Iov(r.vaddr.value + e.offset, e.length)];
        BumpSlot(e.region, 1);
        i := i + 1;
      }
      StopsAt(rs, es, i);
      TakenKeepsWellFormed(rs, es[..i]);
      ret := 0;
    }

    /** Index of the first region with this base; nregions if there is none. */
    method FindSlot(base: nat) returns (r: nat)
      requires nregions <= regions.Length
      ensures r == FindBase(Live(), base)
    {
      r := 0;
      while r < nregions && regions[r].base != base
        invariant r <= nregions
        invariant forall j :: 0 <= j < r ==> Live()[j].base != base
      {
        r := r + 1;
      }
    }

    /**
     dma_unmap_sg(). An entry whose region is gone decrements the slot behind the table, so
     there must be such a slot.
     */
    method UnmapSg(es: seq<Sg>)
      requires Valid()
      requires nregions < maxRegions || forall k :: 0 <= k < |es| ==> HasBase(Live(), es[k].base)
      modifies regions
      ensures Valid() && Live() == Unmap(old(Live()), es)
    {
      hide WellFormed, Bump, HasBase;
      ghost var rs := Live();
      var i := 0;
      assert es[..0] == [];
      while i < |es|
        invariant i <= |es| && |Live()| == |rs|
        invariant Live() == Unmap(rs, es[..i])
      {
        var r := FindSlot(es[i].base);
        if HasBase(rs, es[i].base) {
          UnmapFinds(rs, es[..i], es[i].base);
        }
        UnmapOneMore(rs, es, i);
        BumpSlot(r, -1);
        i := i + 1;
      }
      assert es[..i] == es;
      UnmapKeepsWellFormed(rs, es);
    }

    // ------------------------------------------------------ dirty logging

    /** dma_controller_dirty_page_logging_start(); the allocation for region failAt fails. */
    method LoggingStart(pgsize: nat, failAt: nat) returns (ret: int)
      requires Valid()
      modifies this`dirtyPgsize, regions
      ensures Valid()
      ensures Logging(Live(), dirtyPgsize, ret) == Start(old(Live()), old(dirtyPgsize), pgsize, failAt)
    {
      hide WellFormed, BitmapSize;
      if pgsize == 0 {
        return -DmaLogging.EINVAL;
      }
      if dirtyPgsize > 0 {
        return if dirtyPgsize != pgsize then -DmaLogging.EINVAL else 0;
      }
      ghost var rs := Live();
      var i := 0;
      while i < nregions
        invariant i <= nregions && |Live()| == |rs|
        invariant forall j :: 0 <= j < i ==> BitmapSize(rs[j].len, pgsize).Some?
        invariant !(0 <= failAt < i) && dirtyPgsize == 0
        invariant Live() == WithBitmaps(rs, pgsize, i)
      {
        var size := BitmapSize(regions[i].len, pgsize);
        assert regions[i] == rs[i];
        if size.None? {
          assert i == FirstFailure(rs, pgsize, failAt, 0);
          WithBitmapsKeepWellFormed(rs, pgsize, i);
          return -DmaLogging.EINVAL;
        }
        if i == failAt {
          assert i == FirstFailure(rs, pgsize, failAt, 0);
          ReleaseBitmaps(i + 1, rs);
          WithoutBitmapsKeepWellFormed(rs, i + 1);
          return -ENOMEM;
        }
        regions[i] := regions[i].(bitmap := Some(Blank(size.value)));
        assert Live() == WithBitmaps(rs, pgsize, i + 1);
        i := i + 1;
      }
      WithBitmapsKeepWellFormed(rs, pgsize, i);
      dirtyPgsize := pgsize;
      ret := 0;
    }

    /** Releases the bitmaps of the first n regions. */
    method ReleaseBitmaps(n: nat, ghost rs: seq<Region>)
      requires nregions <= regions.Length && n <= nregions
      requires SameButBitmaps(rs, Live()) && forall i :: n <= i < nregions ==> regions[i] == rs[i]
      modifies regions
      ensures Live() == WithoutBitmaps(rs, n)
    {
      var i := 0;
      while i < n
        invariant i <= n
        invariant SameButBitmaps(rs, Live())
        invariant forall j :: n <= j < nregions ==> regions[j] == rs[j]
        invariant forall j :: 0 <= j < i ==> regions[j] == rs[j].(bitmap := None)
      {
        regions[i] := regions[i].(bitmap := None);
        i := i + 1;
      }
      assert Live() == WithoutBitmaps(rs, n);
    }

    /** dma_controller_dirty_page_logging_stop() */
    method LoggingStop() returns (ret: int)
      requires Valid()
      modifies this`dirtyPgsize, regions
      ensures Valid()
      ensures Logging(Live(), dirtyPgsize, ret) == Stop(old(Live()), old(dirtyPgsize))
    {
      hide WellFormed;
      ret := 0;
      if dirtyPgsize > 0 {
        ghost var rs := Live();
        ReleaseBitmaps(nregions, rs);
        WithoutBitmapsKeepWellFormed(rs, nregions);
        dirtyPgsize := 0;
      }
    }

    /** dma_controller_dirty_page_get() */
    method DirtyPageGet(addr: nat, len: nat, pgsize: nat, size: nat) returns (ret: int, data: Option<seq<bv8>>)
      requires Valid()
      modifies this`regionHint, regions
      ensures Valid() && Live() == old(Live())
      ensures Bitmap(ret, data) == Get(Live(), dirtyPgsize, addr, len, pgsize, size)
    {
      var blank := Sg(0, 0, 0, 0, false);
      GetTranslates(Live(), dirtyPgsize, addr, len);
      var n, errno, sg := AddrToSg(Transfer(addr, len, 1, 0, blank));
      if n != 1 || sg.base != addr || sg.length != len {
        return -ENOTSUP, None;
      }
      if pgsize != dirtyPgsize {
        return -DmaLogging.EINVAL, None;
      }
      var bitmapSize := BitmapSize(len, pgsize);
      if bitmapSize.None? || size != bitmapSize.value {
        return -DmaLogging.EINVAL, None;
      }
      return 0, regions[sg.region].bitmap;
    }
  }
}
