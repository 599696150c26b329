/**
 Reference counts of mapped scatter/gather entries (lib/dma.h). Mapping finds the
 region by index, unmapping by base address; the counts agree all the same.
 */
module DmaMapping {
  import opened Common
  import opened DmaTable
  import opened DmaTranslate

  const EINVAL := 22
  const EFAULT := 14

  /** A range of the server's own address space. */
  datatype Iov = Iov(base: nat, len: nat)

  datatype Mapped = Mapped(rs: seq<Region>, ret: int, iovs: seq<Iov>)

  predicate Mappable(rs: seq<Region>, e: Sg) {
    e.region < |rs| && rs[e.region].vaddr.Some?
  }

  /** How many leading entries can be mapped before the call stops. */
  function MappablePrefix(rs: seq<Region>, es: seq<Sg>, n: nat := 0): (k: nat)
    requires n <= |es|
    ensures n <= k <= |es|
    ensures forall i :: n <= i < k ==> Mappable(rs, es[i])
    ensures k < |es| ==> !Mappable(rs, es[k])
    decreases |es| - n
  {
    if n < |es| && Mappable(rs, es[n]) then MappablePrefix(rs, es, n + 1) else n
  }

  /** Changes the reference count of region i by d. */
  function Bump(rs: seq<Region>, i: nat, d: int): (r: seq<Region>)
    ensures |r| == |rs|
    ensures forall j :: 0 <= j < |rs| ==> r[j] == rs[j].(refcnt := r[j].refcnt)
    ensures forall j :: 0 <= j < |rs| ==> r[j].refcnt == rs[j].refcnt + if i == j then d else 0
  {
    if i < |rs| then rs[i := rs[i].(refcnt := rs[i].refcnt + d)] else rs
  }

  /** Counts one more user for each entry's region, found by index. */
  function Taken(rs: seq<Region>, es: seq<Sg>): (r: seq<Region>)
    ensures |r| == |rs|
    ensures forall j :: 0 <= j < |rs| ==> r[j] == rs[j].(refcnt := r[j].refcnt)
  {
    if es == [] then rs else Bump(Taken(rs, es[..|es| - 1]), es[|es| - 1].region, 1)
  }

  function IovOf(rs: seq<Region>, e: Sg): Iov
    requires Mappable(rs, e)
  {
    Iov(rs[e.region].vaddr.value + e.offset, e.length)
  }

  function Iovs(rs: seq<Region>, es: seq<Sg>): seq<Iov>
    requires forall i :: 0 <= i < |es| ==> Mappable(rs, es[i])
  {
    seq(|es|, i requires 0 <= i < |es| => IovOf(rs, es[i]))
  }

  /** dma_map_sg(): entries before the first failing one stay counted. */
  function Map(rs: seq<Region>, es: seq<Sg>): (m: Mapped) {
    var k := MappablePrefix(rs, es);
    Mapped(Taken(rs, es[..k]),
           if k == |es| then 0 else if es[k].region >= |rs| then -EINVAL else -EFAULT,
           Iovs(rs, es[..k]))
  }

  /**
   Mapping succeeds if and only if every entry's region is there and mapped. Otherwise the first entry
   that is not decides: -EINVAL if its index is outside the table, -EFAULT if its region is not
   mapped. The entries in front of it have their ranges in any case.
   */
  lemma MapAnswers(rs: seq<Region>, es: seq<Sg>)
    ensures var m := Map(rs, es);
            && |m.iovs| <= |es|
            && (m.ret == 0 <==> |m.iovs| == |es|)
            && (forall k :: 0 <= k < |m.iovs| ==>
                  && es[k].region < |rs| && rs[es[k].region].vaddr.Some?
                  && m.iovs[k] == Iov(rs[es[k].region].vaddr.value + es[k].offset, es[k].length))
            && (|m.iovs| < |es| ==>
                  var e := es[|m.iovs|];
                  if e.region >= |rs| then m.ret == -22 else rs[e.region].vaddr.None? && m.ret == -14)
  {
  }

  /** An entry of a region that is not mapped says so, and cannot be mapped. */
  lemma UnmappedEntry(rs: seq<Region>, pgsize: nat, addr: nat, len: nat, prot: nat, sg: Sg, i: nat)
    requires WellFormed(rs) && i < |rs| && len > 0
    requires rs[i].base <= addr && addr + len <= rs[i].End()
    requires rs[i].vaddr.None? && rs[i].Grants(prot)
    ensures var o := SplitSpan(rs, pgsize, addr, len, 1, prot, sg);
            o.sg == Sg(rs[i].base, i, addr - rs[i].base, len, false) && Map(o.rs, [o.sg]).ret == -14
  {
    hide WellFormed, SplitSpan;
    SpanInsideRegion(rs, pgsize, addr, len, 1, prot, sg, i);
  }

  /**
   Translating a span inside a mapped region and mapping the entry gives the server's addresses of
   exactly these bytes.
   */
  lemma TranslateThenMap(rs: seq<Region>, pgsize: nat, addr: nat, len: nat, prot: nat, sg: Sg, i: nat)
    requires WellFormed(rs) && i < |rs| && len > 0
    requires rs[i].base <= addr && addr + len <= rs[i].End()
    requires rs[i].vaddr.Some? && rs[i].Grants(prot)
    ensures var o := SplitSpan(rs, pgsize, addr, len, 1, prot, sg);
            var m := Map(o.rs, [o.sg]);
            && o.sg == Sg(rs[i].base, i, addr - rs[i].base, len, true)
            && m.ret == 0 && m.iovs == [Iov(rs[i].vaddr.value + (addr - rs[i].base), len)]
  {
    hide WellFormed, SplitSpan;
    SpanInsideRegion(rs, pgsize, addr, len, 1, prot, sg, i);
    var o := SplitSpan(rs, pgsize, addr, len, 1, prot, sg);
    assert [o.sg][..1] == [o.sg];
  }

  /**
   The bytes that are mapped are the right ones of the file: mmap() put the file from the last page
   boundary in front of the requested offset on at env.mmap, and byte a of the region is byte
   q.offset + (a - q.base) of the file.
   */
  lemma MappedIsFile(rs: seq<Region>, max: nat, q: Request, env: AddEnv,
                     pgsize: nat, addr: nat, len: nat, prot: nat, sg: Sg)
    requires WellFormed(rs) && |rs| <= max && Add(rs, max, q, env).rs != rs && q.fd != -1
    requires q.base <= addr && addr + len <= q.base + q.len && len > 0
    requires prot / 2 % 2 == 1 ==> q.prot / 2 % 2 == 1
    ensures var r := NewRegion(q, env);
            var o := SplitSpan(Add(rs, max, q, env).rs, pgsize, addr, len, 1, prot, sg);
            var m := Map(o.rs, [o.sg]);
            && o.ret == 1 && m.ret == 0 && |m.iovs| == 1 && m.iovs[0].len == len
            && env.mmap.Some?
            && RoundDown(q.offset, r.pageSize) + (m.iovs[0].base - env.mmap.value) == q.offset + (addr - q.base)
  {
    hide WellFormed, SplitSpan, Map;
    var t := Add(rs, max, q, env).rs;
    AddKeepsWellFormed(rs, max, q, env);
    assert t[|rs|] == NewRegion(q, env);
    SpanInsideRegion(t, pgsize, addr, len, 1, prot, sg, |rs|);
    TranslateThenMap(t, pgsize, addr, len, prot, sg, |rs|);
  }

  /** Index of the first region with this base; |rs| if there is none. */
  function FindBase(rs: seq<Region>, base: nat, n: nat := 0): (i: nat)
    requires n <= |rs|
    ensures n <= i <= |rs|
    ensures i < |rs| ==> rs[i].base == base
    ensures forall j :: n <= j < i ==> rs[j].base != base
    decreases |rs| - n
  {
    if n == |rs| || rs[n].base == base then n else FindBase(rs, base, n + 1)
  }

  /**
   dma_unmap_sg(): one user fewer for each entry's region, found by base. An entry whose
   region is gone makes the call touch the slot behind the table, never the table itself.
   */
  function Unmap(rs: seq<Region>, es: seq<Sg>): (r: seq<Region>)
    ensures |r| == |rs|
    ensures forall j :: 0 <= j < |rs| ==> r[j] == rs[j].(refcnt := r[j].refcnt)
  {
    if es == [] then rs
    else
      var r := Unmap(rs, es[..|es| - 1]);
      Bump(r, FindBase(r, es[|es| - 1].base), -1)
  }

  lemma NothingTaken(rs: seq<Region>, es: seq<Sg>)
    ensures Taken(rs, es[..0]) == rs && Iovs(rs, es[..0]) == []
  {
  }

  lemma TakeOneMore(rs: seq<Region>, es: seq<Sg>, i: nat)
    requires i < |es| && forall j :: 0 <= j <= i ==> Mappable(rs, es[j])
    ensures Taken(rs, es[..i + 1]) == Bump(Taken(rs, es[..i]), es[i].region, 1)
    ensures Iovs(rs, es[..i + 1]) == Iovs(rs, es[..i]) + [IovOf(rs, es[i])]
  {
    assert es[..i + 1][..i] == es[..i];
  }

  /** How many of the entries name this index. */
  function NamedByIndex(es: seq<Sg>, j: nat): nat {
    if es == [] then 0 else NamedByIndex(es[..|es| - 1], j) + if es[|es| - 1].region == j then 1 else 0
  }

  /** Mapping counts the region at each entry's index, whatever base the entry names. */
  lemma {:induction false} TakenByIndex(rs: seq<Region>, es: seq<Sg>, j: nat)
    requires j < |rs|
    ensures Taken(rs, es)[j].refcnt == rs[j].refcnt + NamedByIndex(es, j)
  {
    if es != [] {
      TakenByIndex(rs, es[..|es| - 1], j);
    }
  }

  predicate HasBase(rs: seq<Region>, b: nat) {
    exists i :: 0 <= i < |rs| && rs[i].base == b
  }

  lemma UnmapOneMore(rs: seq<Region>, es: seq<Sg>, i: nat)
    requires i < |es|
    ensures var r := Unmap(rs, es[..i]); Unmap(rs, es[..i + 1]) == Bump(r, FindBase(r, es[i].base), -1)
  {
    assert es[..i + 1][..i] == es[..i];
  }

  /** A region of the table is found again however many entries have been unmapped. */
  lemma UnmapFinds(rs: seq<Region>, es: seq<Sg>, b: nat)
    requires HasBase(rs, b)
    ensures FindBase(Unmap(rs, es), b) < |rs|
  {
    var j :| 0 <= j < |rs| && rs[j].base == b;
    assert Unmap(rs, es)[j].base == b;
  }

  /**
   The test for a missing region lets the slot behind the table through: unmapping touches regions
   of the table only, if and only if every entry's region is there.
   */
  lemma UnmapStaysInTableIff(rs: seq<Region>, es: seq<Sg>)
    ensures (forall k :: 0 <= k < |es| ==> FindBase(Unmap(rs, es[..k]), es[k].base) < |rs|)
       <==> (forall k :: 0 <= k < |es| ==> HasBase(rs, es[k].base))
  {
    forall k | 0 <= k < |es|
      ensures FindBase(Unmap(rs, es[..k]), es[k].base) < |rs| <==> HasBase(rs, es[k].base)
    {
      var r := Unmap(rs, es[..k]);
      assert forall j :: 0 <= j < |rs| ==> r[j].base == rs[j].base;
      if HasBase(rs, es[k].base) {
        UnmapFinds(rs, es[..k], es[k].base);
      }
    }
  }

  lemma StopsAt(rs: seq<Region>, es: seq<Sg>, i: nat)
    requires i <= |es| && forall j :: 0 <= j < i ==> Mappable(rs, es[j])
    requires i < |es| ==> !Mappable(rs, es[i])
    ensures MappablePrefix(rs, es) == i
  {
  }

  lemma TakenKeepsWellFormed(rs: seq<Region>, es: seq<Sg>)
    requires WellFormed(rs)
    ensures WellFormed(Taken(rs, es))
  {
  }

  lemma UnmapKeepsWellFormed(rs: seq<Region>, es: seq<Sg>)
    requires WellFormed(rs)
    ensures WellFormed(Unmap(rs, es))
  {
  }

  // ----------------------------------------------------------- conservation

  function Bases(es: seq<Sg>): multiset<nat> {
    if es == [] then multiset{} else Bases(es[..|es| - 1]) + multiset{es[|es| - 1].base}
  }

  /** The region an entry names by index is still the one it was made for. */
  predicate Current(rs: seq<Region>, e: Sg) {
    e.region < |rs| && rs[e.region].base == e.base
  }

  /** Every region's reference count is the number of its entries that are mapped and not yet unmapped. */
  ghost predicate Counted(rs: seq<Region>, outstanding: multiset<nat>) {
    && (forall i :: 0 <= i < |rs| ==> rs[i].refcnt == outstanding[rs[i].base])
    && (forall b :: b in outstanding ==> HasBase(rs, b))
  }

  predicate DistinctBases(rs: seq<Region>) {
    forall i, j :: 0 <= i < j < |rs| ==> rs[i].base != rs[j].base
  }

  lemma WellFormedDistinct(rs: seq<Region>)
    requires WellFormed(rs)
    ensures DistinctBases(rs)
  {
    forall i, j | 0 <= i < j < |rs|
      ensures rs[i].base != rs[j].base
    {
      assert Apart(rs[i], rs[j]);
    }
  }

  lemma HasBaseAt(rs: seq<Region>, i: nat)
    requires i < |rs|
    ensures HasBase(rs, rs[i].base)
  {
  }

  /** A change of reference counts moves no region. */
  lemma BaseKept(rs: seq<Region>, i: nat, d: int, b: nat)
    requires HasBase(rs, b)
    ensures HasBase(Bump(rs, i, d), b)
  {
    var j :| 0 <= j < |rs| && rs[j].base == b;
    HasBaseAt(Bump(rs, i, d), j);
  }

  lemma CountOneMore(rs: seq<Region>, i: nat, outstanding: multiset<nat>)
    requires i < |rs| && Counted(rs, outstanding) && DistinctBases(rs)
    ensures Counted(Bump(rs, i, 1), outstanding + multiset{rs[i].base})
  {
    hide HasBase;
    forall b | b in outstanding + multiset{rs[i].base}
      ensures HasBase(Bump(rs, i, 1), b)
    {
      HasBaseAt(rs, i);
      BaseKept(rs, i, 1, b);
    }
  }

  lemma CountOneLess(rs: seq<Region>, i: nat, outstanding: multiset<nat>)
    requires i < |rs| && Counted(rs, outstanding) && DistinctBases(rs) && rs[i].base in outstanding
    ensures Counted(Bump(rs, i, -1), outstanding - multiset{rs[i].base})
  {
    hide HasBase;
    forall b | b in outstanding - multiset{rs[i].base}
      ensures HasBase(Bump(rs, i, -1), b)
    {
      assert b in outstanding;
      BaseKept(rs, i, -1, b);
    }
  }

  lemma {:induction false} TakenCounts(rs: seq<Region>, es: seq<Sg>, outstanding: multiset<nat>)
    requires DistinctBases(rs) && Counted(rs, outstanding)
    requires forall k :: 0 <= k < |es| ==> Current(rs, es[k])
    ensures Counted(Taken(rs, es), outstanding + Bases(es))
  {
    hide HasBase;
    if es == [] {
      assert outstanding + Bases(es) == outstanding;
    } else {
      var n := |es| - 1;
      var before, sum := Taken(rs, es[..n]), outstanding + Bases(es[..n]);
      TakenCounts(rs, es[..n], outstanding);
      assert Current(rs, es[n]);
      assert before[es[n].region].base == es[n].base;
      CountOneMore(before, es[n].region, sum);
      assert outstanding + Bases(es) == sum + multiset{es[n].base};
    }
  }

  lemma {:induction false} BasesHas(es: seq<Sg>, i: nat)
    requires i < |es|
    ensures es[i].base in Bases(es)
  {
    if i < |es| - 1 {
      BasesHas(es[..|es| - 1], i);
    }
  }

  lemma MapTakesAll(rs: seq<Region>, es: seq<Sg>)
    requires Map(rs, es).ret == 0
    ensures Map(rs, es).rs == Taken(rs, es)
  {
    hide Taken, Iovs;
    assert es[..|es|] == es;
  }

  /** Mapping entries that are still current counts each of them once, if the call succeeds. */
  lemma MapConserves(rs: seq<Region>, es: seq<Sg>, outstanding: multiset<nat>)
    requires WellFormed(rs) && Counted(rs, outstanding) && Map(rs, es).ret == 0
    requires forall k :: 0 <= k < |es| ==> Current(rs, es[k])
    ensures Counted(Map(rs, es).rs, outstanding + Bases(es))
  {
    hide Map, Counted, WellFormed;
    WellFormedDistinct(rs);
    MapTakesAll(rs, es);
    TakenCounts(rs, es, outstanding);
  }

  /** A failed call leaves the counts right if and only if its first entry already failed. */
  lemma FailedMapConservesIff(rs: seq<Region>, es: seq<Sg>, outstanding: multiset<nat>)
    requires WellFormed(rs) && Counted(rs, outstanding) && Map(rs, es).ret != 0
    requires forall k :: 0 <= k < MappablePrefix(rs, es) ==> Current(rs, es[k])
    ensures Counted(Map(rs, es).rs, outstanding) <==> !Mappable(rs, es[0])
  {
    hide WellFormed, HasBase;
    var k := MappablePrefix(rs, es);
    if k == 0 {
      assert es[..0] == [];
    } else {
      WellFormedDistinct(rs);
      var taken := es[..k];
      TakenCounts(rs, taken, outstanding);
      BasesHas(taken, 0);
      assert Current(rs, es[0]);
      var i := es[0].region;
      assert Taken(rs, taken)[i].refcnt == (outstanding + Bases(taken))[es[0].base] > outstanding[es[0].base];
    }
  }

  lemma FindBaseFinds(rs: seq<Region>, b: nat)
    requires HasBase(rs, b)
    ensures FindBase(rs, b) < |rs| && rs[FindBase(rs, b)].base == b
  {
  }

  /** Unmapping entries that are outstanding takes each of them off the counts once. */
  lemma {:induction false} UnmapConserves(rs: seq<Region>, es: seq<Sg>, outstanding: multiset<nat>)
    requires DistinctBases(rs) && Counted(rs, outstanding) && Bases(es) <= outstanding
    ensures Counted(Unmap(rs, es), outstanding - Bases(es))
  {
    hide HasBase;
    if es == [] {
      assert outstanding - Bases(es) == outstanding;
    } else {
      var n, b := |es| - 1, es[|es| - 1].base;
      UnmapConserves(rs, es[..n], outstanding);
      var r, left := Unmap(rs, es[..n]), outstanding - Bases(es[..n]);
      assert b in left;
      FindBaseFinds(r, b);
      CountOneLess(r, FindBase(r, b), left);
      assert outstanding - Bases(es) == left - multiset{b};
    }
  }

  lemma AddConserves(rs: seq<Region>, max: nat, q: Request, env: AddEnv, outstanding: multiset<nat>)
    requires WellFormed(rs) && Counted(rs, outstanding) && |rs| <= max
    ensures Counted(Add(rs, max, q, env).rs, outstanding)
  {
    hide WellFormed;
    var r := Add(rs, max, q, env).rs;
    if r != rs {
      NewBase(rs, max, q, env);
      assert r[|rs|] == NewRegion(q, env);
      forall b | b in outstanding
        ensures HasBase(r, b)
      {
        var i :| 0 <= i < |rs| && rs[i].base == b;
        HasBaseAt(r, i);
      }
    }
  }

  lemma NewBase(rs: seq<Region>, max: nat, q: Request, env: AddEnv)
    requires |rs| <= max && Add(rs, max, q, env).rs != rs
    ensures !HasBase(rs, q.base)
  {
    assert forall i :: 0 <= i < |rs| ==> !Clashes(rs[i], q);
  }

  /** A region can only be removed while none of its entries is mapped, so no count is lost. */
  lemma RemoveConserves(rs: seq<Region>, i: nat, outstanding: multiset<nat>)
    requires Counted(rs, outstanding) && i < |rs| && rs[i].refcnt == 0
    ensures Counted(Without(rs, i), outstanding)
  {
    var w := Without(rs, i);
    forall b | b in outstanding
      ensures HasBase(w, b)
    {
      var j :| 0 <= j < |rs| && rs[j].base == b;
      HasBaseAt(w, if j < i then j else j - 1);
    }
  }
}
