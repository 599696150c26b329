/**
 The table of DMA regions (lib/dma.c, lib/dma.h) as a value: what registering and
 removing a region does to it, and the invariants that every run keeps.
 */
module DmaTable {
  import opened Common

  /** Bit of a protection mask that allows writing. */
  const PROT_WRITE := 2

  predicate Writes(prot: nat) {
    prot / PROT_WRITE % 2 == 1
  }

  /**
   One DMA region. vaddr is None for a region that is not mapped into the server;
   mapBase and mapLen are the mapping that vaddr lies in.
   */
  datatype Region = Region(
    base: nat, len: nat, prot: nat,
    fd: int, offset: nat, pageSize: nat,
    vaddr: Option<nat>, mapBase: nat, mapLen: nat,
    refcnt: int, bitmap: Option<seq<bv8>>)
  {
    function End(): nat {
      base + len
    }

    predicate Contains(addr: nat) {
      base <= addr < base + len
    }

    /** dma_init_sg() refuses a write to a region that is not writable. */
    predicate Grants(want: nat) {
      Writes(want) ==> Writes(prot)
    }
  }

  /** The file behind a descriptor, as fstat() reports it. */
  datatype File = File(dev: nat, ino: nat, blksize: nat)

  /** What the system answers while a region is added: open files, page size, and where mmap() put it. */
  datatype AddEnv = AddEnv(files: map<int, File>, pagesize: pos, mmap: Option<nat>)

  datatype Request = Request(base: nat, len: nat, fd: int, offset: nat, prot: nat)

  /** Outcome of an operation: the new table, the returned value and the descriptors it closed. */
  datatype Outcome = Outcome(rs: seq<Region>, ret: int, closed: multiset<int>)

  const ENOENT := 2

  /** Two regions neither start at the same address nor inside one another. */
  predicate Apart(r: Region, s: Region) {
    && r.base != s.base
    && !r.Contains(s.base)
    && !s.Contains(r.base)
  }

  /** A region is mapped exactly when it has a file descriptor. */
  predicate MappedIffFd(r: Region) {
    r.vaddr.Some? <==> r.fd != -1
  }

  predicate WellFormed(rs: seq<Region>) {
    && (forall i, j :: 0 <= i < j < |rs| ==> Apart(rs[i], rs[j]))
    && (forall i :: 0 <= i < |rs| ==> MappedIffFd(rs[i]))
  }

  // ---------------------------------------------------------------- adding

  predicate SameFile(files: map<int, File>, fd1: int, fd2: int) {
    || fd1 == fd2
    || (&& fd1 in files && fd2 in files
        && files[fd1].dev == files[fd2].dev && files[fd1].ino == files[fd2].ino)
  }

  predicate SameSpan(r: Region, q: Request) {
    r.base == q.base && r.len == q.len
  }

  predicate Clashes(r: Region, q: Request) {
    || SameSpan(r, q)
    || r.Contains(q.base)
    || q.base <= r.base < q.base + q.len
  }

  predicate Compatible(r: Region, q: Request, files: map<int, File>) {
    r.offset == q.offset && SameFile(files, r.fd, q.fd) && r.prot == q.prot
  }

  /** Index of the first region that has the requested span or overlaps it; |rs| if there is none. */
  function FirstClash(rs: seq<Region>, q: Request, n: nat := 0): (i: nat)
    requires n <= |rs|
    ensures n <= i <= |rs|
    ensures i < |rs| ==> Clashes(rs[i], q)
    ensures forall j :: n <= j < i ==> !Clashes(rs[j], q)
    decreases |rs| - n
  {
    if n == |rs| || Clashes(rs[n], q) then n else FirstClash(rs, q, n + 1)
  }

  /** The region that is stored for a request, with the mapping made by dma_map_region(). */
  function NewRegion(q: Request, env: AddEnv): Region
  {
    var ps := Max(if q.fd != -1 && q.fd in env.files then env.files[q.fd].blksize else 0, env.pagesize);
    var r := Region(q.base, q.len, q.prot, q.fd, q.offset, ps, None, 0, 0, 0, None);
    if q.fd == -1 || env.mmap.None? then r
    else
      var start := RoundDown(q.offset, ps);
      r.(vaddr := Some(env.mmap.value + (q.offset - start)),
         mapBase := env.mmap.value, mapLen := RoundUp(q.len, ps))
  }

  /** dma_controller_add_region() on a table that can hold max regions. */
  function Add(rs: seq<Region>, max: nat, q: Request, env: AddEnv): (o: Outcome)
    requires |rs| <= max
    ensures |o.rs| <= max
    ensures o.rs == rs || (o.ret == |rs| && o.rs == rs + [NewRegion(q, env)])
    ensures o.ret < 0 ==> o.rs == rs
  {
    var i := FirstClash(rs, q);
    if i < |rs| then
      Outcome(rs, if SameSpan(rs[i], q) && Compatible(rs[i], q, env.files) then i else -1 - i, multiset{})
    else if |rs| == max then
      Outcome(rs, -1 - max, multiset{})
    else if q.fd != -1 && q.fd !in env.files then
      Outcome(rs, -1 - |rs|, multiset{})
    else if q.fd != -1 && env.mmap.None? then
      Outcome(rs, -1 - |rs|, multiset{q.fd})
    else
      Outcome(rs + [NewRegion(q, env)], |rs|, multiset{})
  }

  // -------------------------------------------------------------- removing

  /** Index of the first region with exactly this span; |rs| if there is none. */
  function FindSpan(rs: seq<Region>, base: nat, len: nat, n: nat := 0): (i: nat)
    requires n <= |rs|
    ensures n <= i <= |rs|
    ensures i < |rs| ==> rs[i].base == base && rs[i].len == len
    ensures forall j :: n <= j < i ==> !(rs[j].base == base && rs[j].len == len)
    decreases |rs| - n
  {
    if n == |rs| || (rs[n].base == base && rs[n].len == len) then n else FindSpan(rs, base, len, n + 1)
  }

  function Without(rs: seq<Region>, i: nat): seq<Region>
    requires i < |rs|
  {
    rs[..i] + rs[i + 1..]
  }

  lemma ShiftedIsWithout(rs: seq<Region>, i: nat, t: seq<Region>)
    requires i < |rs| && |t| == |rs| - 1
    requires forall j :: 0 <= j < i ==> t[j] == rs[j]
    requires forall j :: i <= j < |t| ==> t[j] == rs[j + 1]
    ensures t == Without(rs, i)
  {
  }

  function FdOf(r: Region): multiset<int> {
    if r.fd == -1 then multiset{} else multiset{r.fd}
  }

  /** dma_controller_remove_region(); unregErr is what the device's unregister callback returns. */
  function Remove(rs: seq<Region>, base: nat, len: nat, unregErr: int): (o: Outcome)
    ensures |o.rs| <= |rs|
  {
    var i := FindSpan(rs, base, len);
    if i == |rs| then Outcome(rs, -ENOENT, multiset{})
    else if unregErr != 0 then Outcome(rs, unregErr, multiset{})
    else Outcome(Without(rs, i), 0, FdOf(rs[i]))
  }

  function Fds(rs: seq<Region>): multiset<int> {
    if rs == [] then multiset{} else Fds(rs[..|rs| - 1]) + FdOf(rs[|rs| - 1])
  }

  lemma FdsExtend(rs: seq<Region>, i: nat)
    requires i < |rs|
    ensures Fds(rs[..i + 1]) == Fds(rs[..i]) + FdOf(rs[i])
  {
    assert rs[..i + 1][..i] == rs[..i];
  }

  /** dma_controller_remove_regions(): every mapped region's descriptor is closed. */
  function RemoveAll(rs: seq<Region>): Outcome {
    Outcome([], 0, Fds(rs))
  }

  // ------------------------------------------------- what the table promises

  /** In a well-formed table no address lies in two regions. */
  lemma NoAddressTwice(rs: seq<Region>, i: nat, j: nat, addr: nat)
    requires WellFormed(rs) && i < |rs| && j < |rs|
    requires rs[i].Contains(addr) && rs[j].Contains(addr)
    ensures i == j
  {
  }

  lemma AddKeepsWellFormed(rs: seq<Region>, max: nat, q: Request, env: AddEnv)
    requires WellFormed(rs) && |rs| <= max
    ensures WellFormed(Add(rs, max, q, env).rs)
  {
    var o := Add(rs, max, q, env);
    if o.rs != rs {
      var r := NewRegion(q, env);
      forall i | 0 <= i < |rs|
        ensures Apart(rs[i], r)
      {
        assert !Clashes(rs[i], q);
      }
    }
  }

  lemma WithoutKeepsWellFormed(rs: seq<Region>, i: nat)
    requires WellFormed(rs) && i < |rs|
    ensures WellFormed(Without(rs, i))
  {
    var w := Without(rs, i);
    forall j, k | 0 <= j < k < |w|
      ensures Apart(w[j], w[k])
    {
      assert Apart(rs[if j < i then j else j + 1], rs[if k < i then k else k + 1]);
    }
    forall j | 0 <= j < |w|
      ensures MappedIffFd(w[j])
    {
      assert MappedIffFd(rs[if j < i then j else j + 1]);
    }
  }

  /**
   Exactly when a request is accepted: either a compatible region with the same span is
   there already, or nothing overlaps, there is room, and the file can be mapped.
   */
  lemma AddSucceedsIff(rs: seq<Region>, max: nat, q: Request, env: AddEnv)
    requires WellFormed(rs) && |rs| <= max
    ensures Add(rs, max, q, env).ret >= 0 <==>
            || (exists i :: 0 <= i < |rs| && SameSpan(rs[i], q) && Compatible(rs[i], q, env.files))
            || (&& (forall i :: 0 <= i < |rs| ==> !Clashes(rs[i], q))
                && |rs| < max
                && (q.fd == -1 || (q.fd in env.files && env.mmap.Some?)))
  {
    var c := FirstClash(rs, q);
    if i: nat :| i < |rs| && SameSpan(rs[i], q) {
      assert Clashes(rs[i], q);
      SameSpanIsFirstClash(rs, q, i);
    }
  }

  /** A region with the requested span is the only one that clashes with the request. */
  lemma SameSpanIsFirstClash(rs: seq<Region>, q: Request, i: nat)
    requires WellFormed(rs) && i < |rs| && SameSpan(rs[i], q)
    ensures forall j :: 0 <= j < |rs| && j != i ==> !Clashes(rs[j], q)
    ensures FirstClash(rs, q) == i
  {
    forall j | 0 <= j < |rs| && j != i
      ensures !Clashes(rs[j], q)
    {
      assert if i < j then Apart(rs[i], rs[j]) else Apart(rs[j], rs[i]);
    }
  }

  predicate Within(a: nat, base: nat, len: nat) {
    base <= a < base + len
  }

  /** A request clashes with a region if and only if they share an address, unless one of them is empty. */
  lemma ClashIff(r: Region, q: Request)
    requires r.len > 0 && q.len > 0
    ensures Clashes(r, q) <==> exists a: nat :: Within(a, r.base, r.len) && Within(a, q.base, q.len)
  {
    var a := Max(r.base, q.base);
    assert Clashes(r, q) ==> Within(a, r.base, r.len) && Within(a, q.base, q.len);
  }

  /** The two descriptors are of one file: the same number, or the same device and inode. */
  predicate OneFile(files: map<int, File>, a: int, b: int) {
    a == b || (a in files && b in files && (files[a].dev, files[a].ino) == (files[b].dev, files[b].ino))
  }

  /**
   What a request that adds no region is answered with: the index of the region that has its span, if
   that agrees in file, offset and protection; otherwise -1 - i, where i is the index of that region
   or of the first one in the table that overlaps, or how many regions there are if none does.
   */
  lemma AddAnswers(rs: seq<Region>, max: nat, q: Request, env: AddEnv)
    requires WellFormed(rs) && |rs| <= max
    ensures var o := Add(rs, max, q, env);
            && (forall i :: 0 <= i < |rs| && rs[i].base == q.base && rs[i].len == q.len ==>
                  o == Outcome(rs, if rs[i].offset == q.offset && rs[i].prot == q.prot
                                      && OneFile(env.files, rs[i].fd, q.fd) then i else -1 - i, multiset{}))
            && (forall i :: 0 <= i < |rs| && Clashes(rs[i], q) && !(rs[i].base == q.base && rs[i].len == q.len)
                            && (forall j :: 0 <= j < i ==> !Clashes(rs[j], q)) ==>
                  o == Outcome(rs, -1 - i, multiset{}))
            && ((forall i :: 0 <= i < |rs| ==> !Clashes(rs[i], q)) ==>
                  var mappable := q.fd == -1 || (q.fd in env.files && env.mmap.Some?);
                  o.ret == if |rs| < max && mappable then |rs| else -1 - |rs|)
  {
    hide NewRegion;
    forall i | 0 <= i < |rs| && rs[i].base == q.base && rs[i].len == q.len
      ensures FirstClash(rs, q) == i
    {
      SameSpanIsFirstClash(rs, q, i);
    }
  }

  // ------------------------------------------------ refinement of a finite map

  /** The table as a map from base address to region. */
  function ToMap(rs: seq<Region>): map<nat, Region> {
    if rs == [] then map[] else ToMap(rs[..|rs| - 1])[rs[|rs| - 1].base := rs[|rs| - 1]]
  }

  lemma {:induction false} ToMapEntries(rs: seq<Region>, b: nat)
    requires WellFormed(rs)
    ensures b in ToMap(rs) <==> exists i :: 0 <= i < |rs| && rs[i].base == b
    ensures forall i :: 0 <= i < |rs| && rs[i].base == b ==> b in ToMap(rs) && ToMap(rs)[b] == rs[i]
  {
    if rs != [] {
      var n := |rs| - 1;
      assert WellFormed(rs[..n]);
      ToMapEntries(rs[..n], b);
      forall i | 0 <= i < n && rs[i].base == b
        ensures b in ToMap(rs) && ToMap(rs)[b] == rs[i]
      {
        assert Apart(rs[i], rs[n]);
        assert rs[..n][i] == rs[i];
      }
    }
  }

  lemma ToMapAppend(rs: seq<Region>, r: Region)
    ensures ToMap(rs + [r]) == ToMap(rs)[r.base := r]
  {
    assert (rs + [r])[..|rs|] == rs;
  }

  /** Two tables whose maps agree on every base have equal maps. */
  lemma MapsEqual(m: map<nat, Region>, n: map<nat, Region>)
    requires forall b :: b in m <==> b in n
    requires forall b :: b in m && b in n ==> m[b] == n[b]
    ensures m == n
  {
  }

  /** A new region is one insertion into the map, under a base that was free. */
  lemma AddInserts(rs: seq<Region>, max: nat, q: Request, env: AddEnv)
    requires WellFormed(rs) && |rs| <= max
    requires Add(rs, max, q, env).rs != rs
    ensures q.base !in ToMap(rs)
    ensures ToMap(Add(rs, max, q, env).rs) == ToMap(rs)[q.base := NewRegion(q, env)]
  {
    ToMapEntries(rs, q.base);
    ToMapAppend(rs, NewRegion(q, env));
    assert forall i :: 0 <= i < |rs| ==> !Clashes(rs[i], q);
  }

  /** Removing a region removes its base from the map and touches no other entry. */
  lemma WithoutErases(rs: seq<Region>, i: nat)
    requires WellFormed(rs) && i < |rs|
    ensures ToMap(Without(rs, i)) == ToMap(rs) - {rs[i].base}
  {
    var w := Without(rs, i);
    var m, n := ToMap(w), ToMap(rs) - {rs[i].base};
    WithoutKeepsWellFormed(rs, i);
    forall b: nat
      ensures b in m <==> b in n
      ensures b in m && b in n ==> m[b] == n[b]
    {
      ToMapEntries(rs, b);
      ToMapEntries(w, b);
      if j: nat :| j < |rs| && rs[j].base == b && j != i {
        assert if i < j then Apart(rs[i], rs[j]) else Apart(rs[j], rs[i]);
        assert w[if j < i then j else j - 1] == rs[j];
      }
    }
    MapsEqual(m, n);
  }

  /** Removing the region that was just added gives back the exact sequence, whatever closed its file. */
  lemma AddThenRemove(rs: seq<Region>, max: nat, q: Request, env: AddEnv)
    requires WellFormed(rs) && |rs| <= max
    requires Add(rs, max, q, env).rs != rs
    ensures Remove(Add(rs, max, q, env).rs, q.base, q.len, 0) ==
            Outcome(rs, 0, if q.fd == -1 then multiset{} else multiset{q.fd})
  {
    var o := Add(rs, max, q, env);
    var i := FindSpan(o.rs, q.base, q.len);
    assert SameSpan(o.rs[|rs|], q);
    assert forall j :: 0 <= j < |rs| ==> o.rs[j] == rs[j] && !Clashes(rs[j], q);
    assert Without(o.rs, |rs|) == rs;
  }

  /**
   A span that no region has is answered with -ENOENT, and a callback that fails with its error, and
   the table stays; otherwise the region with the span is gone, and no other.
   */
  lemma RemoveOutcome(rs: seq<Region>, base: nat, len: nat, unregErr: int)
    requires WellFormed(rs)
    ensures var o := Remove(rs, base, len, unregErr);
            && ((forall i :: 0 <= i < |rs| ==> !(rs[i].base == base && rs[i].len == len)) ==>
                  o == Outcome(rs, -2, multiset{}))
            && (forall i :: 0 <= i < |rs| && rs[i].base == base && rs[i].len == len ==>
                  if unregErr != 0 then o == Outcome(rs, unregErr, multiset{})
                  else
                    && o.ret == 0 && ToMap(o.rs) == ToMap(rs) - {base}
                    && o.closed == if rs[i].fd == -1 then multiset{} else multiset{rs[i].fd})
  {
    var j := FindSpan(rs, base, len);
    forall i | 0 <= i < |rs| && rs[i].base == base && rs[i].len == len
      ensures i == j
    {
      assert j < i ==> Apart(rs[j], rs[i]);
    }
    if j < |rs| {
      WithoutErases(rs, j);
    }
  }

  /** Adding the same request again returns the index of the region and changes nothing. */
  lemma AddTwice(rs: seq<Region>, max: nat, q: Request, env: AddEnv, env2: AddEnv)
    requires WellFormed(rs) && |rs| <= max
    requires Add(rs, max, q, env).ret >= 0
    requires env2.files == env.files
    ensures Add(Add(rs, max, q, env).rs, max, q, env2) ==
            Outcome(Add(rs, max, q, env).rs, Add(rs, max, q, env).ret, multiset{})
  {
    var o := Add(rs, max, q, env);
    if o.rs != rs {
      AddKeepsWellFormed(rs, max, q, env);
      SameSpanIsFirstClash(o.rs, q, |rs|);
    }
  }

  /**
   What a region records of the request it was added for, whatever the system answers; the page size is
   that of the system or the block size of the file, whichever is larger.
   */
  lemma NewRegionRecords(q: Request, env: AddEnv)
    ensures var r := NewRegion(q, env);
            && r.base == q.base && r.len == q.len && r.prot == q.prot && r.fd == q.fd && r.offset == q.offset
            && r.refcnt == 0 && r.bitmap.None?
            && env.pagesize <= r.pageSize
            && (q.fd != -1 && q.fd in env.files ==> env.files[q.fd].blksize <= r.pageSize)
            && (r.pageSize == env.pagesize || (q.fd in env.files && r.pageSize == env.files[q.fd].blksize))
  {
  }

  /** How much longer than x a multiple of a is that x is rounded up to. */
  lemma RoundUpSlack(x: nat, a: nat)
    requires a > 0 && x > 0
    ensures RoundUp(x, a) == x + (a - 1 - (x - 1) % a)
  {
    ModShift(x - 1, a);
  }

  lemma ModShift(y: nat, a: nat)
    requires a > 0
    ensures (y + a) % a == y % a
  {
    var q, r := y / a, (y + a) / a;
    assert y == q * a + y % a && y + a == r * a + (y + a) % a;
    assert r <= q ==> r * a <= q * a;
    assert r >= q + 2 ==> r * a >= (q + 2) * a;
  }

  /**
   The bytes of a mapped region all lie in its mapping if and only if the remainders of its offset
   and of its length do not carry into another page.
   */
  lemma MappingCoversIff(q: Request, env: AddEnv)
    requires q.fd != -1 && env.mmap.Some?
    ensures var r := NewRegion(q, env);
            && r.mapBase <= r.vaddr.value
            && (r.vaddr.value + r.len <= r.mapBase + r.mapLen <==>
                if q.len == 0 then q.offset % r.pageSize == 0
                else q.offset % r.pageSize + (q.len - 1) % r.pageSize < r.pageSize)
  {
    var ps := NewRegion(q, env).pageSize;
    if q.len > 0 {
      RoundUpSlack(q.len, ps);
    } else {
      assert (ps - 1) % ps == ps - 1;
    }
  }
}
