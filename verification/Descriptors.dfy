/**
 Who owns the file descriptors that come with a message (lib/libvfio-user.c, lib/irq.c,
 lib/dma.c): interrupt slots and DMA regions hold them, and what is not held is closed.
 Descriptors are told apart by identity; a number that the system uses again is another one.
 */
module Descriptors {
  import opened Common
  import opened DmaTable

  const EINVAL := 22

  function One(fd: int): multiset<int> {
    if fd >= 0 then multiset{fd} else multiset{}
  }

  /** How often a descriptor occurs in a row of slots. */
  function Count(s: seq<int>, x: nat): nat {
    multiset(s)[x]
  }

  function Is(fd: int, x: nat): nat {
    if fd == x then 1 else 0
  }

  lemma OneIs(a: multiset<int>, fd: int, x: nat)
    ensures (a + One(fd))[x] == a[x] + Is(fd, x)
  {
  }

  lemma CountUpdate(s: seq<int>, i: nat, fd: int, x: nat)
    requires i < |s|
    ensures Count(s[i := fd], x) + Is(s[i], x) == Count(s, x) + Is(fd, x)
  {
  }

  lemma CountTake(s: seq<int>, n: nat, x: nat)
    requires n < |s|
    ensures Count(s[..n + 1], x) == Count(s[..n], x) + Is(s[n], x)
  {
    assert s[..n + 1] == s[..n] + [s[n]];
  }

  lemma CountNone(s: seq<int>, x: nat)
    ensures Count(s[..0], x) == 0
  {
  }

  lemma CountSplit(s: seq<int>, n: nat, x: nat)
    requires n <= |s|
    ensures Count(s, x) == Count(s[..n], x) + Count(s[n..], x)
  {
    assert s == s[..n] + s[n..];
  }

  // ----------------------------------------------------------------- slots

  /** A row of slots, -1 where there is no descriptor, and what was closed while it changed. */
  datatype Slots = Slots(efds: seq<int>, closed: multiset<int>)

  /** Closes what is in slots [lo, hi) and empties them. */
  function Clear(efds: seq<int>, lo: nat, hi: nat): (r: Slots)
    requires hi <= |efds|
    ensures |r.efds| == |efds|
    ensures forall i :: 0 <= i < |efds| ==>
              r.efds[i] == if lo <= i < hi && efds[i] >= 0 then -1 else efds[i]
    decreases hi - lo
  {
    if hi <= lo then Slots(efds, multiset{})
    else
      var r := Clear(efds, lo, hi - 1);
      if r.efds[hi - 1] >= 0 then Slots(r.efds[hi - 1 := -1], r.closed + multiset{r.efds[hi - 1]}) else r
  }

  /** irqs_set_data_eventfd(): slots from start on are given the descriptors, the old ones are closed. */
  function Assign(efds: seq<int>, start: nat, fds: seq<int>, n: nat): (r: Slots)
    requires n <= |fds| && start + n <= |efds|
    ensures |r.efds| == |efds|
  {
    if n == 0 then Slots(efds, multiset{})
    else
      var r := Assign(efds, start, fds, n - 1);
      var k := start + n - 1;
      Slots(r.efds[k := fds[n - 1]], r.closed + One(r.efds[k]))
  }

  function EmptySlot(fd: int): int {
    if fd >= 0 then -1 else fd
  }

  lemma ClearStep(efds: seq<int>, lo: nat, i: nat)
    requires lo <= i < |efds|
    ensures var r := Clear(efds, lo, i);
            Clear(efds, lo, i + 1) == Slots(r.efds[i := EmptySlot(r.efds[i])], r.closed + One(r.efds[i]))
  {
  }

  lemma AssignStep(efds: seq<int>, start: nat, fds: seq<int>, j: nat)
    requires j < |fds| && start + j < |efds|
    ensures var r := Assign(efds, start, fds, j);
            Assign(efds, start, fds, j + 1) == Slots(r.efds[start + j := fds[j]], r.closed + One(r.efds[start + j]))
  {
  }

  /** Each descriptor ends up in its own slot and no other slot is touched. */
  lemma {:induction false} AssignPlaces(efds: seq<int>, start: nat, fds: seq<int>, n: nat, i: nat)
    requires n <= |fds| && start + n <= |efds| && i < |efds|
    ensures Assign(efds, start, fds, n).efds[i] == if start <= i < start + n then fds[i - start] else efds[i]
  {
    if n > 0 {
      AssignPlaces(efds, start, fds, n - 1, i);
    }
  }

  lemma {:induction false} ClearConserves(efds: seq<int>, lo: nat, hi: nat, x: nat)
    requires hi <= |efds|
    ensures Count(Clear(efds, lo, hi).efds, x) + Clear(efds, lo, hi).closed[x] == Count(efds, x)
    decreases hi - lo
  {
    hide Count;
    if lo < hi {
      ClearConserves(efds, lo, hi - 1, x);
      CountUpdate(Clear(efds, lo, hi - 1).efds, hi - 1, -1, x);
    }
  }

  lemma {:induction false} AssignConserves(efds: seq<int>, start: nat, fds: seq<int>, n: nat, x: nat)
    requires n <= |fds| && start + n <= |efds|
    ensures Count(Assign(efds, start, fds, n).efds, x) + Assign(efds, start, fds, n).closed[x]
         == Count(efds, x) + Count(fds[..n], x)
  {
    hide Count, Is, One;
    if n == 0 {
      CountNone(fds, x);
    } else {
      AssignConserves(efds, start, fds, n - 1, x);
      var r := Assign(efds, start, fds, n - 1);
      CountUpdate(r.efds, start + n - 1, fds[n - 1], x);
      CountTake(fds, n - 1, x);
      OneIs(r.closed, r.efds[start + n - 1], x);
    }
  }

  // ------------------------------------------------------------- interrupts

  const ERR := 3
  const REQ := 4
  const NUM_IRQS := 5

  const DATA_NONE := 1
  const DATA_BOOL := 2
  const DATA_EVENTFD := 4
  const ACTION_MASK := 8
  const ACTION_UNMASK := 16
  const ACTION_TRIGGER := 32

  /** One row of slots for INTx, MSI and MSI-X, and one slot each for ERR and REQ. */
  datatype Irqs = Irqs(efds: seq<int>, err: int, req: int)

  function HeldByIrqs(irqs: Irqs, x: nat): nat {
    Count(irqs.efds, x) + Is(irqs.err, x) + Is(irqs.req, x)
  }

  /** How many interrupts there are of each kind; the row of slots is as long as the longest kind. */
  predicate CountsOk(counts: seq<nat>, slots: nat) {
    && |counts| == NUM_IRQS && counts[ERR] <= 1 && counts[REQ] <= 1
    && forall i :: 0 <= i < NUM_IRQS ==> counts[i] <= slots
  }

  /** A SET_IRQS request: action and data are the two parts of its flags. */
  datatype IrqSet = IrqSet(action: nat, data: nat, index: nat, start: nat, count: nat)

  /** device_set_irqs_validate() */
  predicate ValidSet(counts: seq<nat>, s: IrqSet, nrFds: nat)
    requires |counts| == NUM_IRQS
  {
    && s.index < NUM_IRQS
    && s.action in {ACTION_MASK, ACTION_UNMASK, ACTION_TRIGGER}
    && s.data in {DATA_NONE, DATA_BOOL, DATA_EVENTFD}
    && s.start < counts[s.index] && s.start + s.count <= counts[s.index]
    && (s.index in {ERR, REQ} ==> s.action == ACTION_TRIGGER)
    && (s.count == 0 ==> s.start == 0 && s.action == ACTION_TRIGGER && s.data == DATA_NONE)
    && (nrFds != 0 ==> s.data == DATA_EVENTFD && nrFds == s.count)
  }

  /** The new slots, what was closed, and how many of the received descriptors were taken. */
  datatype IrqResult = IrqResult(irqs: Irqs, closed: multiset<int>, taken: nat, ret: int)

  /** irqs_disable(); the loop stops at count, not at start + count. */
  function Disable(irqs: Irqs, counts: seq<nat>, index: nat, start: nat, count: nat): (r: IrqResult)
    requires CountsOk(counts, |irqs.efds|) && index < NUM_IRQS && start + count <= counts[index]
    ensures |r.irqs.efds| == |irqs.efds| && r.taken == 0 && r.ret == 0
  {
    var hi := if count == 0 then counts[index] else count;
    if index == ERR then
      if start < hi then IrqResult(irqs.(err := EmptySlot(irqs.err)), One(irqs.err), 0, 0)
      else IrqResult(irqs, multiset{}, 0, 0)
    else if index == REQ then
      if start < hi then IrqResult(irqs.(req := EmptySlot(irqs.req)), One(irqs.req), 0, 0)
      else IrqResult(irqs, multiset{}, 0, 0)
    else
      var c := Clear(irqs.efds, start, hi);
      IrqResult(irqs.(efds := c.efds), c.closed, 0, 0)
  }

  /**
   handle_device_set_irqs(). sizeOk says whether the message has the size it claims, trigger what
   writing to the slots returns. Descriptors go to the row of slots whatever the index is.
   */
  function SetIrqs(irqs: Irqs, counts: seq<nat>, s: IrqSet, sizeOk: bool, fds: seq<int>, trigger: int): (r: IrqResult)
    requires CountsOk(counts, |irqs.efds|)
    ensures |r.irqs.efds| == |irqs.efds| && r.taken <= |fds|
  {
    if !sizeOk || !ValidSet(counts, s, |fds|) then IrqResult(irqs, multiset{}, 0, -EINVAL)
    else if s.action != ACTION_TRIGGER then IrqResult(irqs, multiset{}, 0, 0)
    else if (s.data == DATA_NONE && s.count == 0) || (s.data == DATA_EVENTFD && |fds| == 0) then
      Disable(irqs, counts, s.index, s.start, s.count)
    else if s.data == DATA_EVENTFD then
      var a := Assign(irqs.efds, s.start, fds, |fds|);
      IrqResult(irqs.(efds := a.efds), a.closed, |fds|, 0)
    else IrqResult(irqs, multiset{}, 0, trigger)
  }

  /** irqs_reset() */
  function ResetIrqs(irqs: Irqs, counts: seq<nat>): (r: IrqResult)
    requires CountsOk(counts, |irqs.efds|)
    ensures |r.irqs.efds| == |irqs.efds|
  {
    var a := Disable(irqs, counts, REQ, 0, 0);
    var b := Disable(a.irqs, counts, ERR, 0, 0);
    var c := Clear(b.irqs.efds, 0, |b.irqs.efds|);
    IrqResult(b.irqs.(efds := c.efds), a.closed + b.closed + c.closed, 0, 0)
  }

  lemma DisableConserves(irqs: Irqs, counts: seq<nat>, index: nat, start: nat, count: nat, x: nat)
    requires CountsOk(counts, |irqs.efds|) && index < NUM_IRQS && start + count <= counts[index]
    ensures var r := Disable(irqs, counts, index, start, count);
            HeldByIrqs(r.irqs, x) + r.closed[x] == HeldByIrqs(irqs, x)
  {
    hide Clear, Count;
    if index != ERR && index != REQ {
      ClearConserves(irqs.efds, start, if count == 0 then counts[index] else count, x);
    }
  }

  /** Whatever is asked for, the slots lose no descriptor: taken ones are held, replaced ones closed once. */
  lemma SetIrqsConserves(irqs: Irqs, counts: seq<nat>, s: IrqSet, sizeOk: bool, fds: seq<int>, trigger: int, x: nat)
    requires CountsOk(counts, |irqs.efds|)
    ensures var r := SetIrqs(irqs, counts, s, sizeOk, fds, trigger);
            HeldByIrqs(r.irqs, x) + r.closed[x] == HeldByIrqs(irqs, x) + Count(fds[..r.taken], x)
  {
    hide Assign, Disable, Count;
    CountNone(fds, x);
    var r := SetIrqs(irqs, counts, s, sizeOk, fds, trigger);
    if r.taken > 0 {
      AssignConserves(irqs.efds, s.start, fds, |fds|, x);
    } else if sizeOk && ValidSet(counts, s, |fds|) {
      DisableConserves(irqs, counts, s.index, s.start, s.count, x);
    }
  }

  /** A request with descriptors puts the j-th one into slot start + j, whatever was there, and changes no other. */
  lemma SetIrqsPlaces(irqs: Irqs, counts: seq<nat>, s: IrqSet, fds: seq<int>, trigger: int, i: nat)
    requires CountsOk(counts, |irqs.efds|) && i < |irqs.efds|
    requires ValidSet(counts, s, |fds|) && |fds| > 0 && s.action == ACTION_TRIGGER
    ensures var r := SetIrqs(irqs, counts, s, true, fds, trigger);
            && r.irqs.efds[i] == (if s.start <= i < s.start + s.count then fds[i - s.start] else irqs.efds[i])
            && r.irqs.err == irqs.err && r.irqs.req == irqs.req && r.taken == |fds| && r.ret == 0
  {
    hide Assign;
    AssignPlaces(irqs.efds, s.start, fds, |fds|, i);
  }

  lemma ResetIrqsConserves(irqs: Irqs, counts: seq<nat>, x: nat)
    requires CountsOk(counts, |irqs.efds|)
    ensures var r := ResetIrqs(irqs, counts); HeldByIrqs(r.irqs, x) + r.closed[x] == HeldByIrqs(irqs, x)
  {
    hide Clear, Disable, HeldByIrqs;
    var a := Disable(irqs, counts, REQ, 0, 0);
    DisableConserves(irqs, counts, REQ, 0, 0, x);
    var b := Disable(a.irqs, counts, ERR, 0, 0);
    DisableConserves(a.irqs, counts, ERR, 0, 0, x);
    ClearAllConserves(b.irqs, x);
  }

  lemma ClearAllConserves(irqs: Irqs, x: nat)
    ensures var c := Clear(irqs.efds, 0, |irqs.efds|);
            HeldByIrqs(irqs.(efds := c.efds), x) + c.closed[x] == HeldByIrqs(irqs, x)
  {
    hide Clear, Count;
    ClearConserves(irqs.efds, 0, |irqs.efds|, x);
  }

  /**
   The log message says [start, start + count) is disabled. When all those slots are in use, they
   are all emptied exactly when start is 0.
   */
  lemma DisableEmptiesRangeIff(irqs: Irqs, counts: seq<nat>, index: nat, start: nat, count: nat)
    requires CountsOk(counts, |irqs.efds|) && index < ERR && 0 < count && start + count <= counts[index]
    requires forall i :: start <= i < start + count ==> irqs.efds[i] >= 0
    ensures (forall i :: start <= i < start + count ==> Disable(irqs, counts, index, start, count).irqs.efds[i] < 0)
       <==> start == 0
  {
    var r := Disable(irqs, counts, index, start, count).irqs.efds;
    if start != 0 {
      assert r[start + count - 1] == irqs.efds[start + count - 1];
    }
  }

  /** Slots below n are emptied, and all other slots are as they were. */
  predicate EmptiedBelow(before: seq<int>, after: seq<int>, n: nat) {
    && |after| == |before|
    && forall i :: 0 <= i < |before| ==> if i < n then after[i] < 0 else after[i] == before[i]
  }

  /**
   The usual way to disable interrupts of a kind: TRIGGER without data and with a count of 0. Every
   slot of the kind is emptied, no other one changes, and nothing is taken.
   */
  lemma DisableAll(irqs: Irqs, counts: seq<nat>, index: nat, trigger: int)
    requires CountsOk(counts, |irqs.efds|) && index < NUM_IRQS && counts[index] > 0
    ensures var r := SetIrqs(irqs, counts, IrqSet(ACTION_TRIGGER, DATA_NONE, index, 0, 0), true, [], trigger);
            && r.ret == 0 && r.taken == 0
            && (index < 3 ==>
                  && EmptiedBelow(irqs.efds, r.irqs.efds, counts[index])
                  && r.irqs.err == irqs.err && r.irqs.req == irqs.req)
            && (index == 3 ==> r.irqs.err < 0 && r.irqs.efds == irqs.efds && r.irqs.req == irqs.req)
            && (index == 4 ==> r.irqs.req < 0 && r.irqs.efds == irqs.efds && r.irqs.err == irqs.err)
  {
  }

  /** So does DATA_EVENTFD without descriptors for the first count slots. */
  lemma DisableSome(irqs: Irqs, counts: seq<nat>, index: nat, count: nat, trigger: int)
    requires CountsOk(counts, |irqs.efds|) && index < NUM_IRQS && 0 < count <= counts[index]
    ensures var r := SetIrqs(irqs, counts, IrqSet(ACTION_TRIGGER, DATA_EVENTFD, index, 0, count), true, [], trigger);
            && r.ret == 0 && r.taken == 0
            && (index < 3 ==>
                  EmptiedBelow(irqs.efds, r.irqs.efds, count) && r.irqs.err == irqs.err && r.irqs.req == irqs.req)
            && (index == 3 ==> r.irqs.err < 0 && r.irqs.efds == irqs.efds && r.irqs.req == irqs.req)
            && (index == 4 ==> r.irqs.req < 0 && r.irqs.efds == irqs.efds && r.irqs.err == irqs.err)
  {
  }

  /** From a later slot on it empties only the slots in front of count, which the log message does not say. */
  lemma DisableFrom(irqs: Irqs, counts: seq<nat>, index: nat, start: nat, count: nat, trigger: int, i: nat)
    requires CountsOk(counts, |irqs.efds|) && index < 3 && 0 < count && start + count <= counts[index]
    requires i < |irqs.efds|
    ensures var s := IrqSet(ACTION_TRIGGER, DATA_EVENTFD, index, start, count);
            var r := SetIrqs(irqs, counts, s, true, [], trigger);
            if start <= i < count then r.irqs.efds[i] < 0 else r.irqs.efds[i] == irqs.efds[i]
  {
  }

  /**
   What is refused: a wrong size, an unknown kind, action or data type, a range outside the kind,
   masking of error or request interrupts, no interrupt but to disable all, and descriptors that are
   not one for each interrupt.
   */
  predicate Refused(counts: seq<nat>, s: IrqSet, sizeOk: bool, nrFds: nat)
    requires |counts| == NUM_IRQS
  {
    || !sizeOk || s.index >= 5 || s.action !in {8, 16, 32} || s.data !in {1, 2, 4}
    || s.start >= counts[s.index] || s.start + s.count > counts[s.index]
    || (s.index >= 3 && s.action != 32)
    || (s.count == 0 && (s.action != 32 || s.data != 1 || s.start != 0))
    || (nrFds > 0 && (s.data != 4 || nrFds != s.count))
  }

  /** These requests are answered with EINVAL and have no effect, and no others are refused. */
  lemma SetIrqsRefusedIff(irqs: Irqs, counts: seq<nat>, s: IrqSet, sizeOk: bool, fds: seq<int>, trigger: int)
    requires CountsOk(counts, |irqs.efds|)
    ensures Refused(counts, s, sizeOk, |fds|) <==> !(sizeOk && ValidSet(counts, s, |fds|))
    ensures Refused(counts, s, sizeOk, |fds|) ==>
              SetIrqs(irqs, counts, s, sizeOk, fds, trigger) == IrqResult(irqs, multiset{}, 0, -22)
  {
  }

  /** Masking, unmasking and triggering leave the slots alone; only triggering has a result of its own. */
  lemma OthersKeepSlots(irqs: Irqs, counts: seq<nat>, s: IrqSet, fds: seq<int>, trigger: int)
    requires CountsOk(counts, |irqs.efds|) && !Refused(counts, s, true, |fds|)
    requires s.action != 32 || (s.count > 0 && s.data != 4)
    ensures SetIrqs(irqs, counts, s, true, fds, trigger) ==
            IrqResult(irqs, multiset{}, 0, if s.action == 32 then trigger else 0)
  {
    SetIrqsRefusedIff(irqs, counts, s, true, fds, trigger);
  }

  // -------------------------------------------------- mapping and unmapping

  /** One region of a DMA_MAP message; env is what the system answers while it is added. */
  datatype Entry = Entry(base: nat, len: nat, offset: nat, prot: nat, mappable: bool, env: AddEnv)

  function RequestOf(e: Entry, fd: int): Request {
    Request(e.base, e.len, fd, e.offset, e.prot)
  }

  /**
   What handling entries of a DMA_MAP message did: the table, how many descriptors were taken, what
   was closed, what is neither held nor closed any more, and what was closed a second time.
   */
  datatype MapState = MapState(rs: seq<Region>, taken: nat, closed: multiset<int>,
                               leaked: multiset<int>, doubled: multiset<int>, ret: int)

  /** The region is already in the table. */
  predicate IdenticalReAdd(rs: seq<Region>, q: Request, env: AddEnv) {
    var i := FirstClash(rs, q);
    i < |rs| && SameSpan(rs[i], q) && Compatible(rs[i], q, env.files)
  }

  /** The region could be added, but its file cannot be mapped. */
  predicate MmapFails(rs: seq<Region>, max: nat, q: Request, env: AddEnv) {
    FirstClash(rs, q) == |rs| < max && q.fd != -1 && q.fd in env.files && env.mmap.None?
  }

  /** Adding one region with its descriptor, which is closed when that fails. */
  function MapOne(rs: seq<Region>, max: nat, fd: int, e: Entry): (r: MapState)
    requires |rs| <= max
    ensures |r.rs| <= max
  {
    var q := RequestOf(e, fd);
    var o := Add(rs, max, q, e.env);
    if o.ret < 0 then
      MapState(rs, 0, o.closed + One(fd), multiset{},
               if MmapFails(rs, max, q, e.env) then One(fd) else multiset{}, o.ret)
    else
      MapState(o.rs, 0, o.closed, if IdenticalReAdd(rs, q, e.env) then One(fd) else multiset{}, multiset{}, 0)
  }

  /** The first n entries of a DMA_MAP message; the loop stops at the first error. */
  function MapMany(rs: seq<Region>, max: nat, fds: seq<nat>, es: seq<Entry>, n: nat): (r: MapState)
    requires |rs| <= max && n <= |es|
    ensures |r.rs| <= max && r.taken <= |fds|
  {
    if n == 0 then MapState(rs, 0, multiset{}, multiset{}, multiset{}, 0)
    else
      var m := MapMany(rs, max, fds, es, n - 1);
      var e := es[n - 1];
      if m.ret < 0 then m
      else if e.mappable && m.taken == |fds| then m.(ret := -EINVAL)
      else
        var d := MapOne(m.rs, max, if e.mappable then fds[m.taken] else -1, e);
        MapState(d.rs, if e.mappable then m.taken + 1 else m.taken,
                 m.closed + d.closed, m.leaked + d.leaked, m.doubled + d.doubled, d.ret)
  }

  /** One region of a DMA_UNMAP message, with what the device's callback returns. */
  datatype Span = Span(base: nat, len: nat, unregErr: int)

  /** The first n entries of a DMA_UNMAP message. */
  function UnmapMany(rs: seq<Region>, ss: seq<Span>, n: nat): (o: Outcome)
    requires n <= |ss|
    ensures |o.rs| <= |rs|
  {
    if n == 0 then Outcome(rs, 0, multiset{})
    else
      var m := UnmapMany(rs, ss, n - 1);
      if m.ret < 0 then m
      else
        var o := Remove(m.rs, ss[n - 1].base, ss[n - 1].len, ss[n - 1].unregErr);
        Outcome(o.rs, o.ret, m.closed + o.closed)
  }

  lemma MapNothing(rs: seq<Region>, max: nat, fds: seq<nat>, es: seq<Entry>)
    requires |rs| <= max
    ensures MapMany(rs, max, fds, es, 0) == MapState(rs, 0, multiset{}, multiset{}, multiset{}, 0)
  {
  }

  /** One more entry, when none has failed so far. */
  lemma MapNext(rs: seq<Region>, max: nat, fds: seq<nat>, es: seq<Entry>, i: nat)
    requires |rs| <= max && i < |es| && MapMany(rs, max, fds, es, i).ret >= 0
    ensures var m := MapMany(rs, max, fds, es, i);
            MapMany(rs, max, fds, es, i + 1) ==
            if es[i].mappable && m.taken == |fds| then m.(ret := -EINVAL)
            else
              var d := MapOne(m.rs, max, if es[i].mappable then fds[m.taken] else -1, es[i]);
              MapState(d.rs, if es[i].mappable then m.taken + 1 else m.taken,
                       m.closed + d.closed, m.leaked + d.leaked, m.doubled + d.doubled, d.ret)
  {
    hide MapOne;
  }

  lemma UnmapNext(rs: seq<Region>, ss: seq<Span>, i: nat)
    requires i < |ss| && UnmapMany(rs, ss, i).ret >= 0
    ensures var m := UnmapMany(rs, ss, i);
            var o := Remove(m.rs, ss[i].base, ss[i].len, ss[i].unregErr);
            UnmapMany(rs, ss, i + 1) == Outcome(o.rs, o.ret, m.closed + o.closed)
  {
    hide Remove;
  }

  lemma {:induction false} MapManyStopped(rs: seq<Region>, max: nat, fds: seq<nat>, es: seq<Entry>, n: nat, k: nat)
    requires |rs| <= max && n <= k <= |es| && MapMany(rs, max, fds, es, n).ret < 0
    ensures MapMany(rs, max, fds, es, k) == MapMany(rs, max, fds, es, n)
  {
    hide MapOne;
    if n < k {
      MapManyStopped(rs, max, fds, es, n, k - 1);
    }
  }

  lemma {:induction false} UnmapManyStopped(rs: seq<Region>, ss: seq<Span>, n: nat, k: nat)
    requires n <= k <= |ss| && UnmapMany(rs, ss, n).ret < 0
    ensures UnmapMany(rs, ss, k) == UnmapMany(rs, ss, n)
  {
    if n < k {
      UnmapManyStopped(rs, ss, n, k - 1);
    }
  }

  lemma FdsAppend(rs: seq<Region>, r: Region)
    ensures Fds(rs + [r]) == Fds(rs) + FdOf(r)
  {
    assert (rs + [r])[..|rs|] == rs;
  }

  lemma {:induction false} FdsWithout(rs: seq<Region>, i: nat, x: nat)
    requires i < |rs|
    ensures Fds(Without(rs, i))[x] + FdOf(rs[i])[x] == Fds(rs)[x]
  {
    hide FdOf;
    var n := |rs| - 1;
    if i == n {
      assert Without(rs, i) == rs[..n];
    } else {
      FdsWithout(rs[..n], i, x);
      assert Without(rs, i)[..n - 1] == Without(rs[..n], i);
      assert Without(rs, i)[n - 1] == rs[n];
    }
  }

  /** What becomes of the descriptor that a region is added with. */
  lemma AddFate(rs: seq<Region>, max: nat, q: Request, env: AddEnv)
    requires |rs| <= max
    ensures var o := Add(rs, max, q, env);
            && o.closed == (if MmapFails(rs, max, q, env) then multiset{q.fd} else multiset{})
            && (MmapFails(rs, max, q, env) ==> o.ret < 0)
            && (o.rs == rs && o.ret >= 0 <==> IdenticalReAdd(rs, q, env))
  {
    hide Compatible, NewRegion;
  }

  /** Adding one region: the descriptor is held or closed, but for the two cases that are told apart. */
  lemma MapOneAccounts(rs: seq<Region>, max: nat, fd: int, e: Entry, x: nat)
    requires |rs| <= max && fd >= -1
    ensures var r := MapOne(rs, max, fd, e);
            && Fds(r.rs)[x] + r.closed[x] + r.leaked[x] == Fds(rs)[x] + Is(fd, x) + r.doubled[x]
            && r.leaked[x] + r.doubled[x] <= Is(fd, x)
  {
    hide Fds, Add, IdenticalReAdd, MmapFails, Max, RoundDown, RoundUp;
    AddFate(rs, max, RequestOf(e, fd), e.env);
    FdsAppend(rs, NewRegion(RequestOf(e, fd), e.env));
  }

  /** The ledger of a descriptor x over a DMA_MAP message. */
  lemma {:induction false} MapManyAccounts(rs: seq<Region>, max: nat, fds: seq<nat>, es: seq<Entry>, n: nat, x: nat)
    requires |rs| <= max && n <= |es|
    ensures var r := MapMany(rs, max, fds, es, n);
            && Fds(r.rs)[x] + r.closed[x] + r.leaked[x] == Fds(rs)[x] + Count(fds[..r.taken], x) + r.doubled[x]
            && r.leaked[x] + r.doubled[x] <= Count(fds[..r.taken], x)
  {
    hide Fds, MapOne, Count;
    CountNone(fds, x);
    if n > 0 {
      var m := MapMany(rs, max, fds, es, n - 1);
      MapManyAccounts(rs, max, fds, es, n - 1, x);
      var e := es[n - 1];
      if m.ret >= 0 && !(e.mappable && m.taken == |fds|) {
        MapOneAccounts(m.rs, max, if e.mappable then fds[m.taken] else -1, e, x);
        if e.mappable {
          CountTake(fds, m.taken, x);
        }
      }
    }
  }

  /**
   Entry k of a DMA_MAP message is reached, takes descriptor x, and its region is there already or
   its file cannot be mapped.
   */
  predicate ExceptionAt(rs: seq<Region>, max: nat, fds: seq<nat>, es: seq<Entry>, k: nat, x: nat)
    requires |rs| <= max && k < |es|
  {
    var m := MapMany(rs, max, fds, es, k);
    && m.ret >= 0 && es[k].mappable && m.taken < |fds| && fds[m.taken] == x
    && (|| IdenticalReAdd(m.rs, RequestOf(es[k], x), es[k].env)
        || MmapFails(m.rs, max, RequestOf(es[k], x), es[k].env))
  }

  predicate HasException(rs: seq<Region>, max: nat, fds: seq<nat>, es: seq<Entry>, n: nat, x: nat)
    requires |rs| <= max && n <= |es|
  {
    exists k :: 0 <= k < n && ExceptionAt(rs, max, fds, es, k, x)
  }

  lemma MapOneException(rs: seq<Region>, max: nat, fd: int, e: Entry, x: nat)
    requires |rs| <= max && fd >= -1
    ensures var r := MapOne(rs, max, fd, e);
            r.leaked[x] + r.doubled[x] > 0 <==>
            fd == x && (IdenticalReAdd(rs, RequestOf(e, fd), e.env) || MmapFails(rs, max, RequestOf(e, fd), e.env))
  {
    hide Add, IdenticalReAdd, MmapFails;
    AddFate(rs, max, RequestOf(e, fd), e.env);
  }

  /** The books of a message show an exception for x exactly when one of its entries is one. */
  lemma {:induction false} ExceptionIff(rs: seq<Region>, max: nat, fds: seq<nat>, es: seq<Entry>, n: nat, x: nat)
    requires |rs| <= max && n <= |es|
    ensures var r := MapMany(rs, max, fds, es, n);
            r.leaked[x] + r.doubled[x] > 0 <==> HasException(rs, max, fds, es, n, x)
  {
    hide MapOne, IdenticalReAdd, MmapFails;
    if n > 0 {
      ExceptionIff(rs, max, fds, es, n - 1, x);
      var m, e := MapMany(rs, max, fds, es, n - 1), es[n - 1];
      if m.ret >= 0 && !(e.mappable && m.taken == |fds|) {
        MapOneException(m.rs, max, if e.mappable then fds[m.taken] else -1, e, x);
      }
      assert HasException(rs, max, fds, es, n, x) <==>
             HasException(rs, max, fds, es, n - 1, x) || ExceptionAt(rs, max, fds, es, n - 1, x);
    }
  }

  lemma {:induction false} UnmapManyConserves(rs: seq<Region>, ss: seq<Span>, n: nat, x: nat)
    requires n <= |ss|
    ensures var o := UnmapMany(rs, ss, n); Fds(o.rs)[x] + o.closed[x] == Fds(rs)[x]
  {
    hide Fds, FdOf;
    if n > 0 {
      UnmapManyConserves(rs, ss, n - 1, x);
      var m := UnmapMany(rs, ss, n - 1);
      var i := FindSpan(m.rs, ss[n - 1].base, ss[n - 1].len);
      if i < |m.rs| {
        FdsWithout(m.rs, i, x);
      }
    }
  }

  // ------------------------------------------------------ what messages achieve

  /** The regions that the first n entries ask for, the i-th with the i-th descriptor. */
  function Asked(es: seq<Entry>, fds: seq<nat>, n: nat): (rs: seq<Region>)
    requires n <= |es| && n <= |fds|
    ensures |rs| == n
  {
    seq(n, i requires 0 <= i < n => NewRegion(RequestOf(es[i], fds[i]), es[i].env))
  }

  lemma AskedNext(es: seq<Entry>, fds: seq<nat>, n: nat)
    requires n < |es| && n < |fds|
    ensures Asked(es, fds, n + 1) == Asked(es, fds, n) + [NewRegion(RequestOf(es[n], fds[n]), es[n].env)]
  {
  }

  /** All entries want a descriptor, and all were added as new regions. */
  predicate AllMapped(rs: seq<Region>, max: nat, fds: seq<nat>, es: seq<Entry>, n: nat)
    requires |rs| <= max && n <= |es|
  {
    && (forall i :: 0 <= i < n ==> es[i].mappable)
    && MapMany(rs, max, fds, es, n).ret >= 0 && MapMany(rs, max, fds, es, n).leaked == multiset{}
  }

  lemma AllMappedBefore(rs: seq<Region>, max: nat, fds: seq<nat>, es: seq<Entry>, n: nat)
    requires |rs| <= max && 0 < n <= |es| && AllMapped(rs, max, fds, es, n)
    ensures AllMapped(rs, max, fds, es, n - 1)
    ensures var m := MapMany(rs, max, fds, es, n - 1);
            && m.taken < |fds|
            && var d := MapOne(m.rs, max, fds[m.taken], es[n - 1]);
               d.ret >= 0 && d.leaked == multiset{}
  {
    hide MapOne;
    var m := MapMany(rs, max, fds, es, n - 1);
    assert m.taken < |fds| && m.ret >= 0;
    var d := MapOne(m.rs, max, fds[m.taken], es[n - 1]);
    assert m.leaked <= m.leaked + d.leaked && d.leaked <= m.leaked + d.leaked;
  }

  /** A DMA_MAP message that succeeds appends its regions in order, each with its own descriptor. */
  lemma {:induction false} MapAppends(rs: seq<Region>, max: nat, fds: seq<nat>, es: seq<Entry>, n: nat)
    requires |rs| <= max && n <= |es| && AllMapped(rs, max, fds, es, n)
    ensures var m := MapMany(rs, max, fds, es, n);
            n <= |fds| && m.taken == n && m.rs == rs + Asked(es, fds, n)
  {
    hide MapOne, Add, IdenticalReAdd, MmapFails, NewRegion, AllMapped;
    if n > 0 {
      AllMappedBefore(rs, max, fds, es, n);
      MapAppends(rs, max, fds, es, n - 1);
      AskedNext(es, fds, n - 1);
      MapOneAppends(rs + Asked(es, fds, n - 1), max, fds[n - 1], es[n - 1]);
      IsMappable(rs, max, fds, es, n);
    }
  }

  /** The region was made for the entry and holds the descriptor. */
  predicate MadeFor(r: Region, e: Entry, fd: int) {
    r.base == e.base && r.len == e.len && r.offset == e.offset && r.prot == e.prot && r.fd == fd
  }

  /**
   Behind the old regions stand those of the first n entries: the i-th new one has the span, offset and
   protection of the i-th entry and holds the i-th descriptor.
   */
  predicate Appended(rs: seq<Region>, rs': seq<Region>, es: seq<Entry>, fds: seq<nat>, n: nat) {
    && n <= |es| && n <= |fds| && |rs'| == |rs| + n && rs'[..|rs|] == rs
    && forall i :: 0 <= i < n ==> MadeFor(rs'[|rs| + i], es[i], fds[i])
  }

  lemma MapRecords(rs: seq<Region>, max: nat, fds: seq<nat>, es: seq<Entry>, n: nat)
    requires |rs| <= max && n <= |es| && AllMapped(rs, max, fds, es, n)
    ensures Appended(rs, MapMany(rs, max, fds, es, n).rs, es, fds, n)
  {
    hide MapMany, AllMapped;
    MapAppends(rs, max, fds, es, n);
  }

  /** An entry that is not mappable takes no descriptor, and its region has none. */
  lemma MapWithoutFd(rs: seq<Region>, max: nat, fds: seq<nat>, e: Entry)
    requires |rs| < max && !e.mappable && forall i :: 0 <= i < |rs| ==> !Clashes(rs[i], RequestOf(e, -1))
    ensures var m := MapMany(rs, max, fds, [e], 1);
            && m.ret == 0 && m.taken == 0 && m.closed == multiset{} && |m.rs| == |rs| + 1 && m.rs[..|rs|] == rs
            && MadeFor(m.rs[|rs|], e, -1) && m.rs[|rs|].vaddr.None?
  {
    hide Max, RoundDown, RoundUp;
    assert MapMany(rs, max, fds, [e], 0).rs == rs;
  }

  /** What entry k of a DMA_MAP message asks of the controller, when the entries in front of it have been added. */
  function AskedOf(m: MapState, fds: seq<nat>, e: Entry): Request
    requires e.mappable ==> m.taken < |fds|
  {
    Request(e.base, e.len, if e.mappable then fds[m.taken] else -1, e.offset, e.prot)
  }

  /** No descriptor is left for entry k, or the controller refuses it. */
  predicate FailsAt(rs: seq<Region>, max: nat, fds: seq<nat>, es: seq<Entry>, k: nat)
    requires |rs| <= max && k < |es|
  {
    var m := MapMany(rs, max, fds, es, k);
    (es[k].mappable && m.taken == |fds|) || Add(m.rs, max, AskedOf(m, fds, es[k]), es[k].env).ret < 0
  }

  lemma MapOneAnswers(rs: seq<Region>, max: nat, fd: int, e: Entry)
    requires |rs| <= max
    ensures var o, d := Add(rs, max, Request(e.base, e.len, fd, e.offset, e.prot), e.env), MapOne(rs, max, fd, e);
            if o.ret < 0 then d.ret == o.ret && d.rs == rs else d.ret == 0 && d.rs == o.rs
  {
    hide Add, IdenticalReAdd, MmapFails;
  }

  /**
   The first entry that fails decides the answer to a DMA_MAP message: -EINVAL if no descriptor is left
   for it, and otherwise what the controller answers. The entries in front of it stay.
   */
  lemma FirstFailureDecides(rs: seq<Region>, max: nat, fds: seq<nat>, es: seq<Entry>, k: nat)
    requires |rs| <= max && k < |es| && MapMany(rs, max, fds, es, k).ret >= 0 && FailsAt(rs, max, fds, es, k)
    ensures var m, all := MapMany(rs, max, fds, es, k), MapMany(rs, max, fds, es, |es|);
            && all.rs == m.rs
            && all.ret == if es[k].mappable && m.taken == |fds| then -22
                          else Add(m.rs, max, AskedOf(m, fds, es[k]), es[k].env).ret
  {
    hide Add, MapOne, MapMany;
    var m := MapMany(rs, max, fds, es, k);
    MapNext(rs, max, fds, es, k);
    if !(es[k].mappable && m.taken == |fds|) {
      MapOneAnswers(m.rs, max, if es[k].mappable then fds[m.taken] else -1, es[k]);
    }
    MapManyStopped(rs, max, fds, es, k + 1, |es|);
  }

  /** A message none of whose entries fails is answered with 0. */
  lemma {:induction false} NoFailureSucceeds(rs: seq<Region>, max: nat, fds: seq<nat>, es: seq<Entry>, n: nat)
    requires |rs| <= max && n <= |es| && forall k :: 0 <= k < n ==> !FailsAt(rs, max, fds, es, k)
    ensures MapMany(rs, max, fds, es, n).ret == 0
  {
    hide Add, MapOne, MapMany;
    if n == 0 {
      MapNothing(rs, max, fds, es);
    } else {
      NoFailureSucceeds(rs, max, fds, es, n - 1);
      var m := MapMany(rs, max, fds, es, n - 1);
      MapNext(rs, max, fds, es, n - 1);
      assert !FailsAt(rs, max, fds, es, n - 1);
      MapOneAnswers(m.rs, max, if es[n - 1].mappable then fds[m.taken] else -1, es[n - 1]);
    }
  }

    predicate HasSpan(rs: seq<Region>, base: nat, len: nat) {
    exists i :: 0 <= i < |rs| && rs[i].base == base && rs[i].len == len
  }

  /** So does the first span of a DMA_UNMAP message that no region has, or whose callback fails. */
  lemma FirstUnmapFailureDecides(rs: seq<Region>, ss: seq<Span>, k: nat)
    requires k < |ss| && UnmapMany(rs, ss, k).ret >= 0 && WellFormed(UnmapMany(rs, ss, k).rs)
    requires !HasSpan(UnmapMany(rs, ss, k).rs, ss[k].base, ss[k].len) || ss[k].unregErr < 0
    ensures var m, all := UnmapMany(rs, ss, k), UnmapMany(rs, ss, |ss|);
            && all.rs == m.rs && all.closed == m.closed
            && all.ret == if HasSpan(m.rs, ss[k].base, ss[k].len) then ss[k].unregErr else -2
  {
    hide Remove, WellFormed, UnmapMany;
    var m := UnmapMany(rs, ss, k);
    UnmapNext(rs, ss, k);
    RemoveOutcome(m.rs, ss[k].base, ss[k].len, ss[k].unregErr);
    assert m.closed + multiset{} == m.closed;
    UnmapManyStopped(rs, ss, k + 1, |ss|);
  }

  lemma IsMappable(rs: seq<Region>, max: nat, fds: seq<nat>, es: seq<Entry>, n: nat)
    requires |rs| <= max && 0 < n <= |es| && AllMapped(rs, max, fds, es, n)
    ensures es[n - 1].mappable && MapMany(rs, max, fds, es, n - 1).ret >= 0
  {
    AllMappedBefore(rs, max, fds, es, n);
  }

  lemma MapOneAppends(rs: seq<Region>, max: nat, fd: nat, e: Entry)
    requires |rs| <= max
    requires var d := MapOne(rs, max, fd, e); d.ret >= 0 && d.leaked == multiset{}
    ensures MapOne(rs, max, fd, e).rs == rs + [NewRegion(RequestOf(e, fd), e.env)]
  {
    hide Add, IdenticalReAdd, MmapFails, NewRegion;
    AddFate(rs, max, RequestOf(e, fd), e.env);
    assert One(fd)[fd] == 1;
  }

  /** The same spans, to be unmapped. */
  function Spans(es: seq<Entry>): (ss: seq<Span>)
    ensures |ss| == |es|
  {
    seq(|es|, i requires 0 <= i < |es| => Span(es[i].base, es[i].len, 0))
  }

  lemma {:induction false} MapKeepsWellFormed(rs: seq<Region>, max: nat, fds: seq<nat>, es: seq<Entry>, n: nat)
    requires |rs| <= max && n <= |es| && WellFormed(rs)
    ensures WellFormed(MapMany(rs, max, fds, es, n).rs)
  {
    hide WellFormed, Add;
    if n > 0 {
      MapKeepsWellFormed(rs, max, fds, es, n - 1);
      var m, e := MapMany(rs, max, fds, es, n - 1), es[n - 1];
      AddKeepsWellFormed(m.rs, max, RequestOf(e, if e.mappable && m.taken < |fds| then fds[m.taken] else -1), e.env);
    }
  }

  lemma FindsSpanAt(rs: seq<Region>, i: nat)
    requires WellFormed(rs) && i < |rs|
    ensures FindSpan(rs, rs[i].base, rs[i].len) == i
  {
  }

  /** Unmapping what a message mapped gives back the exact table, step by step. */
  lemma {:induction false} UnmapTakesBack(rs: seq<Region>, news: seq<Region>, es: seq<Entry>, k: nat)
    requires WellFormed(rs + news) && |news| == |es| && k <= |es|
    requires forall i :: 0 <= i < |es| ==> news[i].base == es[i].base && news[i].len == es[i].len
    ensures var o := UnmapMany(rs + news, Spans(es), k);
            o.rs == rs + news[k..] && o.ret == 0 && WellFormed(o.rs)
  {
    hide WellFormed, FdOf;
    if k > 0 {
      UnmapTakesBack(rs, news, es, k - 1);
      var t := rs + news[k - 1..];
      assert t[|rs|] == news[k - 1];
      FindsSpanAt(t, |rs|);
      WithoutKeepsWellFormed(t, |rs|);
      assert Without(t, |rs|) == rs + news[k..];
    }
  }

  /** A DMA_UNMAP message for the spans of a DMA_MAP message that succeeded undoes it. */
  lemma UnmapUndoesMap(rs: seq<Region>, max: nat, fds: seq<nat>, es: seq<Entry>)
    requires |rs| <= max && WellFormed(rs) && AllMapped(rs, max, fds, es, |es|)
    ensures var m := MapMany(rs, max, fds, es, |es|);
            var o := UnmapMany(m.rs, Spans(es), |es|);
            o.rs == rs && o.ret == 0
  {
    hide MapMany, AllMapped, WellFormed, UnmapMany;
    MapAppends(rs, max, fds, es, |es|);
    MapKeepsWellFormed(rs, max, fds, es, |es|);
    var news := Asked(es, fds, |es|);
    UnmapTakesBack(rs, news, es, |es|);
    assert rs + news[|es|..] == rs;
  }
}
