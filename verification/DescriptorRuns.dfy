/**
 The ledger of every descriptor over a whole run of messages and disconnections: how often it was
 received, is held, was closed, was lost and was closed again.
 */
module DescriptorRuns {
  import opened Common
  import opened DmaTable
  import opened Descriptors

  /** Everything that holds descriptors: the interrupt slots and the DMA regions. */
  datatype Holders = Holders(irqs: Irqs, rs: seq<Region>)

  /** A message with what it asks for; Other is every command that takes no descriptor. */
  datatype Message =
    | SetInterrupts(s: IrqSet, sizeOk: bool, trigger: int)
    | DmaMap(es: seq<Entry>)
    | DmaUnmap(ss: seq<Span>)
    | Other

  /** What happens to a server: a message arrives with descriptors, or the client goes away. */
  datatype Event = Received(msg: Message, fds: seq<nat>) | Disconnect

  datatype Ledger = Ledger(received: multiset<int>, closed: multiset<int>,
                           leaked: multiset<int>, doubled: multiset<int>)

  const NOTHING := Ledger(multiset{}, multiset{}, multiset{}, multiset{})

  /** What one event did to the holders, and its entries for the ledger. */
  datatype Effect = Effect(holders: Holders, ledger: Ledger)

  function Plus(a: Ledger, b: Ledger): Ledger {
    Ledger(a.received + b.received, a.closed + b.closed, a.leaked + b.leaked, a.doubled + b.doubled)
  }

  predicate Fits(h: Holders, counts: seq<nat>, max: nat) {
    CountsOk(counts, |h.irqs.efds|) && |h.rs| <= max
  }

  /** Handling a message: what the handler did not take is closed at the end of process_request(). */
  function Handle(h: Holders, counts: seq<nat>, max: nat, msg: Message, fds: seq<nat>): (r: Effect)
    requires Fits(h, counts, max)
    ensures Fits(r.holders, counts, max)
  {
    match msg
    case SetInterrupts(s, sizeOk, trigger) =>
      var r := SetIrqs(h.irqs, counts, s, sizeOk, fds, trigger);
      Effect(h.(irqs := r.irqs), Ledger(multiset(fds), r.closed + multiset(fds[r.taken..]), multiset{}, multiset{}))
    case DmaMap(es) =>
      var r := MapMany(h.rs, max, fds, es, |es|);
      Effect(h.(rs := r.rs), Ledger(multiset(fds), r.closed + multiset(fds[r.taken..]), r.leaked, r.doubled))
    case DmaUnmap(ss) =>
      var r := UnmapMany(h.rs, ss, |ss|);
      Effect(h.(rs := r.rs), Ledger(multiset(fds), r.closed + multiset(fds), multiset{}, multiset{}))
    case Other =>
      Effect(h, Ledger(multiset(fds), multiset(fds), multiset{}, multiset{}))
  }

  /** vfu_reset_ctx(): all DMA regions are removed and all interrupts disabled. */
  function Reset(h: Holders, counts: seq<nat>): (r: Effect)
    requires CountsOk(counts, |h.irqs.efds|)
    ensures |r.holders.irqs.efds| == |h.irqs.efds| && r.holders.rs == []
  {
    var r := ResetIrqs(h.irqs, counts);
    Effect(Holders(r.irqs, RemoveAll(h.rs).rs), NOTHING.(closed := RemoveAll(h.rs).closed + r.closed))
  }

  function Step(h: Holders, counts: seq<nat>, max: nat, e: Event): (r: Effect)
    requires Fits(h, counts, max)
    ensures Fits(r.holders, counts, max)
  {
    if e.Disconnect? then Reset(h, counts) else Handle(h, counts, max, e.msg, e.fds)
  }

  /** The holders and the ledger after n events. */
  function Run(h: Holders, counts: seq<nat>, max: nat, es: seq<Event>, n: nat): (r: Effect)
    requires Fits(h, counts, max) && n <= |es|
    ensures Fits(r.holders, counts, max)
  {
    if n == 0 then Effect(h, NOTHING)
    else
      var p := Run(h, counts, max, es, n - 1);
      var s := Step(p.holders, counts, max, es[n - 1]);
      Effect(s.holders, Plus(p.ledger, s.ledger))
  }

  function Holds(h: Holders, x: nat): nat {
    HeldByIrqs(h.irqs, x) + Fds(h.rs)[x]
  }

  /** The books of descriptor x balance between two states of the holders. */
  predicate Balanced(before: Holders, after: Holders, l: Ledger, x: nat) {
    && Holds(after, x) + l.closed[x] + l.leaked[x] == Holds(before, x) + l.received[x] + l.doubled[x]
    && l.leaked[x] + l.doubled[x] <= l.received[x]
  }

  lemma HandleBalances(h: Holders, counts: seq<nat>, max: nat, msg: Message, fds: seq<nat>, x: nat)
    requires Fits(h, counts, max)
    ensures var r := Handle(h, counts, max, msg, fds); Balanced(h, r.holders, r.ledger, x)
  {
    hide SetIrqs, MapMany, UnmapMany, HeldByIrqs, Fds;
    match msg {
      case SetInterrupts(s, sizeOk, trigger) =>
        SetIrqsConserves(h.irqs, counts, s, sizeOk, fds, trigger, x);
        CountSplit(fds, SetIrqs(h.irqs, counts, s, sizeOk, fds, trigger).taken, x);
      case DmaMap(es) =>
        MapManyAccounts(h.rs, max, fds, es, |es|, x);
        CountSplit(fds, MapMany(h.rs, max, fds, es, |es|).taken, x);
      case DmaUnmap(ss) =>
        UnmapManyConserves(h.rs, ss, |ss|, x);
      case Other =>
    }
  }

  /** A message that disables a kind of interrupts empties all its slots and changes nothing else. */
  lemma DisableMessage(h: Holders, counts: seq<nat>, max: nat, index: nat, trigger: int)
    requires Fits(h, counts, max) && index < 3 && counts[index] > 0
    ensures var r := Handle(h, counts, max, SetInterrupts(IrqSet(32, 1, index, 0, 0), true, trigger), []);
            && EmptiedBelow(h.irqs.efds, r.holders.irqs.efds, counts[index])
            && r.holders == Holders(h.irqs.(efds := r.holders.irqs.efds), h.rs)
  {
    hide SetIrqs, EmptiedBelow;
    DisableAll(h.irqs, counts, index, trigger);
  }

  /** A message with one descriptor for each interrupt puts them into their slots and changes no other. */
  lemma AssignMessage(h: Holders, counts: seq<nat>, max: nat, index: nat, start: nat, trigger: int, fds: seq<nat>,
                      i: nat)
    requires Fits(h, counts, max) && index < 5 && fds != [] && start + |fds| <= counts[index]
    requires i < |h.irqs.efds|
    ensures var r := Handle(h, counts, max, SetInterrupts(IrqSet(32, 4, index, start, |fds|), true, trigger), fds);
            && |r.holders.irqs.efds| == |h.irqs.efds|
            && r.holders.irqs.efds[i] == (if start <= i < start + |fds| then fds[i - start] else h.irqs.efds[i])
            && r.holders == Holders(h.irqs.(efds := r.holders.irqs.efds), h.rs)
  {
    hide SetIrqs;
    SetIrqsPlaces(h.irqs, counts, IrqSet(32, 4, index, start, |fds|), fds, trigger, i);
  }

  /** A DMA_MAP message that succeeds holds its descriptors, and the DMA_UNMAP message for it closes them again. */
  lemma MapThenUnmap(h: Holders, counts: seq<nat>, max: nat, es: seq<Entry>, fds: seq<nat>)
    requires Fits(h, counts, max) && WellFormed(h.rs) && AllMapped(h.rs, max, fds, es, |es|)
    ensures var one := Handle(h, counts, max, DmaMap(es), fds);
            var two := Handle(one.holders, counts, max, DmaUnmap(Spans(es)), []);
            && one.holders.irqs == h.irqs && Appended(h.rs, one.holders.rs, es, fds, |es|)
            && two.holders == h
  {
    hide MapMany, UnmapMany, AllMapped, WellFormed, Appended;
    MapRecords(h.rs, max, fds, es, |es|);
    UnmapUndoesMap(h.rs, max, fds, es);
  }

  lemma ResetBalances(h: Holders, counts: seq<nat>, x: nat)
    requires CountsOk(counts, |h.irqs.efds|)
    ensures var r := Reset(h, counts); Balanced(h, r.holders, r.ledger, x)
  {
    hide ResetIrqs, HeldByIrqs;
    ResetIrqsConserves(h.irqs, counts, x);
  }

  /** Over every run, whatever the client sends, the books of every descriptor balance. */
  lemma {:induction false} RunBalances(h: Holders, counts: seq<nat>, max: nat, es: seq<Event>, n: nat, x: nat)
    requires Fits(h, counts, max) && n <= |es|
    ensures var r := Run(h, counts, max, es, n); Balanced(h, r.holders, r.ledger, x)
  {
    hide Handle, Reset, Holds;
    if n > 0 {
      RunBalances(h, counts, max, es, n - 1, x);
      var p := Run(h, counts, max, es, n - 1);
      if es[n - 1].Disconnect? {
        ResetBalances(p.holders, counts, x);
      } else {
        HandleBalances(p.holders, counts, max, es[n - 1].msg, es[n - 1].fds, x);
      }
    }
  }

  /**
   Event j is a DMA_MAP message in which x comes for a region that is there already, or for a file
   that cannot be mapped.
   */
  predicate ExceptionIn(h: Holders, counts: seq<nat>, max: nat, es: seq<Event>, j: nat, x: nat)
    requires Fits(h, counts, max) && j < |es|
  {
    && es[j].Received? && es[j].msg.DmaMap?
    && HasException(Run(h, counts, max, es, j).holders.rs, max, es[j].fds, es[j].msg.es, |es[j].msg.es|, x)
  }

  predicate Excepted(h: Holders, counts: seq<nat>, max: nat, es: seq<Event>, n: nat, x: nat)
    requires Fits(h, counts, max) && n <= |es|
  {
    exists j :: 0 <= j < n && ExceptionIn(h, counts, max, es, j, x)
  }

  lemma StepException(h: Holders, counts: seq<nat>, max: nat, e: Event, x: nat)
    requires Fits(h, counts, max)
    ensures var l := Step(h, counts, max, e).ledger;
            l.leaked[x] + l.doubled[x] > 0 <==>
            && e.Received? && e.msg.DmaMap?
            && HasException(h.rs, max, e.fds, e.msg.es, |e.msg.es|, x)
  {
    hide SetIrqs, ResetIrqs, MapMany, UnmapMany, HasException, Fds;
    if e.Received? && e.msg.DmaMap? {
      ExceptionIff(h.rs, max, e.fds, e.msg.es, |e.msg.es|, x);
    }
  }

  lemma {:induction false} ExceptedIff(h: Holders, counts: seq<nat>, max: nat, es: seq<Event>, n: nat, x: nat)
    requires Fits(h, counts, max) && n <= |es|
    ensures var l := Run(h, counts, max, es, n).ledger;
            l.leaked[x] + l.doubled[x] > 0 <==> Excepted(h, counts, max, es, n, x)
  {
    hide Step, HasException;
    if n > 0 {
      ExceptedIff(h, counts, max, es, n - 1, x);
      StepException(Run(h, counts, max, es, n - 1).holders, counts, max, es[n - 1], x);
      assert Excepted(h, counts, max, es, n, x) <==>
             Excepted(h, counts, max, es, n - 1, x) || ExceptionIn(h, counts, max, es, n - 1, x);
    }
  }

  /** How often descriptor x came with the first n events. */
  function Came(es: seq<Event>, n: nat, x: nat): nat
    requires n <= |es|
  {
    if n == 0 then 0
    else Came(es, n - 1, x) + if es[n - 1].Received? then Count(es[n - 1].fds, x) else 0
  }

  lemma StepReceives(h: Holders, counts: seq<nat>, max: nat, e: Event, x: nat)
    requires Fits(h, counts, max)
    ensures Step(h, counts, max, e).ledger.received[x] == if e.Received? then Count(e.fds, x) else 0
  {
    hide SetIrqs, ResetIrqs, MapMany, UnmapMany, Fds;
  }

  lemma {:induction false} CameIsReceived(h: Holders, counts: seq<nat>, max: nat, es: seq<Event>, n: nat, x: nat)
    requires Fits(h, counts, max) && n <= |es|
    ensures Run(h, counts, max, es, n).ledger.received[x] == Came(es, n, x)
  {
    hide Step, Count;
    if n > 0 {
      CameIsReceived(h, counts, max, es, n - 1, x);
      StepReceives(Run(h, counts, max, es, n - 1).holders, counts, max, es[n - 1], x);
    }
  }

  /**
   A descriptor that came once is held once or was closed once, never both and never neither,
   exactly when it did not come for a region that was there already and not for one whose file
   could not be mapped.
   */
  lemma HeldOrClosedOnceIff(h: Holders, counts: seq<nat>, max: nat, es: seq<Event>, n: nat, x: nat)
    requires Fits(h, counts, max) && n <= |es|
    requires Holds(h, x) == 0 && Came(es, n, x) == 1
    ensures var r := Run(h, counts, max, es, n);
            Holds(r.holders, x) + r.ledger.closed[x] == 1 <==> !Excepted(h, counts, max, es, n, x)
  {
    hide Run, Holds, Excepted, Came;
    RunBalances(h, counts, max, es, n, x);
    CameIsReceived(h, counts, max, es, n, x);
    ExceptedIff(h, counts, max, es, n, x);
  }

  // --------------------------------------------------- the two exceptions

  /** The slots of ERR and REQ are never filled: descriptors for them go to the common row. */
  predicate NoSpecial(irqs: Irqs) {
    irqs.err < 0 && irqs.req < 0
  }

  lemma SetIrqsKeepsNoSpecial(irqs: Irqs, counts: seq<nat>, s: IrqSet, sizeOk: bool, fds: seq<int>, trigger: int)
    requires CountsOk(counts, |irqs.efds|) && NoSpecial(irqs)
    ensures NoSpecial(SetIrqs(irqs, counts, s, sizeOk, fds, trigger).irqs)
  {
    hide Assign, Clear;
  }

  lemma HandleKeepsNoSpecial(h: Holders, counts: seq<nat>, max: nat, msg: Message, fds: seq<nat>)
    requires Fits(h, counts, max) && NoSpecial(h.irqs)
    ensures NoSpecial(Handle(h, counts, max, msg, fds).holders.irqs)
  {
    hide SetIrqs, ResetIrqs, MapMany, UnmapMany, NoSpecial;
    if msg.SetInterrupts? {
      SetIrqsKeepsNoSpecial(h.irqs, counts, msg.s, msg.sizeOk, fds, msg.trigger);
    }
  }

  lemma ResetKeepsNoSpecial(h: Holders, counts: seq<nat>)
    requires CountsOk(counts, |h.irqs.efds|) && NoSpecial(h.irqs)
    ensures NoSpecial(Reset(h, counts).holders.irqs)
  {
  }

  lemma {:induction false} RunKeepsNoSpecial(h: Holders, counts: seq<nat>, max: nat, es: seq<Event>, n: nat)
    requires Fits(h, counts, max) && n <= |es| && NoSpecial(h.irqs)
    ensures NoSpecial(Run(h, counts, max, es, n).holders.irqs)
  {
    hide Handle, Reset, NoSpecial;
    if n > 0 {
      RunKeepsNoSpecial(h, counts, max, es, n - 1);
      var p := Run(h, counts, max, es, n - 1);
      if es[n - 1].Received? {
        HandleKeepsNoSpecial(p.holders, counts, max, es[n - 1].msg, es[n - 1].fds);
      } else {
        ResetKeepsNoSpecial(p.holders, counts);
      }
    }
  }

    lemma ResetEmpties(h: Holders, counts: seq<nat>, x: nat)
    requires CountsOk(counts, |h.irqs.efds|) && NoSpecial(h.irqs)
    ensures Holds(Reset(h, counts).holders, x) == 0
  {
    var efds := Reset(h, counts).holders.irqs.efds;
    assert forall i :: 0 <= i < |efds| ==> efds[i] < 0;
    assert x !in efds;
  }

  /** After a disconnection nothing is held: whatever was received was closed, but for the two exceptions. */
  lemma NothingHeldAfterDisconnect(h: Holders, counts: seq<nat>, max: nat, es: seq<Event>, x: nat)
    requires Fits(h, counts, max) && NoSpecial(h.irqs) && Holds(h, x) == 0
    requires |es| > 0 && es[|es| - 1].Disconnect?
    ensures var l := Run(h, counts, max, es, |es|).ledger;
            l.closed[x] + l.leaked[x] == l.received[x] + l.doubled[x]
  {
    hide Reset, Holds, Handle;
    var n := |es| - 1;
    RunBalances(h, counts, max, es, |es|, x);
    RunKeepsNoSpecial(h, counts, max, es, n);
    ResetEmpties(Run(h, counts, max, es, n).holders, counts, x);
  }

  lemma MapAlone(rs: seq<Region>, max: nat, fd: nat, e: Entry)
    requires |rs| <= max && e.mappable
    ensures MapMany(rs, max, [fd], [e], 1) == MapOne(rs, max, fd, e).(taken := 1)
  {
    hide MapOne;
    assert MapMany(rs, max, [fd], [e], 0) == MapState(rs, 0, multiset{}, multiset{}, multiset{}, 0);
  }

  /** A descriptor that comes for a region that is there already is neither held nor closed. */
  lemma ReAddLosesDescriptor(h: Holders, counts: seq<nat>, max: nat, fd: nat, e: Entry)
    requires Fits(h, counts, max) && e.mappable && IdenticalReAdd(h.rs, RequestOf(e, fd), e.env)
    ensures var r := Handle(h, counts, max, DmaMap([e]), [fd]);
            r.holders == h && r.ledger.received[fd] == 1 && r.ledger.closed[fd] == 0
  {
    hide Add, MapMany, IdenticalReAdd, MmapFails;
    MapAlone(h.rs, max, fd, e);
    AddFate(h.rs, max, RequestOf(e, fd), e.env);
    assert [fd][1..] == [];
  }

  /** A descriptor that comes for a file that cannot be mapped is closed where that fails and by the caller. */
  lemma FailedMmapClosesTwice(h: Holders, counts: seq<nat>, max: nat, fd: nat, e: Entry)
    requires Fits(h, counts, max) && e.mappable && MmapFails(h.rs, max, RequestOf(e, fd), e.env)
    ensures var r := Handle(h, counts, max, DmaMap([e]), [fd]);
            r.holders == h && r.ledger.received[fd] == 1 && r.ledger.closed[fd] == 2
  {
    hide Add, MapMany, IdenticalReAdd, MmapFails;
    MapAlone(h.rs, max, fd, e);
    AddFate(h.rs, max, RequestOf(e, fd), e.env);
    assert [fd][1..] == [];
  }

  /** A page of a file that two descriptors are open for. */
  function OnePage(mmap: Option<nat>): Entry {
    var file := File(1, 1, 4096);
    Entry(0, 4096, 0, 3, true, AddEnv(map[5 := file, 6 := file], 4096, mmap))
  }

  /** Both cases arise: descriptor 6 for the page that descriptor 5 mapped, and a page that cannot be mapped. */
  lemma BothExceptionsArise()
    ensures IdenticalReAdd([NewRegion(RequestOf(OnePage(Some(65536)), 5), OnePage(Some(65536)).env)],
                           RequestOf(OnePage(Some(65536)), 6), OnePage(Some(65536)).env)
    ensures MmapFails([], 16, RequestOf(OnePage(None), 5), OnePage(None).env)
  {
    hide Max, RoundUp, RoundDown;
    var e := OnePage(Some(65536));
    var r := NewRegion(RequestOf(e, 5), e.env);
    assert SameSpan(r, RequestOf(e, 6)) && Compatible(r, RequestOf(e, 6), e.env.files);
  }
}
