/**
 The dispatcher (lib/libvfio-user.c) in front of everything that a message can change: interrupt
 slots, DMA regions, configuration space, the migration region and the BARs of the sample device.
 */
module Dispatch {
  import opened Common
  import opened DmaLogging
  import opened DescriptorRuns
  import P = PciAccess
  import M = Migration
  import opened SampleServer

  const BAR0 := 0
  const BAR1 := 1
  const CFG := 7
  const MIGR := 9
  const PAGE_SIZE := 4096

  /** What does not change: interrupts of each kind, room for DMA regions, and the PCI set-up. */
  datatype Setup = Setup(counts: seq<nat>, max: nat, cfg: P.Config)

  /** Everything a message can change; alive ends when an assertion fails. */
  datatype Vm = Vm(h: Holders, pgsize: nat, space: seq<byte>, s: Server, alive: bool)

  /** What follows a message in memory, as far as a write to configuration space can read. */
  type Tail = s: seq<byte> | |s| == 3 witness [0, 0, 0]

  datatype DirtyOp = StartLogging(failAt: nat) | StopLogging | GetBitmap | BadFlags

  /** Query stands for the commands that only report, for DEVICE_RESET and for unknown commands. */
  datatype Command =
    | ForHolders(msg: Message)
    | Query
    | RegionAccess(region: nat, q: M.Req, sizeOk: bool, beyond: Tail)
    | DirtyPages(op: DirtyOp, argOk: bool)

  /** A message; timer tells whether a timer could be armed while it is handled. */
  datatype Input = Arrives(cmd: Command, headerOk: bool, fds: seq<nat>, timer: bool) | Lost

  ghost predicate Consistent(u: Setup, v: Vm) {
    Fits(v.h, u.counts, u.max) && P.ConfigOk(u.cfg, |v.space|) && P.Polite(u.cfg.cb)
  }

  /** should_exec_command() */
  predicate ShouldExec(state: nat, cmd: Command) {
    if state == M.SAVING then cmd.RegionAccess? || cmd.DirtyPages?
    else state == M.STOP ==> cmd.DirtyPages?
  }

  function RegionSize(v: Vm, region: nat): nat {
    if region == BAR0 then BAR0_SIZE
    else if region == BAR1 then |v.s.d.bar1|
    else if region == CFG then |v.space|
    else if region == MIGR then v.s.regionSize
    else 0
  }

  /** is_valid_region_access(); a write carries as many bytes as it says. */
  predicate ValidAccess(v: Vm, c: Command)
    requires c.RegionAccess?
  {
    && c.sizeOk && (c.q.isWrite ==> |c.q.data| == c.q.count)
    && c.region <= MIGR && c.q.pos + c.q.count <= RegionSize(v, c.region)
    && (v.s.m.state == M.SAVING ==> c.region == MIGR)
  }

  /** handle_region_access() and region_access(). */
  ghost function AccessRegion(u: Setup, v: Vm, c: Command, timer: bool): (v': Vm)
    requires Consistent(u, v) && c.RegionAccess?
    ensures Consistent(u, v')
  {
    if !ValidAccess(v, c) || c.q.count == 0 then v
    else if c.region == MIGR then
      var (s', r) := MigrationAccess(v.s, c.q, timer);
      v.(s := s', alive := !r.Abort?)
    else if !c.q.isWrite then v
    else if c.region == CFG then
      P.KeepsSize(u.cfg, v.space, c.q.pos, c.q.data + c.beyond, c.q.count);
      var e := P.ConfigWrite(u.cfg, v.space, c.q.pos, c.q.data + c.beyond, c.q.count);
      v.(space := e.space, alive := !e.Aborted?)
    else if c.region == BAR0 then v.(s := Guest(v.s, ToBar0(c.q.data), timer))
    else v.(s := Guest(v.s, ToBar1(c.q.pos, c.q.data), timer))
  }

  /** handle_dirty_pages() */
  function HandleDirtyPages(v: Vm, op: DirtyOp): (v': Vm)
    ensures |v'.h.rs| == |v.h.rs|
  {
    match op
    case StartLogging(failAt) =>
      var l := Start(v.h.rs, v.pgsize, PAGE_SIZE, failAt);
      v.(h := v.h.(rs := l.rs), pgsize := l.pgsize)
    case StopLogging =>
      var l := Stop(v.h.rs, v.pgsize);
      v.(h := v.h.(rs := l.rs), pgsize := l.pgsize)
    case _ => v
  }

  /** exec_command() */
  ghost function Exec(u: Setup, v: Vm, cmd: Command, fds: seq<nat>, timer: bool): (v': Vm)
    requires Consistent(u, v)
    ensures Consistent(u, v')
  {
    if !ShouldExec(v.s.m.state, cmd) then v
    else
      match cmd
      case ForHolders(msg) => v.(h := Handle(v.h, u.counts, u.max, msg, fds).holders)
      case Query => v
      case RegionAccess(_, _, _, _) => AccessRegion(u, v, cmd, timer)
      case DirtyPages(op, argOk) => if argOk then HandleDirtyPages(v, op) else v
  }

  /** A message is handled, or the connection is lost; nothing happens after the server has died. */
  ghost function Step(u: Setup, v: Vm, i: Input): (v': Vm)
    requires Consistent(u, v)
    ensures Consistent(u, v')
  {
    if !v.alive then v
    else if i.Lost? then v.(h := Reset(v.h, u.counts).holders)
    else if !i.headerOk then v
    else Exec(u, v, i.cmd, i.fds, i.timer)
  }

  ghost function Run(u: Setup, v: Vm, ins: seq<Input>): (v': Vm)
    requires Consistent(u, v)
    ensures Consistent(u, v')
  {
    if ins == [] then v else Step(u, Run(u, v, ins[..|ins| - 1]), ins[|ins| - 1])
  }

  // ------------------------------------------------------ what is let through

  /** DMA and interrupt messages take effect exactly when the device is neither stopped nor stop-and-copying. */
  lemma HoldersServedIff(u: Setup, v: Vm, msg: Message, fds: seq<nat>, timer: bool)
    requires Consistent(u, v) && v.alive
    ensures Step(u, v, Arrives(ForHolders(msg), true, fds, timer)) ==
            if Frozen(v) then v else v.(h := Handle(v.h, u.counts, u.max, msg, fds).holders)
  {
    hide Handle;
  }

  /** So do writes of the guest to BAR1: the bytes are then where they were written, and no others change. */
  lemma BarWriteServedIff(u: Setup, v: Vm, off: nat, bytes: seq<byte>, fds: seq<nat>, timer: bool, beyond: Tail)
    requires Consistent(u, v) && v.alive && |bytes| > 0 && off + |bytes| <= |v.s.d.bar1|
    ensures var cmd := RegionAccess(BAR1, M.Req(off, |bytes|, true, 0, bytes), true, beyond);
            var v' := Step(u, v, Arrives(cmd, true, fds, timer));
            && v'.h == v.h && v'.space == v.space && v'.s.m == v.s.m && v'.s.d.bar0 == v.s.d.bar0
            && |v'.s.d.bar1| == |v.s.d.bar1|
            && forall k :: 0 <= k < |v.s.d.bar1| ==>
                 v'.s.d.bar1[k] == if !Frozen(v) && off <= k < off + |bytes| then bytes[k - off] else v.s.d.bar1[k]
  {
    hide P.ConfigWrite, MigrationAccess;
  }

  // ----------------------------------------------------------------- frozen

  /** Configuration space and the holders are as they were, but for dirty bitmaps. */
  predicate SameOutside(v: Vm, v': Vm) {
    v'.space == v.space && v'.h.irqs == v.h.irqs && SameButBitmaps(v.h.rs, v'.h.rs)
  }

  predicate Frozen(v: Vm) {
    v.s.m.state == M.SAVING || v.s.m.state == M.STOP
  }

  lemma DirtyPagesChangesBitmaps(v: Vm, op: DirtyOp)
    ensures SameOutside(v, HandleDirtyPages(v, op)) && HandleDirtyPages(v, op).s == v.s
  {
    hide FirstFailure;
  }

  /** From stop-and-copy the migration region leads to stop-and-copy or to stop only. */
  lemma SavingLeadsToStop(s: Server, q: M.Req, timer: bool)
    requires s.m.state == M.SAVING
    ensures MigrationAccess(s, q, timer).0.m.state in {M.SAVING, M.STOP}
  {
    hide Respond, M.ValidTransition;
    if q.value < M.STATES {
      M.TransitionTable(s.m.state, q.value);
    }
  }

  lemma StepFreezes(u: Setup, v: Vm, i: Input)
    requires Consistent(u, v) && Frozen(v) && i.Arrives?
    ensures Frozen(Step(u, v, i)) && SameOutside(v, Step(u, v, i))
    ensures v.s.m.state == M.STOP ==> Step(u, v, i).s == v.s
  {
    hide MigrationAccess, HandleDirtyPages, Handle, Guest;
    if i.cmd.DirtyPages? {
      DirtyPagesChangesBitmaps(v, i.cmd.op);
    } else if i.cmd.RegionAccess? && v.s.m.state == M.SAVING {
      SavingLeadsToStop(v.s, i.cmd.q, i.timer);
    }
  }

  lemma SameOutsideTrans(a: Vm, b: Vm, c: Vm)
    requires SameOutside(a, b) && SameOutside(b, c)
    ensures SameOutside(a, c)
  {
  }

  /**
   From stop-and-copy on, whatever is sent: no interrupt slot, no DMA region and no byte of
   configuration space changes, and the state can only become stop.
   */
  lemma {:induction false} FrozenWhileConnected(u: Setup, v: Vm, ins: seq<Input>)
    requires Consistent(u, v) && Frozen(v) && forall k :: 0 <= k < |ins| ==> ins[k].Arrives?
    ensures Frozen(Run(u, v, ins)) && SameOutside(v, Run(u, v, ins))
  {
    hide Step, SameOutside;
    if ins == [] {
      SameAsItself(v);
    } else {
      var n := |ins| - 1;
      FrozenWhileConnected(u, v, ins[..n]);
      StepFreezes(u, Run(u, v, ins[..n]), ins[n]);
      SameOutsideTrans(v, Run(u, v, ins[..n]), Run(u, v, ins));
    }
  }

  lemma SameAsItself(v: Vm)
    ensures SameOutside(v, v)
  {
  }

  /** Stop is final: over any run, reconnections included, neither the device nor configuration space changes. */
  lemma {:induction false} StopIsFinal(u: Setup, v: Vm, ins: seq<Input>)
    requires Consistent(u, v) && v.s.m.state == M.STOP
    ensures var v' := Run(u, v, ins); v'.s == v.s && v'.space == v.space && v'.alive == v.alive
  {
    hide Exec, Reset;
    if ins != [] {
      var n := |ins| - 1;
      StopIsFinal(u, v, ins[..n]);
      StoppedStep(u, Run(u, v, ins[..n]), ins[n]);
    }
  }

  /** In stop, only DIRTY_PAGES does anything. */
  lemma StoppedStep(u: Setup, v: Vm, i: Input)
    requires Consistent(u, v) && v.s.m.state == M.STOP
    ensures var v' := Step(u, v, i); v'.s == v.s && v'.space == v.space && v'.alive == v.alive
    ensures i.Arrives? && !i.cmd.DirtyPages? ==> Step(u, v, i) == v
  {
    hide Start, Stop;
  }

  // ------------------------------------------------- after a lost connection

  /** No region, and no descriptor in any slot, those of ERR and REQ included. */
  predicate NothingHeld(h: Holders) {
    && h.rs == [] && NoSpecial(h.irqs)
    && forall k :: 0 <= k < |h.irqs.efds| ==> h.irqs.efds[k] < 0
  }

  lemma LostEmpties(u: Setup, v: Vm)
    requires Consistent(u, v) && NoSpecial(v.h.irqs)
    ensures NothingHeld(Reset(v.h, u.counts).holders)
  {
  }

  /** In any run the slots of the error and request interrupts stay empty. */
  lemma {:induction false} SpecialStayEmpty(u: Setup, v: Vm, ins: seq<Input>)
    requires Consistent(u, v) && NoSpecial(v.h.irqs)
    ensures NoSpecial(Run(u, v, ins).h.irqs)
  {
    hide AccessRegion, Handle, Reset, NoSpecial;
    if ins != [] {
      var n := |ins| - 1;
      SpecialStayEmpty(u, v, ins[..n]);
      var before := Run(u, v, ins[..n]);
      if ins[n].Lost? {
        ResetKeepsNoSpecial(before.h, u.counts);
      } else if ins[n].cmd.ForHolders? {
        HandleKeepsNoSpecial(before.h, u.counts, u.max, ins[n].cmd.msg, ins[n].fds);
      } else if ins[n].cmd.RegionAccess? {
        AccessKeepsHolders(u, before, ins[n].cmd, ins[n].timer);
      }
    }
  }

  lemma AccessKeepsHolders(u: Setup, v: Vm, c: Command, timer: bool)
    requires Consistent(u, v) && c.RegionAccess?
    ensures AccessRegion(u, v, c, timer).h == v.h
  {
    hide P.ConfigWrite, MigrationAccess, Guest, ValidAccess;
  }

    lemma StaysEmpty(v: Vm, v': Vm)
    requires NothingHeld(v.h) && SameOutside(v, v')
    ensures NothingHeld(v'.h)
  {
  }

  /** A client that lost its connection in stop-and-copy cannot set anything up again. */
  lemma {:induction false} EmptyOnceLost(u: Setup, v: Vm, ins: seq<Input>, k: nat)
    requires Consistent(u, v) && Frozen(v) && NoSpecial(v.h.irqs) && v.alive && k < |ins| && ins[k].Lost?
    requires Run(u, v, ins[..k]).alive
    ensures Frozen(Run(u, v, ins)) && NothingHeld(Run(u, v, ins).h)
  {
    hide Exec, Reset, NothingHeld, SameOutside, NoSpecial;
    var n := |ins| - 1;
    FrozenForever(u, v, ins);
    SpecialStayEmpty(u, v, ins[..n]);
    FrozenForever(u, v, ins[..n]);
    var before := Run(u, v, ins[..n]);
    if ins[n].Lost? {
      LostEmpties(u, before);
    }
    if k < n {
      assert ins[..n][..k] == ins[..k];
      EmptyOnceLost(u, v, ins[..n], k);
      if ins[n].Arrives? {
        StepFreezes(u, before, ins[n]);
        StaysEmpty(before, Run(u, v, ins));
      }
    }
  }

  lemma {:induction false} FrozenForever(u: Setup, v: Vm, ins: seq<Input>)
    requires Consistent(u, v) && Frozen(v)
    ensures Frozen(Run(u, v, ins))
  {
    hide Exec, Reset;
    if ins != [] {
      var n := |ins| - 1;
      FrozenForever(u, v, ins[..n]);
      if ins[n].Arrives? {
        StepFreezes(u, Run(u, v, ins[..n]), ins[n]);
      }
    }
  }

  // ------------------------------------------------------------- the BARs

  /** The device was told the state that the library keeps. */
  predicate Agree(s: Server) {
    s.m.state == s.d.st
  }

  lemma AccessKeepsAgree(s: Server, q: M.Req, timer: bool)
    requires Agree(s)
    ensures Agree(MigrationAccess(s, q, timer).0)
  {
    hide M.ValidTransition;
  }

  lemma {:induction false} RunKeepsAgree(u: Setup, v: Vm, ins: seq<Input>)
    requires Consistent(u, v) && Agree(v.s)
    ensures Agree(Run(u, v, ins).s)
  {
    hide MigrationAccess, Handle, Reset, HandleDirtyPages, P.ConfigWrite;
    if ins != [] {
      var n := |ins| - 1;
      RunKeepsAgree(u, v, ins[..n]);
      var w := Run(u, v, ins[..n]);
      if ins[n].Arrives? {
        if ins[n].cmd.RegionAccess? {
          AccessKeepsAgree(w.s, ins[n].cmd.q, ins[n].timer);
        } else if ins[n].cmd.DirtyPages? {
          DirtyPagesChangesBitmaps(w, ins[n].cmd.op);
        }
      }
    }
  }

  /** A write into the data area of the migration region. */
  predicate DataWrite(m: M.Migr, q: M.Req) {
    q.isWrite && q.pos + q.count > M.REGISTERS && q.pos >= m.dataOffset
  }

  /** A data write that the sample device accepts and that carries other contents than the BARs have. */
  predicate Overwrites(s: Server, q: M.Req) {
    var n := |s.d.bar1|;
    && DataWrite(s.m, q) && q.pos == s.m.dataOffset && q.pos + q.count <= s.regionSize
    && |q.data| >= n
    && (q.data[..n] != s.d.bar1 || (|q.data| == n + BAR0_SIZE && q.data[n..] != s.d.bar0))
  }

  predicate SameBars(s: Server, s': Server) {
    s'.d.bar0 == s.d.bar0 && s'.d.bar1 == s.d.bar1
  }

  lemma OnlyDataWritesReachBars(s: Server, q: M.Req, timer: bool)
    requires !DataWrite(s.m, q)
    ensures SameBars(s, MigrationAccess(s, q, timer).0)
  {
    hide M.ValidTransition, M.Access;
  }

  /**
   In stop-and-copy the BARs should stand still, but the sample device takes data whatever its
   state: they keep their contents exactly when the access does not overwrite them.
   */
  lemma BarsKeptIff(s: Server, q: M.Req, timer: bool)
    requires s.m.state == M.SAVING && Agree(s)
    ensures SameBars(s, MigrationAccess(s, q, timer).0) <==> !Overwrites(s, q)
  {
    hide M.ValidTransition, M.Access;
    if !DataWrite(s.m, q) {
      OnlyDataWritesReachBars(s, q, timer);
    } else {
      assert M.CallOf(s.m, q) == Some(M.WriteData(q.data, q.pos - s.m.dataOffset));
    }
  }

  /** A client that sends no data keeps the BARs as they were when stop-and-copy began. */
  lemma {:induction false} BarsAreFrozen(u: Setup, v: Vm, ins: seq<Input>)
    requires Consistent(u, v) && Frozen(v)
    requires forall k :: 0 <= k < |ins| && ins[k].Arrives? && ins[k].cmd.RegionAccess? ==>
               !(ins[k].cmd.q.isWrite && ins[k].cmd.q.pos + ins[k].cmd.q.count > M.REGISTERS)
    ensures SameBars(v.s, Run(u, v, ins).s)
  {
    hide MigrationAccess, Handle, Reset, HandleDirtyPages, P.ConfigWrite;
    if ins != [] {
      var n := |ins| - 1;
      BarsAreFrozen(u, v, ins[..n]);
      FrozenForever(u, v, ins[..n]);
      var w := Run(u, v, ins[..n]);
      if ins[n].Arrives? {
        if ins[n].cmd.RegionAccess? {
          OnlyDataWritesReachBars(w.s, ins[n].cmd.q, ins[n].timer);
        } else if ins[n].cmd.DirtyPages? {
          DirtyPagesChangesBitmaps(w, ins[n].cmd.op);
        }
      }
    }
  }

  /** In stop-and-copy one message replaces BAR1 by any bytes of the client. */
  lemma MessageReplacesBar1(u: Setup, v: Vm, bytes: seq<byte>, fds: seq<nat>, timer: bool, beyond: Tail)
    requires Consistent(u, v) && v.alive && v.s.m.state == M.SAVING && DevOk(v.s.d) && |bytes| == |v.s.d.bar1|
    requires M.REGISTERS <= v.s.m.dataOffset && v.s.m.dataOffset + |bytes| <= v.s.regionSize
    ensures var q := M.Req(v.s.m.dataOffset, |bytes|, true, 0, bytes);
            Step(u, v, Arrives(RegionAccess(MIGR, q, true, beyond), true, fds, timer)).s.d.bar1 == bytes
  {
    hide M.ValidTransition, M.Access;
    var q := M.Req(v.s.m.dataOffset, |bytes|, true, 0, bytes);
    assert M.CallOf(v.s.m, q) == Some(M.WriteData(bytes, 0));
  }
}
