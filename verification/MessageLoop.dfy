/**
 The dispatcher as it runs (lib/libvfio-user.c): one object for everything a message can change,
 changed in place. Each method is proved against the value-level dispatcher.
 */
module MessageLoop {
  import opened DmaTable
  import opened DmaLogging
  import opened DescriptorRuns
  import opened RequestHandler
  import P = PciAccess
  import PciDevice
  import M = Migration
  import opened SampleServer
  import MigrationRegion
  import opened Dispatch

  class MessageServer {
    const ctx: Context
    const pci: PciDevice.ConfigSpace
    const host: MigrationRegion.SampleHost
    var alive: bool

    ghost predicate Valid()
      reads this, ctx, ctx.efds, ctx.dma, ctx.dma.regions, pci, pci.space
    {
      && ctx.Valid() && P.ConfigOk(pci.Cfg(), pci.space.Length) && P.Polite(pci.cb)
      && pci.space != host.dev.bar1
    }

    ghost function Fixed(): Setup
      reads pci
    {
      Setup(ctx.counts, ctx.dma.maxRegions, pci.Cfg())
    }

    ghost function Abs(): Vm
      requires Valid()
      reads this, ctx, ctx.efds, ctx.dma, ctx.dma.regions, pci, pci.space, host.region, host.dev, host.dev.bar1
      ensures Consistent(Fixed(), Abs())
    {
      Vm(ctx.State(), ctx.dma.dirtyPgsize, pci.space[..], host.State(), alive)
    }

    constructor (ctx: Context, pci: PciDevice.ConfigSpace, host: MigrationRegion.SampleHost)
      requires ctx.Valid() && P.ConfigOk(pci.Cfg(), pci.space.Length) && P.Polite(pci.cb)
      requires pci.space != host.dev.bar1
      ensures Valid() && this.ctx == ctx && this.pci == pci && this.host == host && alive
    {
      this.ctx, this.pci, this.host, alive := ctx, pci, host, true;
    }

    /** is_valid_region_access() */
    method IsValidAccess(c: Command) returns (ok: bool)
      requires Valid() && c.RegionAccess?
      ensures ok == ValidAccess(Abs(), c)
    {
      var size := 0;
      if c.region == BAR0 {
        size := BAR0_SIZE;
      } else if c.region == BAR1 {
        size := host.dev.bar1.Length;
      } else if c.region == CFG {
        size := pci.space.Length;
      } else if c.region == MIGR {
        size := host.regionSize;
      }
      if !c.sizeOk || (c.q.isWrite && |c.q.data| != c.q.count) || c.region > MIGR || c.q.pos + c.q.count > size {
        return false;
      }
      return !(host.region.state == M.SAVING && c.region != MIGR);
    }

    /** A write to configuration space. */
    method WriteConfig(c: Command)
      requires Valid() && alive && c.RegionAccess? && c.q.isWrite && |c.q.data| == c.q.count
      requires c.q.pos + c.q.count <= pci.space.Length
      modifies this`alive, pci.space
      ensures Valid()
      ensures var e := P.ConfigWrite(pci.Cfg(), old(pci.space[..]), c.q.pos, c.q.data + c.beyond, c.q.count);
              Abs() == old(Abs()).(space := e.space, alive := !e.Aborted?)
    {
      hide P.ConfigWrite, P.ConfigOk, P.Polite;
      var r := pci.AccessWrite(c.q.pos, c.q.data + c.beyond, c.q.count);
      alive := !r.Abort?;
    }

    /** An access to the migration region. */
    method AccessMigration(q: M.Req, timer: bool)
      requires Valid() && alive
      modifies this`alive, host.Repr
      ensures Valid()
      ensures var (s', r) := MigrationAccess(old(host.State()), q, timer);
              && alive == !r.Abort?
              && (alive ==> Abs() == old(Abs()).(s := s'))
    {
      hide MigrationAccess, P.ConfigOk, P.Polite;
      var r := host.ClientAccess(q, timer);
      alive := !r.Abort?;
    }

    /** A write to a BAR. */
    method WriteBar(w: GuestWrite, timer: bool)
      requires Valid()
      modifies host.Repr
      ensures Valid() && Abs() == old(Abs()).(s := Guest(old(host.State()), w, timer))
    {
      hide Guest, P.ConfigOk, P.Polite;
      ghost var s := host.State();
      host.GuestAccess([w], timer);
      assert [w][..0] == [] && Guests(s, [], timer) == s;
    }

    /** handle_region_access() and region_access(); what an aborted access leaves behind is not specified. */
    method HandleRegionAccess(c: Command, timer: bool)
      requires Valid() && alive && c.RegionAccess?
      modifies this`alive, host.Repr, pci.space
      ensures Valid()
      ensures alive == AccessRegion(Fixed(), old(Abs()), c, timer).alive
      ensures alive ==> Abs() == AccessRegion(Fixed(), old(Abs()), c, timer)
    {
      hide P.ConfigWrite, P.ConfigOk, P.Polite, MigrationAccess, Guest;
      var ok := IsValidAccess(c);
      if !ok || c.q.count == 0 {
        return;
      }
      if c.region == MIGR {
        AccessMigration(c.q, timer);
      } else if c.q.isWrite {
        if c.region == CFG {
          WriteConfig(c);
        } else if c.region == BAR0 {
          WriteBar(ToBar0(c.q.data), timer);
        } else {
          WriteBar(ToBar1(c.q.pos, c.q.data), timer);
        }
      }
    }

    /** handle_dirty_pages() */
    method DirtyPagesCommand(op: DirtyOp)
      requires Valid()
      modifies ctx.dma`dirtyPgsize, ctx.dma.regions
      ensures Valid() && Abs() == HandleDirtyPages(old(Abs()), op)
    {
      hide Start, Stop, P.ConfigOk, P.Polite, WellFormed;
      var ret;
      match op {
        case StartLogging(failAt) => ret := ctx.dma.LoggingStart(PAGE_SIZE, failAt);
        case StopLogging => ret := ctx.dma.LoggingStop();
        case _ =>
      }
    }

    /** The message that the handlers of descriptors get to see: none if the command is refused or another one. */
    ghost function Seen(cmd: Command, headerOk: bool): Message
      reads host.region
    {
      if headerOk && cmd.ForHolders? && ShouldExec(host.region.state, cmd) then cmd.msg else Other
    }

    /** exec_command() for the commands that take no descriptor, once they are let through. */
    method ExecOther(cmd: Command, timer: bool)
      requires Valid() && alive && !cmd.ForHolders? && ShouldExec(host.region.state, cmd)
      modifies this`alive, host.Repr, pci.space, ctx.dma`dirtyPgsize, ctx.dma.regions
      ensures Valid()
      ensures alive == Exec(Fixed(), old(Abs()), cmd, [], timer).alive
      ensures alive ==> Abs() == Exec(Fixed(), old(Abs()), cmd, [], timer)
    {
      hide AccessRegion, HandleDirtyPages, P.ConfigOk, P.Polite;
      if cmd.RegionAccess? {
        HandleRegionAccess(cmd, timer);
      } else if cmd.DirtyPages? && cmd.argOk {
        DirtyPagesCommand(cmd.op);
      }
    }

    method CloseAll(fds: array<int>, ghost orig: seq<nat>)
      requires Valid() && Consumed(fds[..], orig, 0)
      modifies ctx`closed
      ensures Valid() && Abs() == old(Abs()) && ctx.closed == old(ctx.closed) + multiset(orig)
    {
      hide Consumed, P.ConfigOk, P.Polite, WellFormed;
      ctx.CloseLeftovers(fds, orig, 0);
      assert orig[0..] == orig;
    }

    /** A command whose handler takes descriptors. */
    method ServeHolders(msg: Message, fds: array<int>, ghost orig: seq<nat>)
      requires Valid() && fds != ctx.efds && Consumed(fds[..], orig, 0)
      requires msg.DmaUnmap? ==> Idle(ctx.dma.Live(), msg.ss)
      modifies ctx, ctx.efds, ctx.dma`nregions, ctx.dma.regions, fds
      ensures Valid()
      ensures var r := Handle(old(ctx.State()), ctx.counts, ctx.dma.maxRegions, msg, orig);
              && Abs() == old(Abs()).(h := r.holders)
              && ctx.closed == old(ctx.closed) + r.ledger.closed
    {
      hide Handle, Consumed, P.ConfigOk, P.Polite, WellFormed;
      ctx.ProcessRequest(msg, fds, orig);
    }

    /**
     process_request(): the state after a message is that of the value-level dispatcher, and every
     descriptor that came with it and is not held is closed.
     */
    method ProcessMessage(cmd: Command, headerOk: bool, fds: array<int>, timer: bool, ghost orig: seq<nat>)
      requires Valid() && alive && fds != ctx.efds && Consumed(fds[..], orig, 0)
      requires cmd.ForHolders? && cmd.msg.DmaUnmap? ==> Idle(ctx.dma.Live(), cmd.msg.ss)
      modifies this`alive, host.Repr, pci.space, ctx, ctx.efds, ctx.dma, ctx.dma.regions, fds
      ensures Valid()
      ensures var v' := Dispatch.Step(Fixed(), old(Abs()), Arrives(cmd, headerOk, orig, timer));
              alive == v'.alive && (alive ==> Abs() == v')
      ensures alive ==>
                var seen := old(Seen(cmd, headerOk));
                ctx.closed == old(ctx.closed)
                  + Handle(old(ctx.State()), ctx.counts, ctx.dma.maxRegions, seen, orig).ledger.closed
    {
      hide Dispatch.Step, Exec, P.ConfigOk, P.Polite, Handle, Consumed, WellFormed;
      OtherCloses(ctx.State(), ctx.counts, ctx.dma.maxRegions, orig);
      StepCases(Fixed(), Abs(), cmd, headerOk, orig, timer);
      if !headerOk || !ShouldExec(host.region.state, cmd) {
        CloseAll(fds, orig);
      } else if cmd.ForHolders? {
        ServeHolders(cmd.msg, fds, orig);
      } else {
        ExecOther(cmd, timer);
        if alive {
          CloseAll(fds, orig);
        }
      }
    }

    /** vfu_reset_ctx(): migration state, device and configuration space are left alone. */
    method ConnectionLost()
      requires Valid() && alive
      modifies ctx, ctx.efds, ctx.dma, ctx.dma.regions
      ensures Valid() && Abs() == Dispatch.Step(Fixed(), old(Abs()), Lost)
      ensures ctx.closed == old(ctx.closed) + Reset(old(ctx.State()), ctx.counts).ledger.closed
    {
      hide Reset, P.ConfigOk, P.Polite;
      ctx.ResetCtx();
    }
  }

  lemma StepCases(u: Setup, v: Vm, cmd: Command, headerOk: bool, fds: seq<nat>, timer: bool)
    requires Consistent(u, v) && v.alive
    ensures Dispatch.Step(u, v, Arrives(cmd, headerOk, fds, timer)) ==
            if !headerOk || !ShouldExec(v.s.m.state, cmd) then v
            else if cmd.ForHolders? then v.(h := Handle(v.h, u.counts, u.max, cmd.msg, fds).holders)
            else Exec(u, v, cmd, [], timer)
  {
    hide AccessRegion, HandleDirtyPages, Handle;
  }

  lemma OtherCloses(h: Holders, counts: seq<nat>, max: nat, fds: seq<nat>)
    requires Fits(h, counts, max)
    ensures Handle(h, counts, max, Other, fds).ledger.closed == multiset(fds)
  {
  }
}
