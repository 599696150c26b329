/**
 What messages do when they are let through (lib/libvfio-user.c): which bytes of configuration
 space and of the BARs change, and what DIRTY_PAGES does to the DMA regions.
 */
module DispatchEffects {
  import opened Common
  import opened DmaLogging
  import P = PciAccess
  import W = PciEffects
  import M = Migration
  import opened SampleServer
  import opened Dispatch

  /** A write of these bytes to a region. */
  function WriteTo(region: nat, off: nat, bytes: seq<byte>, beyond: Tail): Command {
    RegionAccess(region, M.Req(off, |bytes|, true, 0, bytes), true, beyond)
  }

  // --------------------------------------------------------- configuration space

  /** A write to configuration space does what the PCI code does, unless the device is frozen. */
  lemma ConfigWriteServedIff(u: Setup, v: Vm, off: nat, bytes: seq<byte>, fds: seq<nat>, timer: bool, beyond: Tail)
    requires Consistent(u, v) && v.alive && bytes != [] && off + |bytes| <= |v.space|
    ensures var e := P.ConfigWrite(u.cfg, v.space, off, bytes + beyond, |bytes|);
            Step(u, v, Arrives(WriteTo(7, off, bytes, beyond), true, fds, timer)) ==
            if Frozen(v) then v else v.(space := e.space, alive := !e.Aborted?)
  {
    hide P.ConfigWrite, MigrationAccess, Guest;
  }

  /** A byte for the interrupt line or the latency timer is stored if and only if the device is not frozen. */
  lemma ByteRegisterServedIff(u: Setup, v: Vm, at: nat, b: byte, fds: seq<nat>, timer: bool, beyond: Tail)
    requires Consistent(u, v) && v.alive && at in {0x3c, 0x0d}
    ensures at < |v.space|
    ensures Step(u, v, Arrives(WriteTo(7, at, [b], beyond), true, fds, timer)) ==
            if Frozen(v) then v else v.(space := v.space[at := b])
  {
    hide P.ConfigWrite, P.Polite, Step;
    ConfigWriteServedIff(u, v, at, [b], fds, timer, beyond);
    W.ByteRegisters(u.cfg, v.space, at, [b] + beyond);
  }

  /** Bytes for a vendor-specific capability, behind its header and within its end, are stored likewise. */
  lemma VendorWriteServedIff(u: Setup, v: Vm, i: nat, off: nat, bytes: seq<byte>, fds: seq<nat>, timer: bool,
                             beyond: Tail)
    requires Consistent(u, v) && v.alive && bytes != [] && i < |u.cfg.all|
    requires u.cfg.all[i].off + u.cfg.all[i].hdrSize <= off && off + |bytes| <= u.cfg.all[i].End()
    requires !W.Shadowed(u.cfg.all, i, off + |bytes|) && W.Handled(u.cfg.all[i])
    requires u.cfg.all[i].id == if u.cfg.all[i].extended then 0x0b else 0x09
    ensures var v' := Step(u, v, Arrives(WriteTo(7, off, bytes, beyond), true, fds, timer));
            && v' == v.(space := v'.space) && |v'.space| == |v.space|
            && forall k :: 0 <= k < |v.space| ==>
                 v'.space[k] == if !Frozen(v) && off <= k < off + |bytes| then bytes[k - off] else v.space[k]
  {
    hide P.ConfigWrite, P.Polite, Step, W.Shadowed;
    assert P.CapOk(u.cfg.all[i], |v.space|);
    ConfigWriteServedIff(u, v, off, bytes, fds, timer, beyond);
    W.VendorStores(u.cfg, v.space, i, off, bytes + beyond, |bytes|);
    assert forall k :: 0 <= k < |bytes| ==> (bytes + beyond)[k] == bytes[k];
  }

  /** A message that sizes base address register b of a device that is not frozen has the size read back from it. */
  lemma BarSizingServed(u: Setup, v: Vm, b: nat, fds: seq<nat>, timer: bool, beyond: Tail)
    requires Consistent(u, v) && v.alive && !Frozen(v) && b < 6
    requires 0 < u.cfg.bars[b].size < 0x1_0000_0000 && u.cfg.bars[b].size % (if u.cfg.bars[b].mem then 16 else 4) == 0
    ensures var at, k := 0x10 + 4 * b, if u.cfg.bars[b].mem then 16 else 4;
            var v' := Step(u, v, Arrives(WriteTo(7, at, [255, 255, 255, 255], beyond), true, fds, timer));
            && v' == v.(space := v'.space) && P.OnlyChanged(v.space, v'.space, at, at + 4) && at + 4 <= |v.space|
            && var r := P.Get32(v'.space, at);
               r % k == P.Get32(v.space, at) % k && 0x1_0000_0000 - (r - r % k) == u.cfg.bars[b].size
  {
    hide P.ConfigWrite, P.Polite, Step;
    var at, ones: seq<byte> := 0x10 + 4 * b, [255, 255, 255, 255];
    ConfigWriteServedIff(u, v, at, ones, fds, timer, beyond);
    W.BarSizingAccess(u.cfg, v.space, b, ones + beyond);
  }

  // ------------------------------------------------------------------ the BARs

  /** A timestamp for BAR0 is stored if and only if the device is not frozen and, if it runs, the timer is armed. */
  lemma Bar0WriteServedIff(u: Setup, v: Vm, bytes: seq<byte>, fds: seq<nat>, timer: bool, beyond: Tail)
    requires Consistent(u, v) && v.alive && |bytes| == 8
    ensures Step(u, v, Arrives(WriteTo(0, 0, bytes, beyond), true, fds, timer)) ==
            if Frozen(v) || (v.s.d.st == 1 && !timer) then v else v.(s := v.s.(d := v.s.d.(bar0 := bytes)))
  {
    hide P.ConfigWrite, MigrationAccess;
  }

  /** A shorter one, or one that starts behind the first byte, is refused. */
  lemma Bar0PartRefused(u: Setup, v: Vm, off: nat, bytes: seq<byte>, fds: seq<nat>, timer: bool, beyond: Tail)
    requires Consistent(u, v) && (|bytes| != 8 || off != 0)
    ensures Step(u, v, Arrives(WriteTo(0, off, bytes, beyond), true, fds, timer)) == v
  {
    hide P.ConfigWrite, MigrationAccess;
  }

  // ------------------------------------------------------------ what is refused

  /** The size of a region as the client was told. */
  predicate InRegion(v: Vm, region: nat, end: nat) {
    || (region == 0 && end <= 8) || (region == 1 && end <= |v.s.d.bar1|)
    || (region == 7 && end <= |v.space|) || (region == 9 && end <= v.s.regionSize)
  }

  /** A message with a bad header, and an access that is empty, outside its region or of a wrong size, do nothing. */
  lemma BadAccessRefused(u: Setup, v: Vm, c: Command, headerOk: bool, fds: seq<nat>, timer: bool)
    requires Consistent(u, v) && c.RegionAccess?
    requires || !headerOk || !c.sizeOk || c.q.count == 0 || (c.q.isWrite && |c.q.data| != c.q.count)
             || !InRegion(v, c.region, c.q.pos + c.q.count)
    ensures Step(u, v, Arrives(c, headerOk, fds, timer)) == v
  {
    hide P.ConfigWrite, MigrationAccess, Guest;
  }

  /** Reading changes nothing outside the migration region. */
  lemma ReadsChangeNothing(u: Setup, v: Vm, c: Command, headerOk: bool, fds: seq<nat>, timer: bool)
    requires Consistent(u, v) && (c.Query? || (c.RegionAccess? && !c.q.isWrite && c.region != 9))
    ensures Step(u, v, Arrives(c, headerOk, fds, timer)) == v
  {
    hide P.ConfigWrite, MigrationAccess, Guest;
  }

  // ------------------------------------------------------------ dirty pages

  /**
   DIRTY_PAGES with the start flag, in any state of the device: if logging is off, every region has a
   page, and memory suffices, then it is on with pages of 4096 bytes and every region has a blank
   bitmap. Nothing else changes.
   */
  lemma LoggingStarts(u: Setup, v: Vm, failAt: nat, fds: seq<nat>, timer: bool)
    requires Consistent(u, v) && v.alive && v.pgsize == 0
    requires AtLeastAPage(v.h.rs, 4096) && failAt >= |v.h.rs|
    ensures var v' := Step(u, v, Arrives(DirtyPages(StartLogging(failAt), true), true, fds, timer));
            && v' == v.(h := v.h.(rs := v'.h.rs), pgsize := 4096) && |v'.h.rs| == |v.h.rs|
            && forall i :: 0 <= i < |v.h.rs| ==>
                 BlankFor(v'.h.rs[i], 4096) && v'.h.rs[i] == v.h.rs[i].(bitmap := v'.h.rs[i].bitmap)
  {
    hide Start, BlankFor;
    StartOutcome(v.h.rs, 0, 4096, failAt);
  }

  /** The stop flag turns logging off and releases every bitmap. */
  lemma LoggingStops(u: Setup, v: Vm, fds: seq<nat>, timer: bool)
    requires Consistent(u, v) && v.alive && v.pgsize > 0
    ensures var v' := Step(u, v, Arrives(DirtyPages(StopLogging, true), true, fds, timer));
            && v' == v.(h := v.h.(rs := v'.h.rs), pgsize := 0) && |v'.h.rs| == |v.h.rs|
            && forall i :: 0 <= i < |v.h.rs| ==> v'.h.rs[i] == v.h.rs[i].(bitmap := None)
  {
    hide Stop;
    StopOutcome(v.h.rs, v.pgsize);
  }

  /** Reading a bitmap, bad flags and a bad size change nothing. */
  lemma OtherDirtyPages(u: Setup, v: Vm, op: DirtyOp, argOk: bool, headerOk: bool, fds: seq<nat>, timer: bool)
    requires Consistent(u, v) && (op.GetBitmap? || op.BadFlags? || !argOk || !headerOk)
    ensures Step(u, v, Arrives(DirtyPages(op, argOk), headerOk, fds, timer)) == v
  {
  }

  // ------------------------------------------------------------- device states

  function WriteState(to: nat, beyond: Tail): Command {
    RegionAccess(9, M.Req(0, 4, true, to, [0, 0, 0, 0]), true, beyond)
  }

  /**
   Writing the device state of a running device: pre-copy and stop-and-copy make the BARs pending, and
   both the library and the device are in the new state.
   */
  lemma StateWriteServed(u: Setup, v: Vm, to: nat, fds: seq<nat>, timer: bool, beyond: Tail)
    requires Consistent(u, v) && v.alive && v.s.m.state == 1 && to in {2, 3, 4} && v.s.regionSize >= 4
    ensures var v' := Step(u, v, Arrives(WriteState(to, beyond), true, fds, timer));
            && v' == v.(s := v'.s) && v'.s.m.state == to && v'.s.d.st == to && SameBars(v.s, v'.s)
            && v'.s.d.pending == if to == 2 then |v.s.d.bar1| + 8 else if to == 3 then |v.s.d.bar1| else v.s.d.pending
  {
    hide P.ConfigWrite, M.ValidTransition;
    M.TransitionTable(1, to);
  }
}
