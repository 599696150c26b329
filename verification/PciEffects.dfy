/**
 What a client's access to configuration space does (lib/pci.c, lib/pci_caps.c), stated about the
 whole access: the registers of the header, the bytes of capabilities, and the device's own part.
 */
module PciEffects {
  import opened Common
  import opened PciCaps
  import opened PciRouting
  import opened PciAccess
  import PciList

  // ------------------------------------------------------ accesses of one segment

  /** An access that is one segment, handled in full or not at all, does what its handler does. */
  lemma OneSegment(cfg: Config, space: seq<byte>, off: nat, buf: seq<byte>, count: nat, h: Handler)
    requires ConfigOk(cfg, |space|) && Polite(cfg.cb)
    requires off + count <= |space| && |buf| >= count + 3 && count > 0
    requires NextSegment(cfg.all, off, count) == Segment(h, off, count)
    requires h.Header? ==> off < HEADER
    requires h.Capability? ==> h.i < |cfg.all| && cfg.all[h.i].off <= off
    requires var e := SegmentWrite(cfg, space, Segment(h, off, count), buf); e.Wrote? ==> e.n == count
    ensures ConfigWrite(cfg, space, off, buf, count) == SegmentWrite(cfg, space, Segment(h, off, count), buf)
  {
    hide SegmentWrite, NextSegment, ConfigOk, Polite;
    var s := Segment(h, off, count);
    SegmentInTable(cfg.all, off, count);
    WrittenInPart(cfg, space, s, buf);
    var e := SegmentWrite(cfg, space, s, buf);
    if e.Wrote? {
      WriteNothing(cfg, e.space, off + e.n, buf[e.n..]);
    }
  }

  lemma HeaderSegment(all: seq<Cap>, off: nat, count: nat)
    requires 0 < count && off + count <= HEADER
    ensures NextSegment(all, off, count) == Segment(Header, off, count)
  {
  }

  /** A write within the header does what the register at its offset does. */
  lemma HeaderAccess(cfg: Config, space: seq<byte>, off: nat, buf: seq<byte>, count: nat)
    requires ConfigOk(cfg, |space|) && Polite(cfg.cb)
    requires 0 < count && off + count <= HEADER && |buf| >= count + 3
    ensures ConfigWrite(cfg, space, off, buf, count) == HeaderWrite(space, cfg.bars, off, buf, count)
  {
    hide ConfigWrite, NextSegment, Polite, CommandWrite, BarWrite, RomWrite;
    HeaderSegment(cfg.all, off, count);
    HeaderWritesAll(space, cfg.bars, off, buf, count);
    OneSegment(cfg, space, off, buf, count, Header);
  }

  lemma HeaderWritesAll(space: seq<byte>, bars: seq<Bar>, off: nat, buf: seq<byte>, n: nat)
    requires |space| >= HEADER && |bars| == 6 && off < HEADER && |buf| >= n + 3 && n > 0
    ensures var e := HeaderWrite(space, bars, off, buf, n); e.Wrote? ==> e.n == n
  {
  }

  // -------------------------------------------------------------- the registers

  lemma BarRegister(space: seq<byte>, bars: seq<Bar>, b: nat, buf: seq<byte>)
    requires |space| >= HEADER && |bars| == 6 && b < 6 && |buf| >= 7
    ensures var at := 0x10 + 4 * b; HeaderWrite(space, bars, at, buf, 4) == Wrote(BarWrite(space, bars[b], at, buf), 4)
  {
    hide CommandWrite, RomWrite, BarWrite;
  }

  lemma BarAccess(cfg: Config, space: seq<byte>, b: nat, buf: seq<byte>)
    requires ConfigOk(cfg, |space|) && Polite(cfg.cb) && b < 6 && |buf| >= 7
    ensures |space| >= HEADER && |cfg.bars| == 6
    ensures var at := 0x10 + 4 * b;
            ConfigWrite(cfg, space, at, buf, 4) == Wrote(BarWrite(space, cfg.bars[b], at, buf), 4)
  {
    hide ConfigWrite, Polite, BarWrite, HeaderWrite, TableOk, CapOk;
    HeaderAccess(cfg, space, 0x10 + 4 * b, buf, 4);
    BarRegister(space, cfg.bars, b, buf);
  }

  /**
   Sizing through an access: after all ones have been written to base address register b, the size of
   region b can be read back from that register, and its type bits are kept; no other byte changes.
   */
  lemma BarSizingAccess(cfg: Config, space: seq<byte>, b: nat, buf: seq<byte>)
    requires ConfigOk(cfg, |space|) && Polite(cfg.cb) && b < 6
    requires |buf| >= 7 && Get32(buf, 0) == 0xffff_ffff
    requires 0 < cfg.bars[b].size < U32 && cfg.bars[b].size % (if cfg.bars[b].mem then 16 else 4) == 0
    ensures var at, k := 0x10 + 4 * b, if cfg.bars[b].mem then 16 else 4;
            var e := ConfigWrite(cfg, space, at, buf, 4);
            && e == Wrote(e.space, 4) && OnlyChanged(space, e.space, at, at + 4)
            && var v := Get32(e.space, at);
               v % k == Get32(space, at) % k && 0x1_0000_0000 - (v - v % k) == cfg.bars[b].size
  {
    hide ConfigWrite, ConfigOk, Polite, Get32, BarWrite;
    BarAccess(cfg, space, b, buf);
    BarSizing(space, cfg.bars[b], 0x10 + 4 * b, buf);
  }

  /** An aligned address that is written to base address register b reads back, with its type bits kept. */
  lemma BarAddressAccess(cfg: Config, space: seq<byte>, b: nat, buf: seq<byte>)
    requires ConfigOk(cfg, |space|) && Polite(cfg.cb) && b < 6
    requires |buf| >= 7 && Get32(buf, 0) != 0xffff_ffff && cfg.bars[b].size > 0
    requires Get32(buf, 0) % (if cfg.bars[b].mem then 16 else 4) == 0
    ensures var at := 0x10 + 4 * b;
            var e := ConfigWrite(cfg, space, at, buf, 4);
            && e == Wrote(e.space, 4) && OnlyChanged(space, e.space, at, at + 4)
            && Get32(e.space, at) == Get32(buf, 0) + Get32(space, at) % (if cfg.bars[b].mem then 16 else 4)
  {
    hide ConfigWrite, ConfigOk, Polite, Get32, BarWrite;
    BarAccess(cfg, space, b, buf);
    BarHoldsAddress(space, cfg.bars[b], 0x10 + 4 * b, buf);
  }

  /** The register of a region that is not there keeps its value. */
  lemma AbsentBarKept(cfg: Config, space: seq<byte>, b: nat, buf: seq<byte>)
    requires ConfigOk(cfg, |space|) && Polite(cfg.cb) && b < 6 && |buf| >= 7 && cfg.bars[b].size == 0
    ensures ConfigWrite(cfg, space, 0x10 + 4 * b, buf, 4) == Wrote(space, 4)
  {
    hide ConfigWrite, Polite, Get32;
    BarAccess(cfg, space, b, buf);
  }

  /** A byte written to the interrupt line or the latency timer is stored there, and no other byte changes. */
  lemma ByteRegisters(cfg: Config, space: seq<byte>, at: nat, buf: seq<byte>)
    requires ConfigOk(cfg, |space|) && Polite(cfg.cb) && |buf| >= 4 && at in {0x3c, 0x0d}
    ensures ConfigWrite(cfg, space, at, buf, 1) == Wrote(space[at := buf[0]], 1)
  {
    hide ConfigWrite, Polite;
    HeaderAccess(cfg, space, at, buf, 1);
  }

  /** The status register ignores what is written to it. */
  lemma StatusIgnored(cfg: Config, space: seq<byte>, buf: seq<byte>, n: nat)
    requires ConfigOk(cfg, |space|) && Polite(cfg.cb) && |buf| >= n + 3 && 0 < n <= 2
    ensures ConfigWrite(cfg, space, 0x06, buf, n) == Wrote(space, n)
  {
    hide ConfigWrite, Polite;
    HeaderAccess(cfg, space, 0x06, buf, n);
  }

  /** The command register through an access: the six known bits are taken over, all others kept. */
  lemma CommandAccess(cfg: Config, space: seq<byte>, buf: seq<byte>)
    requires ConfigOk(cfg, |space|) && Polite(cfg.cb) && |buf| >= 5
    ensures var e := ConfigWrite(cfg, space, 0x04, buf, 2);
            && |e.space| == |space|
            && Bits(Get16(e.space, 0x04)) & 0x0517 == Bits(Get16(buf, 0)) & 0x0517
            && Bits(Get16(e.space, 0x04)) & 0xfae8 == Bits(Get16(space, 0x04)) & 0xfae8
            && (e.Wrote? <==> Bits(Get16(buf, 0)) & 0xfac8 == 0)
            && (e.Wrote? ==> e.n == 2) && (!e.Wrote? ==> e == Failed(e.space, 22))
  {
    hide ConfigWrite, Polite, Get16, Put16, Merge16, Bits;
    HeaderAccess(cfg, space, 0x04, buf, 2);
    CommandTakesBits(space, buf);
    OtherCommandBits();
  }

  lemma OtherCommandBits()
    ensures !COMMAND_BITS == 0xfae8
  {
  }

  /** A write of any other size to the command register is refused. */
  lemma CommandSize(cfg: Config, space: seq<byte>, buf: seq<byte>, n: nat)
    requires ConfigOk(cfg, |space|) && Polite(cfg.cb) && |buf| >= n + 3 && 0 < n <= 60 && n != 2
    ensures ConfigWrite(cfg, space, 0x04, buf, n) == Failed(space, 22)
  {
    hide ConfigWrite, Polite;
    HeaderAccess(cfg, space, 0x04, buf, n);
  }

  /** The expansion ROM register: sizing is accepted and changes nothing, zero clears it, all else is refused. */
  lemma RomAccess(cfg: Config, space: seq<byte>, buf: seq<byte>)
    requires ConfigOk(cfg, |space|) && Polite(cfg.cb) && |buf| >= 7
    ensures var e := ConfigWrite(cfg, space, 0x30, buf, 4);
            var v := Get32(buf, 0);
            && |e.space| == |space|
            && (v in {0xffff_f800, 0xffff_fffe} ==> e == Wrote(space, 4))
            && (v == 0 ==>
                  e == Wrote(e.space, 4) && Get32(e.space, 0x30) == 0 && OnlyChanged(space, e.space, 0x30, 0x34))
            && (v !in {0, 0xffff_f800, 0xffff_fffe} ==> e == Failed(space, 22))
  {
    hide ConfigWrite, Polite, Get32, Put32;
    HeaderAccess(cfg, space, 0x30, buf, 4);
    PutGet32(space, ROM_ADDRESS, 0);
  }

  /** No other byte of the header can be written: such a write is refused and changes nothing. */
  lemma OtherHeaderBytes(cfg: Config, space: seq<byte>, off: nat, buf: seq<byte>, n: nat)
    requires ConfigOk(cfg, |space|) && Polite(cfg.cb) && |buf| >= n + 3 && 0 < n && off + n <= HEADER
    requires off !in {0x04, 0x06, 0x0d, 0x10, 0x14, 0x18, 0x1c, 0x20, 0x24, 0x30, 0x3c}
    ensures ConfigWrite(cfg, space, off, buf, n) == Failed(space, 22)
  {
    hide ConfigWrite, Polite;
    HeaderAccess(cfg, space, off, buf, n);
  }

  // ---------------------------------------------------------------- capabilities

  /** A capability in front of i in the table starts where the access ends. */
  predicate Shadowed(all: seq<Cap>, i: nat, end: nat) {
    exists j :: 0 <= j < i && j < |all| && all[j].off == end
  }

  /**
   An access within capability i is one segment in its hands, if and only if no capability in front
   of it in the table starts where the access ends.
   */
  lemma CapabilitySegment(all: seq<Cap>, i: nat, off: nat, count: nat)
    requires TableOk(all) && i < |all| && 0 < count
    requires all[i].off <= off && off + count <= all[i].End()
    ensures NextSegment(all, off, count) == Segment(Capability(i), off, count) <==> !Shadowed(all, i, off + count)
  {
    OthersApart(all, i);
    var j := FindByOffset(all, off, count);
    assert Near(all[i], off, count) && j <= i;
    assert j < i ==> all[j].off == off + count;
    if k :| 0 <= k < i && all[k].off == off + count {
      assert Near(all[k], off, count);
    }
  }

  /** A write within capability i does what its own handler does. */
  lemma CapabilityAccess(cfg: Config, space: seq<byte>, i: nat, off: nat, buf: seq<byte>, n: nat)
    requires ConfigOk(cfg, |space|) && Polite(cfg.cb) && i < |cfg.all| && |buf| >= n + 3 && 0 < n
    requires cfg.all[i].off <= off && off + n <= cfg.all[i].End() && !Shadowed(cfg.all, i, off + n)
    requires CapOk(cfg.all[i], |space|)
    requires var e := CapWrite(cfg, space, cfg.all[i], off, buf, n); e.Wrote? ==> e.n == n
    ensures ConfigWrite(cfg, space, off, buf, n) == CapWrite(cfg, space, cfg.all[i], off, buf, n)
  {
    hide ConfigWrite, NextSegment, Polite, CapWrite, Shadowed;
    CapabilitySegment(cfg.all, i, off, n);
    OneSegment(cfg, space, off, buf, n, Capability(i));
  }

  /** A write to a read-only capability is answered with EPERM and changes nothing. */
  lemma ReadOnlyRefuses(cfg: Config, space: seq<byte>, i: nat, off: nat, buf: seq<byte>, n: nat)
    requires ConfigOk(cfg, |space|) && Polite(cfg.cb) && i < |cfg.all| && |buf| >= n + 3 && 0 < n
    requires cfg.all[i].off <= off && off + n <= cfg.all[i].End() && !Shadowed(cfg.all, i, off + n)
    requires cfg.all[i].readonly
    ensures ConfigWrite(cfg, space, off, buf, n) == Failed(space, 1)
  {
    hide ConfigWrite, Polite, CapHandler, Shadowed;
    CapabilityAccess(cfg, space, i, off, buf, n);
  }

  /** A write to a capability with the callback flag is the device's to answer. */
  lemma CallbackReached(cfg: Config, space: seq<byte>, i: nat, off: nat, buf: seq<byte>, n: nat)
    requires ConfigOk(cfg, |space|) && Polite(cfg.cb) && i < |cfg.all| && |buf| >= n + 3 && 0 < n
    requires cfg.all[i].off <= off && off + n <= cfg.all[i].End() && !Shadowed(cfg.all, i, off + n)
    requires !cfg.all[i].readonly && cfg.all[i].callback && cfg.cb.Callbacks?
    requires var e := cfg.cb.write(space, off, buf[..n]); e.Wrote? ==> e.n == n
    ensures ConfigWrite(cfg, space, off, buf, n) == cfg.cb.write(space, off, buf[..n])
  {
    hide ConfigWrite, Polite, CapHandler, Shadowed;
    CapabilityAccess(cfg, space, i, off, buf, n);
  }

  /** The header of any other capability is refused with EPERM. */
  lemma CapHeaderRefuses(cfg: Config, space: seq<byte>, i: nat, off: nat, buf: seq<byte>, n: nat)
    requires ConfigOk(cfg, |space|) && Polite(cfg.cb) && i < |cfg.all| && |buf| >= n + 3 && 0 < n
    requires cfg.all[i].off <= off < cfg.all[i].off + cfg.all[i].hdrSize
    requires off + n <= cfg.all[i].End() && !Shadowed(cfg.all, i, off + n)
    requires !cfg.all[i].callback
    ensures ConfigWrite(cfg, space, off, buf, n) == Failed(space, 1)
  {
    hide ConfigWrite, Polite, CapHandler, Shadowed;
    CapabilityAccess(cfg, space, i, off, buf, n);
  }

  /** Whether writes behind the header of the capability reach its own handler. */
  predicate Handled(c: Cap) {
    !c.readonly && !c.callback
  }

  /** A write into a vendor-specific capability behind its header is stored, and no other byte changes. */
  lemma VendorStores(cfg: Config, space: seq<byte>, i: nat, off: nat, buf: seq<byte>, n: nat)
    requires ConfigOk(cfg, |space|) && Polite(cfg.cb) && i < |cfg.all| && |buf| >= n + 3 && 0 < n
    requires cfg.all[i].off + cfg.all[i].hdrSize <= off && off + n <= cfg.all[i].End()
    requires !Shadowed(cfg.all, i, off + n) && Handled(cfg.all[i])
    requires cfg.all[i].id == if cfg.all[i].extended then 0x0b else 0x09
    ensures var e := ConfigWrite(cfg, space, off, buf, n);
            && e == Wrote(e.space, n) && OnlyChanged(space, e.space, off, off + n)
            && forall k :: 0 <= k < n ==> e.space[off + k] == buf[k]
  {
    hide ConfigWrite, Polite, Shadowed;
    assert CapOk(cfg.all[i], |space|);
    CapabilityAccess(cfg, space, i, off, buf, n);
  }

  /** The handlers of the other standard capabilities each take one register of two bytes. */
  predicate Register(c: Cap, off: nat, id: nat, at: nat) {
    !c.extended && Handled(c) && c.id == id && off == c.off + at
  }

  /** Power management: control and status are stored as they are written. */
  lemma PowerManagementStores(cfg: Config, space: seq<byte>, i: nat, off: nat, buf: seq<byte>)
    requires ConfigOk(cfg, |space|) && Polite(cfg.cb) && i < |cfg.all| && |buf| >= 5
    requires Register(cfg.all[i], off, 0x01, 4) && !Shadowed(cfg.all, i, off + 2)
    ensures var e := ConfigWrite(cfg, space, off, buf, 2);
            && e == Wrote(e.space, 2) && OnlyChanged(space, e.space, off, off + 2)
            && Get16(e.space, off) == Get16(buf, 0)
  {
    hide ConfigWrite, Polite, Shadowed;
    assert CapOk(cfg.all[i], |space|);
    CapabilityAccess(cfg, space, i, off, buf, 2);
  }

  /** MSI-X: the enable and mask bits of message control are taken over, the others kept. */
  lemma MsixTakesBits(cfg: Config, space: seq<byte>, i: nat, off: nat, buf: seq<byte>)
    requires ConfigOk(cfg, |space|) && Polite(cfg.cb) && i < |cfg.all| && |buf| >= 5
    requires Register(cfg.all[i], off, 0x11, 2) && !Shadowed(cfg.all, i, off + 2)
    ensures var e := ConfigWrite(cfg, space, off, buf, 2);
            && e == Wrote(e.space, 2) && off + 2 <= |space| && OnlyChanged(space, e.space, off, off + 2)
            && Bits(Get16(e.space, off)) & 0xc000 == Bits(Get16(buf, 0)) & 0xc000
            && Bits(Get16(e.space, off)) & 0x3fff == Bits(Get16(space, off)) & 0x3fff
  {
    hide ConfigWrite, Polite, Shadowed, Get16, Put16, Merge16, Bits;
    assert CapOk(cfg.all[i], |space|);
    CapabilityAccess(cfg, space, i, off, buf, 2);
    PutGet16(space, off, Merge16(Get16(space, off), Get16(buf, 0), 0xc000));
    Merge16Bits(Get16(space, off), Get16(buf, 0), 0xc000);
    Complements();
  }

  /** PCI Express: device control is taken over but for its top bit, which starts a reset. */
  lemma ExpressTakesBits(cfg: Config, space: seq<byte>, i: nat, off: nat, buf: seq<byte>)
    requires ConfigOk(cfg, |space|) && Polite(cfg.cb) && i < |cfg.all| && |buf| >= 5
    requires Register(cfg.all[i], off, 0x10, 8) && !Shadowed(cfg.all, i, off + 2)
    ensures var e := ConfigWrite(cfg, space, off, buf, 2);
            && e == Wrote(e.space, 2) && off + 2 <= |space| && OnlyChanged(space, e.space, off, off + 2)
            && Bits(Get16(e.space, off)) & 0x7fff == Bits(Get16(buf, 0)) & 0x7fff
            && Bits(Get16(e.space, off)) & 0x8000 == Bits(Get16(space, off)) & 0x8000
  {
    hide ConfigWrite, Polite, Shadowed, Get16, Put16, Merge16, Bits;
    assert CapOk(cfg.all[i], |space|);
    CapabilityAccess(cfg, space, i, off, buf, 2);
    PutGet16(space, off, Merge16(Get16(space, off), Get16(buf, 0), 0x7fff));
    Merge16Bits(Get16(space, off), Get16(buf, 0), 0x7fff);
    Complements();
  }

  /** Every other write behind the header of these capabilities is refused, and changes nothing. */
  lemma OtherRegistersRefuse(cfg: Config, space: seq<byte>, i: nat, off: nat, buf: seq<byte>, n: nat)
    requires ConfigOk(cfg, |space|) && Polite(cfg.cb) && i < |cfg.all| && |buf| >= n + 3 && 0 < n
    requires cfg.all[i].off + cfg.all[i].hdrSize <= off && off + n <= cfg.all[i].End()
    requires !Shadowed(cfg.all, i, off + n) && Handled(cfg.all[i])
    requires var c := cfg.all[i];
             if c.extended then c.id != 0x0b
             else
               || (c.id == 0x01 && !(n == 2 && off - c.off in {2, 4}))
               || (c.id == 0x11 && !(n == 2 && off - c.off == 2))
               || (c.id == 0x10 && !(n == 2 && off - c.off == 8))
    ensures ConfigWrite(cfg, space, off, buf, n) == Failed(space, if cfg.all[i].extended then 1 else 22)
  {
    hide ConfigWrite, Polite, Shadowed, Get16, Put16, Merge16;
    assert CapOk(cfg.all[i], |space|);
    CapabilityAccess(cfg, space, i, off, buf, n);
  }

  /** Writing the power management capabilities runs into an assertion. */
  lemma PowerCapabilitiesAbort(cfg: Config, space: seq<byte>, i: nat, off: nat, buf: seq<byte>)
    requires ConfigOk(cfg, |space|) && Polite(cfg.cb) && i < |cfg.all| && |buf| >= 5
    requires Register(cfg.all[i], off, 0x01, 2) && !Shadowed(cfg.all, i, off + 2)
    ensures ConfigWrite(cfg, space, off, buf, 2) == Aborted(space)
  {
    hide ConfigWrite, Polite, Shadowed, Get16, Put16, Merge16;
    assert CapOk(cfg.all[i], |space|);
    CapabilityAccess(cfg, space, i, off, buf, 2);
  }

  // ------------------------------------------------------------- everything else

  /** An access behind the header that is near no capability is the device's to answer, or refused. */
  lemma DeviceAccess(cfg: Config, space: seq<byte>, off: nat, buf: seq<byte>, n: nat)
    requires ConfigOk(cfg, |space|) && Polite(cfg.cb) && |buf| >= n + 3 && 0 < n
    requires HEADER <= off && off + n <= |space|
    requires forall i :: 0 <= i < |cfg.all| ==> cfg.all[i].End() <= off || off + n < cfg.all[i].off
    requires cfg.cb.Callbacks? ==> var e := cfg.cb.write(space, off, buf[..n]); e.Wrote? ==> e.n == n
    ensures ConfigWrite(cfg, space, off, buf, n) ==
            if cfg.cb.NoCallbacks? then Failed(space, 22) else cfg.cb.write(space, off, buf[..n])
  {
    hide ConfigWrite, Polite;
    assert forall i :: 0 <= i < |cfg.all| ==> !Near(cfg.all[i], off, n);
    OneSegment(cfg, space, off, buf, n, Device);
  }

  /** The device's own handler leaves the bytes of capability i alone. */
  ghost predicate Spares(cfg: Config, i: nat)
    requires i < |cfg.all|
  {
    cfg.cb.Callbacks? ==>
      forall space, off, data :: SameIn(cfg.all[i], space, cfg.cb.write(space, off, data).space)
  }

  /** No byte of the capability differs. */
  predicate SameIn(c: Cap, s: seq<byte>, s': seq<byte>) {
    |s| == |s'| && forall k :: c.off <= k < c.End() && k < |s| ==> s'[k] == s[k]
  }

  lemma HeaderWriteSpares(space: seq<byte>, bars: seq<Bar>, c: Cap, off: nat, buf: seq<byte>, n: nat)
    requires |space| >= HEADER && |bars| == 6 && off < HEADER && |buf| >= n + 3 && n > 0 && HEADER <= c.off
    ensures SameIn(c, space, HeaderWrite(space, bars, off, buf, n).space)
  {
    hide Merge16, Get16, Put16, Get32, Put32, BarWrite;
  }

  lemma SegmentSpares(cfg: Config, space: seq<byte>, i: nat, s: Segment, buf: seq<byte>)
    requires ConfigOk(cfg, |space|) && i < |cfg.all| && cfg.all[i].readonly && Spares(cfg, i)
    requires s.len > 0 && s.off + s.len <= |space| && |buf| >= s.len + 3
    requires s.handler.Header? ==> s.off < HEADER
    requires s.handler.Capability? ==>
               && s.handler.i < |cfg.all| && cfg.all[s.handler.i].off <= s.off
               && s.off + s.len <= cfg.all[s.handler.i].End()
    ensures SameIn(cfg.all[i], space, SegmentWrite(cfg, space, s, buf).space)
  {
    hide HeaderWrite, CapHandler;
    match s.handler
    case Header => HeaderWriteSpares(space, cfg.bars, cfg.all[i], s.off, buf, s.len);
    case Capability(j) =>
      var c := cfg.all[j];
      assert CapOk(c, |space|);
      if Handled(c) && c.off + c.hdrSize <= s.off {
        OthersApart(cfg.all, j);
        CapHandlerStays(space, c, s.off, buf, s.len);
      }
    case Device =>
  }

  /** A write that overruns no capability changes no byte of a read-only one, whatever else it meets. */
  lemma {:induction false} ReadOnlyKept(cfg: Config, space: seq<byte>, i: nat, off: nat, buf: seq<byte>, count: nat)
    requires ConfigOk(cfg, |space|) && Polite(cfg.cb) && Thorough(cfg.cb)
    requires i < |cfg.all| && cfg.all[i].readonly && Spares(cfg, i)
    requires off + count <= |space| && |buf| >= count + 3
    requires count > 0 ==> NoOverrun(cfg.all, off, count)
    ensures SameIn(cfg.all[i], space, ConfigWrite(cfg, space, off, buf, count).space)
    decreases count
  {
    hide NoOverrun, TableOk, SegmentWrite, Spares, NextSegment;
    if count > 0 {
      var s := NextSegment(cfg.all, off, count);
      SegmentInTable(cfg.all, off, count);
      RestOverrunsNothing(cfg.all, off, count);
      SegmentSpares(cfg, space, i, s, buf);
      WrittenInPart(cfg, space, s, buf);
      WrittenInFull(cfg, space, s, buf);
      var e := SegmentWrite(cfg, space, s, buf);
      if e.Wrote? {
        ReadOnlyKept(cfg, e.space, i, off + e.n, buf[e.n..], count - e.n);
      }
    }
  }

  // ---------------------------------------------------------------------- reads

  /** A read that is one segment returns what its handler returns, if that is all of it or an error. */
  lemma OneSegmentRead(cfg: Config, space: seq<byte>, off: nat, n: nat)
    requires off + n <= |space| && PoliteReader(cfg.cb) && n > 0
    requires NextSegment(cfg.all, off, n).len == n
    requires var s := NextSegment(cfg.all, off, n); s.handler.Capability? ==> s.handler.i < |cfg.all|
    requires var r := SegmentRead(cfg, space, NextSegment(cfg.all, off, n)); r.Some? ==> |r.value| == n
    ensures ConfigRead(cfg, space, off, n) == SegmentRead(cfg, space, NextSegment(cfg.all, off, n))
  {
    hide NextSegment, SegmentRead, PoliteReader;
    var r := SegmentRead(cfg, space, NextSegment(cfg.all, off, n));
    if r.Some? {
      assert r.value + [] == r.value;
    }
  }

  /** Reads of the header, and of a capability without the callback flag, return memory whatever the device does. */
  lemma MemoryRead(cfg: Config, space: seq<byte>, off: nat, n: nat, i: nat)
    requires TableOk(cfg.all) && off + n <= |space| && PoliteReader(cfg.cb) && n > 0
    requires || off + n <= HEADER
             || (&& i < |cfg.all| && !cfg.all[i].callback
                 && cfg.all[i].off <= off && off + n <= cfg.all[i].End() && !Shadowed(cfg.all, i, off + n))
    ensures ConfigRead(cfg, space, off, n) == Some(space[off..off + n])
  {
    hide ConfigRead, PoliteReader, Shadowed;
    if off + n <= HEADER {
      HeaderSegment(cfg.all, off, n);
    } else {
      CapabilitySegment(cfg.all, i, off, n);
    }
    OneSegmentRead(cfg, space, off, n);
  }

  /** A read of a capability with the callback flag returns what the device returns. */
  lemma CallbackRead(cfg: Config, space: seq<byte>, i: nat, off: nat, n: nat)
    requires TableOk(cfg.all) && off + n <= |space| && PoliteReader(cfg.cb) && n > 0
    requires i < |cfg.all| && cfg.all[i].callback && cfg.cb.Callbacks?
    requires cfg.all[i].off <= off && off + n <= cfg.all[i].End() && !Shadowed(cfg.all, i, off + n)
    requires var r := cfg.cb.read(space, off, n); r.Some? ==> |r.value| == n
    ensures ConfigRead(cfg, space, off, n) == cfg.cb.read(space, off, n)
  {
    hide ConfigRead, PoliteReader, Shadowed;
    CapabilitySegment(cfg.all, i, off, n);
    OneSegmentRead(cfg, space, off, n);
  }

  /** So does a read behind the header that is near no capability; without a device's handler it returns memory. */
  lemma DeviceReadAccess(cfg: Config, space: seq<byte>, off: nat, n: nat)
    requires off + n <= |space| && PoliteReader(cfg.cb) && n > 0 && HEADER <= off
    requires forall i :: 0 <= i < |cfg.all| ==> cfg.all[i].End() <= off || off + n < cfg.all[i].off
    requires cfg.cb.Callbacks? ==> var r := cfg.cb.read(space, off, n); r.Some? ==> |r.value| == n
    ensures ConfigRead(cfg, space, off, n) ==
            if cfg.cb.NoCallbacks? then Some(space[off..off + n]) else cfg.cb.read(space, off, n)
  {
    hide ConfigRead, PoliteReader;
    assert forall i :: 0 <= i < |cfg.all| ==> !Near(cfg.all[i], off, n);
    OneSegmentRead(cfg, space, off, n);
  }

  // ------------------------------------------------------- what was asked for

  /** A capability that was added read-only refuses every write within it with EPERM. */
  lemma AddedReadOnly(cfg: Config, space: seq<byte>, caps: seq<Cap>, ext: seq<Cap>, hasCb: bool, w: PciList.Wanted,
                      off: nat, buf: seq<byte>, n: nat)
    requires CFG_SPACE <= |space| && PciList.Supplied(w) && PciList.Add(space, caps, ext, hasCb, w).Added? && w.readonly
    requires var r := PciList.Add(space, caps, ext, hasCb, w);
             && ConfigOk(cfg, |r.space|) && Polite(cfg.cb) && cfg.all == r.caps + ext && |buf| >= n + 3 && 0 < n
             && r.off <= off && off + n <= r.caps[|caps|].End() && !Shadowed(cfg.all, |caps|, off + n)
    ensures var r := PciList.Add(space, caps, ext, hasCb, w);
            r.off < r.caps[|caps|].End() && ConfigWrite(cfg, r.space, off, buf, n) == Failed(r.space, 1)
  {
    hide ConfigWrite, ConfigOk, Polite, Shadowed, PciList.WalkOf, PciList.Write;
    var r := PciList.Add(space, caps, ext, hasCb, w);
    assert cfg.all[|caps|] == r.caps[|caps|];
    ReadOnlyRefuses(cfg, r.space, |caps|, off, buf, n);
  }

  /** One that was added with the callback flag, and not read-only, hands them to the device. */
  lemma AddedCallback(cfg: Config, space: seq<byte>, caps: seq<Cap>, ext: seq<Cap>, hasCb: bool, w: PciList.Wanted,
                      off: nat, buf: seq<byte>, n: nat)
    requires CFG_SPACE <= |space| && PciList.Supplied(w) && PciList.Add(space, caps, ext, hasCb, w).Added?
    requires w.callback && !w.readonly && cfg.cb.Callbacks?
    requires var r := PciList.Add(space, caps, ext, hasCb, w);
             && ConfigOk(cfg, |r.space|) && Polite(cfg.cb) && cfg.all == r.caps + ext && |buf| >= n + 3 && 0 < n
             && r.off <= off && off + n <= r.caps[|caps|].End() && !Shadowed(cfg.all, |caps|, off + n)
             && var e := cfg.cb.write(r.space, off, buf[..n]); e.Wrote? ==> e.n == n
    ensures var r := PciList.Add(space, caps, ext, hasCb, w);
            ConfigWrite(cfg, r.space, off, buf, n) == cfg.cb.write(r.space, off, buf[..n])
  {
    hide ConfigWrite, ConfigOk, Polite, Shadowed, PciList.WalkOf, PciList.Write;
    var r := PciList.Add(space, caps, ext, hasCb, w);
    assert cfg.all[|caps|] == r.caps[|caps|];
    CallbackReached(cfg, r.space, |caps|, off, buf, n);
  }

  /** The bytes of a capability that was added are where it was put, but for the link to the next one. */
  lemma AddedBytes(space: seq<byte>, caps: seq<Cap>, ext: seq<Cap>, hasCb: bool, w: PciList.Wanted, k: nat)
    requires CFG_SPACE <= |space| && PciList.Supplied(w) && PciList.Add(space, caps, ext, hasCb, w).Added?
    requires StdSize(w.data).Some? && k < StdSize(w.data).value && k != 1
    requires PciList.WellFormed(space, caps) && PciList.Free(caps, PciList.Add(space, caps, ext, hasCb, w).caps[|caps|])
    ensures var r := PciList.Add(space, caps, ext, hasCb, w);
            r.off + k < |r.space| && r.space[r.off + k] == w.data[k]
  {
    hide PciList.WalkOf;
    PciList.PlaceOnList(space, caps, w);
  }

  lemma Complements()
    ensures !(0xc000 as bv16) == 0x3fff && !(0x7fff as bv16) == 0x8000
  {
  }
}
