/**
 Reads and writes of configuration space (lib/pci.c, lib/pci_caps.c): every segment goes to
 the header, to a capability or to the device.
 */
module PciAccess {
  import opened Common
  import opened PciCaps
  import opened PciRouting
  import PciList

  /** Outcome of a write: bytes handled, an error, or an assertion that stops the process. */
  datatype Effect =
    | Wrote(space: seq<byte>, n: nat)
    | Failed(space: seq<byte>, errno: int)
    | Aborted(space: seq<byte>)

  /** Size and kind of the region behind a base address register. */
  datatype Bar = Bar(size: nat, mem: bool)

  /** The device's own handlers for configuration space, if it has any. */
  datatype Callbacks =
    | NoCallbacks
    | Callbacks(read: (seq<byte>, nat, nat) -> Option<seq<byte>>, write: (seq<byte>, nat, seq<byte>) -> Effect)

  /** Everything about the device that an access depends on, besides the bytes. */
  datatype Config = Config(all: seq<Cap>, bars: seq<Bar>, cb: Callbacks)

  function Get16(s: seq<byte>, at: nat): (v: nat)
    requires at + 2 <= |s|
    ensures v < 0x10000
  {
    s[at] as nat + 256 * s[at + 1] as nat
  }

  function Put16(s: seq<byte>, at: nat, v: nat): (r: seq<byte>)
    requires at + 2 <= |s| && v < 0x10000
    ensures |r| == |s| && forall k :: 0 <= k < |s| && !(at <= k < at + 2) ==> r[k] == s[k]
  {
    Copy(s, at, [v % 256, v / 256])
  }

  function Get32(s: seq<byte>, at: nat): (v: nat)
    requires at + 4 <= |s|
    ensures v < U32
  {
    Get16(s, at) + 0x10000 * Get16(s, at + 2)
  }

  function Put32(s: seq<byte>, at: nat, v: nat): (r: seq<byte>)
    requires at + 4 <= |s| && v < U32
    ensures |r| == |s| && forall k :: 0 <= k < |s| && !(at <= k < at + 4) ==> r[k] == s[k]
  {
    Put16(Put16(s, at, v % 0x10000), at + 2, v / 0x10000)
  }

  // ------------------------------------------------------------ the header

  const COMMAND := 0x04
  const STATUS := 0x06
  const LATENCY_TIMER := 0x0d
  const BASE_ADDRESS_0 := 0x10
  const BASE_ADDRESS_5 := 0x24
  const ROM_ADDRESS := 0x30
  const INTERRUPT_LINE := 0x3c

  /** Command bits that are taken over, and one that is accepted but ignored. */
  const COMMAND_BITS: bv16 := 0x0517
  const COMMAND_IGNORED: bv16 := 0x0020

  /** A 16-bit number as bits. */
  function Bits(x: nat): bv16
    requires x < 0x10000
  {
    x as bv16
  }

  /** The bits of a register that a mask selects are taken from the written value, the others kept. */
  function Merge16(reg: nat, written: nat, mask: bv16): (r: nat)
    requires reg < 0x10000 && written < 0x10000
    ensures r < 0x10000
  {
    MergeBits(Bits(reg), Bits(written), mask) as nat
  }

  function MergeBits(a: bv16, b: bv16, mask: bv16): bv16 {
    (a & !mask) | (b & mask)
  }

  /** A register has the bits of b where the mask is set and those of a elsewhere. */
  predicate Merged(r: bv16, a: bv16, b: bv16, mask: bv16) {
    r & mask == b & mask && r & !mask == a & !mask
  }

  lemma MergedBits(a: bv16, b: bv16, mask: bv16)
    ensures Merged(MergeBits(a, b, mask), a, b, mask)
  {
  }

  lemma BitsAndBack(b: bv16)
    ensures Bits(b as nat) == b
  {
  }

  /** handle_command_write(): unknown bits make the write fail after the known ones have been taken over. */
  function CommandWrite(space: seq<byte>, buf: seq<byte>, n: nat): Effect
    requires |space| >= HEADER && |buf| >= n
  {
    if n != 2 then Failed(space, EINVAL)
    else
      var v := Get16(buf, 0);
      var space' := Put16(space, COMMAND, Merge16(Get16(space, COMMAND), v, COMMAND_BITS));
      if Bits(v) & !(COMMAND_BITS | COMMAND_IGNORED) != 0 then Failed(space', EINVAL) else Wrote(space', n)
  }

  /** Bitwise or of numbers of which the second is below k, a power of two up to 16. */
  function OrLow(a: nat, b: nat, k: nat): (r: nat)
    requires 0 < k <= 16 && b < k && a < U32 && (k == 16 || k == 4)
    ensures r < U32 && r - r % k == a - a % k
    ensures a % k == 0 ==> r % k == b
  {
    var low := OrBits(a % k, b);
    OrBitsBelow(a % k, b, k);
    ReplaceLow(a, low, k);
    a - a % k + low
  }

  function OrBits(a: nat, b: nat): nat
    requires a < 16 && b < 16
  {
    ((a as bv8) | (b as bv8)) as nat
  }

  lemma OrBitsBelow(a: nat, b: nat, k: nat)
    requires (k == 16 || k == 4) && a < k && b < k
    ensures OrBits(a, b) < k && (a == 0 ==> OrBits(a, b) == b)
  {
    var x, y := a as bv8, b as bv8;
    if k == 16 {
      assert x < 16 && y < 16;
      assert x | y < 16;
    } else {
      assert x < 4 && y < 4;
      assert x | y < 4;
    }
    if a == 0 {
      assert x | y == y;
    }
  }

  lemma ReplaceLow(a: nat, low: nat, k: nat)
    requires (k == 16 || k == 4) && low < k && a < U32
    ensures var r := a - a % k + low; r < U32 && r % k == low && r - r % k == a - a % k
  {
  }

  /** How many low bits of a base address register say its type: four for memory, two for I/O. */
  function TypeSpan(bar: Bar): nat {
    if bar.mem then 16 else 4
  }

  /** pci_hdr_write_bar(): always takes four bytes from the buffer, whatever the size of the write. */
  function BarWrite(space: seq<byte>, bar: Bar, off: nat, buf: seq<byte>): (r: seq<byte>)
    requires |space| >= HEADER && off + 4 <= HEADER && |buf| >= 4
    ensures |r| == |space| && forall k :: 0 <= k < |space| && !(off <= k < off + 4) ==> r[k] == space[k]
  {
    if bar.size == 0 then space
    else
      var addr := if Get32(buf, 0) == 0xffff_ffff then (U32 - bar.size % U32) % U32 else Get32(buf, 0);
      Put32(space, off, OrLow(addr, Get32(space, off) % TypeSpan(bar), TypeSpan(bar)))
  }

  lemma PutGet16(s: seq<byte>, at: nat, v: nat)
    requires at + 2 <= |s| && v < 0x10000
    ensures Get16(Put16(s, at, v), at) == v
  {
  }

  lemma PutGet32(s: seq<byte>, at: nat, v: nat)
    requires at + 4 <= |s| && v < U32
    ensures Get32(Put32(s, at, v), at) == v
  {
    hide Get16, Put16;
    var t := Put16(s, at, v % 0x10000);
    PutGet16(s, at, v % 0x10000);
    PutGet16(t, at + 2, v / 0x10000);
    SameBytes16(t, Put16(t, at + 2, v / 0x10000), at);
  }

  lemma SameBytes16(s: seq<byte>, t: seq<byte>, at: nat)
    requires at + 2 <= |s| && |s| == |t| && s[at] == t[at] && s[at + 1] == t[at + 1]
    ensures Get16(s, at) == Get16(t, at)
  {
  }

  /**
   Sizing: after all ones have been written to the register of a region whose size is a multiple of
   its type bits, the register reads as the negated size with the type bits kept, so that the size
   can be read back from it.
   */
  lemma BarSizing(space: seq<byte>, bar: Bar, off: nat, buf: seq<byte>)
    requires |space| >= HEADER && off + 4 <= HEADER && |buf| >= 4 && Get32(buf, 0) == 0xffff_ffff
    requires 0 < bar.size < U32 && bar.size % TypeSpan(bar) == 0
    ensures var v := Get32(BarWrite(space, bar, off, buf), off);
            && v % TypeSpan(bar) == Get32(space, off) % TypeSpan(bar)
            && U32 - (v - v % TypeSpan(bar)) == bar.size
  {
    hide OrLow, Get32, Put32;
    var k, addr := TypeSpan(bar), U32 - bar.size;
    NegatedSize(bar.size, k);
    PutGet32(space, off, OrLow(addr, Get32(space, off) % k, k));
  }

  lemma NegatedSize(size: nat, k: nat)
    requires 0 < size < U32 && (k == 16 || k == 4) && size % k == 0
    ensures (U32 - size % U32) % U32 == U32 - size && (U32 - size) % k == 0
  {
  }

  /** An aligned address that is written is what the register holds, with the type bits kept. */
  lemma BarHoldsAddress(space: seq<byte>, bar: Bar, off: nat, buf: seq<byte>)
    requires |space| >= HEADER && off + 4 <= HEADER && |buf| >= 4 && bar.size > 0
    requires Get32(buf, 0) != 0xffff_ffff && Get32(buf, 0) % TypeSpan(bar) == 0
    ensures Get32(BarWrite(space, bar, off, buf), off) == Get32(buf, 0) + Get32(space, off) % TypeSpan(bar)
  {
    hide OrLow, Get32, Put32;
    PutGet32(space, off, OrLow(Get32(buf, 0), Get32(space, off) % TypeSpan(bar), TypeSpan(bar)));
  }

  /** handle_erom_write() */
  function RomWrite(space: seq<byte>, buf: seq<byte>, n: nat): Effect
    requires |space| >= HEADER && |buf| >= n
  {
    if n != 4 then Failed(space, EINVAL)
    else
      var v := Get32(buf, 0);
      if v == 0xffff_f800 || v == 0xffff_fffe then Wrote(space, n)
      else if v == 0 then Wrote(Put32(space, ROM_ADDRESS, 0), n)
      else Failed(space, EINVAL)
  }

  lemma MergedIs(reg: nat, written: nat, mask: bv16)
    requires reg < 0x10000 && written < 0x10000
    ensures Bits(Merge16(reg, written, mask)) == MergeBits(Bits(reg), Bits(written), mask)
  {
    hide MergeBits, Bits;
    BitsAndBack(MergeBits(Bits(reg), Bits(written), mask));
  }

  /** A merged register has the written bits where the mask is set and its old bits elsewhere. */
  lemma Merge16Bits(reg: nat, written: nat, mask: bv16)
    requires reg < 0x10000 && written < 0x10000
    ensures Merged(Bits(Merge16(reg, written, mask)), Bits(reg), Bits(written), mask)
  {
    hide MergeBits, Bits, Merge16, Merged;
    MergedIs(reg, written, mask);
    MergedBits(Bits(reg), Bits(written), mask);
  }

  lemma CommandOutcome(space: seq<byte>, buf: seq<byte>)
    requires |space| >= HEADER && |buf| >= 2
    ensures var e := CommandWrite(space, buf, 2);
            && e.space == Put16(space, COMMAND, Merge16(Get16(space, COMMAND), Get16(buf, 0), COMMAND_BITS))
            && (e.Wrote? <==> Bits(Get16(buf, 0)) & !(COMMAND_BITS | COMMAND_IGNORED) == 0)
  {
    hide Get16, Put16, Merge16;
  }

  /**
   The command register takes over the six bits the library knows and keeps the others, even when
   the write is refused; it is refused exactly for a bit that is neither known nor ignored.
   */
  lemma CommandTakesBits(space: seq<byte>, buf: seq<byte>)
    requires |space| >= HEADER && |buf| >= 2
    ensures var e := CommandWrite(space, buf, 2);
            && |e.space| == |space|
            && Bits(Get16(e.space, COMMAND)) & COMMAND_BITS == Bits(Get16(buf, 0)) & COMMAND_BITS
            && Bits(Get16(e.space, COMMAND)) & !COMMAND_BITS == Bits(Get16(space, COMMAND)) & !COMMAND_BITS
            && (e.Wrote? <==> Bits(Get16(buf, 0)) & 0xfac8 == 0)
  {
    hide Get16, Put16, Merge16, CommandWrite, Bits;
    CommandOutcome(space, buf);
    PutGet16(space, COMMAND, Merge16(Get16(space, COMMAND), Get16(buf, 0), COMMAND_BITS));
    Merge16Bits(Get16(space, COMMAND), Get16(buf, 0), COMMAND_BITS);
    UnknownCommandBits();
  }

  lemma UnknownCommandBits()
    ensures !(COMMAND_BITS | COMMAND_IGNORED) == 0xfac8
  {
  }

  /** A device without an expansion ROM keeps reading 0 there, whatever the client writes to size it. */
  lemma RomStaysAbsent(space: seq<byte>, buf: seq<byte>, n: nat)
    requires |space| >= HEADER && |buf| >= n && Get32(space, ROM_ADDRESS) == 0
    ensures |RomWrite(space, buf, n).space| == |space| && Get32(RomWrite(space, buf, n).space, ROM_ADDRESS) == 0
  {
    hide Get32, Put32;
    PutGet32(space, ROM_ADDRESS, 0);
  }

  /** pci_hdr_write() and pci_hdr_access(): the register at the offset decides. */
  function HeaderWrite(space: seq<byte>, bars: seq<Bar>, off: nat, buf: seq<byte>, n: nat): Effect
    requires |space| >= HEADER && |bars| == 6 && off < HEADER && |buf| >= n + 3 && n > 0
  {
    if off == COMMAND then CommandWrite(space, buf, n)
    else if off == STATUS then Wrote(space, n)
    else if off == INTERRUPT_LINE then Wrote(space[INTERRUPT_LINE := buf[0]], n)
    else if off == LATENCY_TIMER then Wrote(space[LATENCY_TIMER := buf[0]], n)
    else if BASE_ADDRESS_0 <= off <= BASE_ADDRESS_5 && off % 4 == 0 then
      Wrote(BarWrite(space, bars[(off - BASE_ADDRESS_0) / 4], off, buf), n)
    else if off == ROM_ADDRESS then RomWrite(space, buf, n)
    else Failed(space, EINVAL)
  }

  // ------------------------------------------------------ the device's own part

  function DeviceWrite(cb: Callbacks, space: seq<byte>, off: nat, data: seq<byte>): Effect {
    if cb.NoCallbacks? then Failed(space, EINVAL) else cb.write(space, off, data)
  }

  /**
   A write handler that handles some of the bytes or fails, and does not resize configuration space.
   One that handles none of them would be called forever.
   */
  ghost predicate Polite(cb: Callbacks) {
    cb.Callbacks? ==>
      forall space, off, data ::
        && |cb.write(space, off, data).space| == |space|
        && (data != [] && cb.write(space, off, data).Wrote? ==> 0 < cb.write(space, off, data).n <= |data|)
  }

  /** A write handler that handles all bytes or fails. */
  ghost predicate Thorough(cb: Callbacks) {
    cb.Callbacks? ==>
      forall space, off, data :: cb.write(space, off, data).Wrote? ==> cb.write(space, off, data).n == |data|
  }

  // -------------------------------------------------------------- capabilities

  const PM_PC := 2
  const PM_PMCS := 4
  const MSIX_MXC := 2
  const PX_PXDC := 8

  /** The handler of a capability for a write behind its header. */
  function CapHandler(space: seq<byte>, c: Cap, off: nat, buf: seq<byte>, n: nat): Effect
    requires c.off <= off && c.End() <= |space| && |buf| >= n && off + n <= |space|
    requires !c.extended && c.id == ID_PM ==> c.size == 8
    requires !c.extended && c.id == ID_MSIX ==> c.size == 12
    requires !c.extended && c.id == ID_EXP ==> c.size == 0x3c
  {
    var rel := off - c.off;
    if c.extended then
      if c.id == EXT_ID_VNDR then Wrote(Copy(space, off, buf[..n]), n) else Failed(space, EPERM)
    else if c.id == ID_PM then
      if rel == PM_PMCS && n == 2 then Wrote(Copy(space, off, buf[..2]), 2)
      else if rel == PM_PC && n == 2 then Aborted(space)
      else Failed(space, EINVAL)
    else if c.id == ID_MSIX then
      if rel == MSIX_MXC && n == 2 then
        Wrote(Put16(space, off, Merge16(Get16(space, off), Get16(buf, 0), 0xc000)), 2)
      else Failed(space, EINVAL)
    else if c.id == ID_EXP then
      if rel == PX_PXDC && n == 2 then
        Wrote(Put16(space, off, Merge16(Get16(space, off), Get16(buf, 0), 0x7fff)), 2)
      else Failed(space, EINVAL)
    else Wrote(Copy(space, off, buf[..n]), n)
  }

  /** pci_cap_access() for a write. */
  function CapWrite(cfg: Config, space: seq<byte>, c: Cap, off: nat, buf: seq<byte>, n: nat): Effect
    requires CapOk(c, |space|) && c.off <= off && off + n <= |space| && |buf| >= n
  {
    if c.readonly then Failed(space, EPERM)
    else if c.callback then DeviceWrite(cfg.cb, space, off, buf[..n])
    else if off - c.off < c.hdrSize then Failed(space, EPERM)
    else CapHandler(space, c, off, buf, n)
  }

  /** What vfu_pci_add_capability() records: a size that goes with the id and covers the header. */
  predicate CapOk(c: Cap, spaceSize: nat) {
    && 2 <= c.hdrSize <= c.size && c.End() <= spaceSize
    && (!c.extended ==> c.hdrSize == StdHdrSize(c.id))
    && (!c.extended && c.id == ID_PM ==> c.size == 8)
    && (!c.extended && c.id == ID_MSIX ==> c.size == 12)
    && (!c.extended && c.id == ID_EXP ==> c.size == 0x3c)
  }

  predicate ConfigOk(cfg: Config, spaceSize: nat) {
    && CFG_SPACE <= spaceSize && |cfg.bars| == 6
    && TableOk(cfg.all)
    && forall i :: 0 <= i < |cfg.all| ==> CapOk(cfg.all[i], spaceSize)
  }

  function SegmentWrite(cfg: Config, space: seq<byte>, s: Segment, buf: seq<byte>): Effect
    requires ConfigOk(cfg, |space|) && s.len > 0 && s.off + s.len <= |space| && |buf| >= s.len + 3
    requires s.handler.Header? ==> s.off < HEADER
    requires s.handler.Capability? ==> s.handler.i < |cfg.all| && cfg.all[s.handler.i].off <= s.off
  {
    match s.handler
    case Header => HeaderWrite(space, cfg.bars, s.off, buf, s.len)
    case Capability(i) => CapWrite(cfg, space, cfg.all[i], s.off, buf, s.len)
    case Device => DeviceWrite(cfg.cb, space, s.off, buf[..s.len])
  }

  /**
   pci_config_space_access() for a write of count bytes; buf holds them and whatever follows
   them in memory. Segments before a failing one have taken effect.
   */
  function ConfigWrite(cfg: Config, space: seq<byte>, off: nat, buf: seq<byte>, count: nat): (e: Effect)
    requires ConfigOk(cfg, |space|) && Polite(cfg.cb)
    requires off + count <= |space| && |buf| >= count + 3
    decreases count
  {
    if count == 0 then Wrote(space, 0)
    else
      var s := NextSegment(cfg.all, off, count);
      SegmentInTable(cfg.all, off, count);
      var e := SegmentWrite(cfg, space, s, buf);
      WrittenInPart(cfg, space, s, buf);
      if !e.Wrote? then e
      else
        match ConfigWrite(cfg, e.space, off + e.n, buf[e.n..], count - e.n)
        case Wrote(space', n) => Wrote(space', e.n + n)
        case failed => failed
  }

  /** What the caller is told about a write. */
  datatype Reply = Count(n: nat) | Error(errno: int) | Abort

  function EffectOf(space: seq<byte>, r: Reply): Effect {
    match r
    case Count(n) => Wrote(space, n)
    case Error(errno) => Failed(space, errno)
    case Abort => Aborted(space)
  }

  /** The outcome of a write of which n bytes were handled before. */
  function AddCount(n: nat, e: Effect): Effect {
    if e.Wrote? then Wrote(e.space, n + e.n) else e
  }

  lemma WroteMore(e: Effect)
    ensures AddCount(0, e) == e
  {
  }

  lemma WriteNothing(cfg: Config, space: seq<byte>, off: nat, buf: seq<byte>)
    requires ConfigOk(cfg, |space|) && Polite(cfg.cb) && off <= |space| && |buf| >= 3
    ensures ConfigWrite(cfg, space, off, buf, 0) == Wrote(space, 0)
  {
  }

  /** One turn of the write loop, after done bytes. */
  lemma WriteStep(cfg: Config, space: seq<byte>, off: nat, buf: seq<byte>, done: nat, count: nat)
    requires ConfigOk(cfg, |space|) && Polite(cfg.cb) && count > 0
    requires off + count <= |space| && |buf| >= done + count + 3
    ensures var s := NextSegment(cfg.all, off, count);
            && (s.handler.Header? ==> s.off < HEADER)
            && (s.handler.Capability? ==> s.handler.i < |cfg.all| && cfg.all[s.handler.i].off <= s.off)
            && var e := SegmentWrite(cfg, space, s, buf[done..]);
               && |e.space| == |space|
               && (e.Wrote? ==> 0 < e.n <= s.len)
               && AddCount(done, ConfigWrite(cfg, space, off, buf[done..], count)) ==
                  if e.Wrote? then
                    AddCount(done + e.n,
                             ConfigWrite(cfg, e.space, off + e.n, buf[done + e.n..], count - e.n))
                  else e
  {
    hide NextSegment, SegmentWrite;
    var s := NextSegment(cfg.all, off, count);
    SegmentInTable(cfg.all, off, count);
    WrittenInPart(cfg, space, s, buf[done..]);
    var e := SegmentWrite(cfg, space, s, buf[done..]);
    if e.Wrote? {
      assert buf[done..][e.n..] == buf[done + e.n..];
    }
  }

  lemma SegmentInTable(all: seq<Cap>, off: nat, count: nat)
    requires count > 0
    ensures var s := NextSegment(all, off, count);
            && (s.handler.Header? ==> s.off < HEADER)
            && (s.handler.Capability? ==> s.handler.i < |all| && all[s.handler.i].off <= s.off)
  {
  }

  /** Every handler handles some of its segment or fails, and keeps the size of the space. */
  lemma WrittenInPart(cfg: Config, space: seq<byte>, s: Segment, buf: seq<byte>)
    requires ConfigOk(cfg, |space|) && Polite(cfg.cb)
    requires s.len > 0 && s.off + s.len <= |space| && |buf| >= s.len + 3
    requires s.handler.Header? ==> s.off < HEADER
    requires s.handler.Capability? ==> s.handler.i < |cfg.all| && cfg.all[s.handler.i].off <= s.off
    ensures var e := SegmentWrite(cfg, space, s, buf); |e.space| == |space| && (e.Wrote? ==> 0 < e.n <= s.len)
  {
  }

  /** With a thorough device every handler handles its whole segment or fails. */
  lemma WrittenInFull(cfg: Config, space: seq<byte>, s: Segment, buf: seq<byte>)
    requires ConfigOk(cfg, |space|) && Thorough(cfg.cb)
    requires s.len > 0 && s.off + s.len <= |space| && |buf| >= s.len + 3
    requires s.handler.Header? ==> s.off < HEADER
    requires s.handler.Capability? ==> s.handler.i < |cfg.all| && cfg.all[s.handler.i].off <= s.off
    ensures var e := SegmentWrite(cfg, space, s, buf); e.Wrote? ==> e.n == s.len
  {
  }

  // ------------------------------------------------ what writes leave alone

  /** A byte that holds the list together: the header's pointer, or part of a capability's header. */
  predicate Guarded(all: seq<Cap>, k: nat) {
    k == CAP_PTR || exists i :: 0 <= i < |all| && InHeaderOf(all[i], k)
  }

  predicate InHeaderOf(c: Cap, k: nat) {
    c.off <= k < c.off + c.hdrSize
  }

  predicate SameGuarded(all: seq<Cap>, s: seq<byte>, s': seq<byte>) {
    |s| == |s'| && forall k :: 0 <= k < |s| && Guarded(all, k) ==> s'[k] == s[k]
  }

  /** The device's own handler leaves those bytes alone. */
  ghost predicate Harmless(cfg: Config) {
    cfg.cb.Callbacks? ==>
      forall space, off, data :: SameGuarded(cfg.all, space, cfg.cb.write(space, off, data).space)
  }

  /** The device's own handler is thorough besides. */
  ghost predicate Careful(cfg: Config) {
    Thorough(cfg.cb) && Harmless(cfg)
  }

  /** Only bytes [from, to) changed. */
  predicate OnlyChanged(s: seq<byte>, s': seq<byte>, from: nat, to: nat) {
    |s| == |s'| && forall k :: 0 <= k < |s| && !(from <= k < to) ==> s'[k] == s[k]
  }

  lemma HeaderWriteKeeps(cfg: Config, space: seq<byte>, off: nat, buf: seq<byte>, n: nat)
    requires ConfigOk(cfg, |space|) && off < HEADER && |buf| >= n + 3 && n > 0
    ensures SameGuarded(cfg.all, space, HeaderWrite(space, cfg.bars, off, buf, n).space)
  {
    hide Merge16, Get16, Put16, Get32, Put32, BarWrite;
    var space' := HeaderWrite(space, cfg.bars, off, buf, n).space;
    assert |space'| == |space|;
    assert forall k :: 0 <= k < |space| && (k == CAP_PTR || k >= HEADER) ==> space'[k] == space[k];
    forall k | 0 <= k < |space| && Guarded(cfg.all, k)
      ensures k == CAP_PTR || k >= HEADER
    {
    }
  }

  lemma BodyIsUnguarded(all: seq<Cap>, i: nat, k: nat)
    requires TableOk(all) && i < |all|
    requires forall j :: 0 <= j < |all| ==> all[j].hdrSize <= all[j].size
    requires all[i].off + all[i].hdrSize <= k < all[i].End()
    ensures !Guarded(all, k)
  {
    forall j | 0 <= j < |all|
      ensures !InHeaderOf(all[j], k)
    {
      assert i < j ==> Disjoint(all[i], all[j]);
      assert j < i ==> Disjoint(all[j], all[i]);
    }
  }

  lemma CapHandlerStays(space: seq<byte>, c: Cap, off: nat, buf: seq<byte>, n: nat)
    requires CapOk(c, |space|) && c.off + c.hdrSize <= off && off + n <= c.End() && |buf| >= n
    ensures OnlyChanged(space, CapHandler(space, c, off, buf, n).space, off, off + n)
  {
    hide Merge16, Get16;
  }

  lemma CapWriteKeeps(cfg: Config, space: seq<byte>, i: nat, off: nat, buf: seq<byte>, n: nat)
    requires ConfigOk(cfg, |space|) && Harmless(cfg) && i < |cfg.all| && |buf| >= n
    requires cfg.all[i].off <= off && off + n <= cfg.all[i].End()
    ensures CapOk(cfg.all[i], |space|)
    ensures SameGuarded(cfg.all, space, CapWrite(cfg, space, cfg.all[i], off, buf, n).space)
  {
    hide CapHandler, Guarded;
    var c := cfg.all[i];
    assert CapOk(c, |space|);
    if !c.readonly && !c.callback && c.off + c.hdrSize <= off {
      CapHandlerStays(space, c, off, buf, n);
      forall k | off <= k < off + n
        ensures !Guarded(cfg.all, k)
      {
        BodyIsUnguarded(cfg.all, i, k);
      }
    }
  }

  lemma SegmentWriteKeeps(cfg: Config, space: seq<byte>, s: Segment, buf: seq<byte>)
    requires ConfigOk(cfg, |space|) && Harmless(cfg)
    requires s.len > 0 && s.off + s.len <= |space| && |buf| >= s.len + 3
    requires s.handler.Header? ==> s.off < HEADER
    requires s.handler.Capability? ==>
               && s.handler.i < |cfg.all| && cfg.all[s.handler.i].off <= s.off
               && s.off + s.len <= cfg.all[s.handler.i].End()
    ensures SameGuarded(cfg.all, space, SegmentWrite(cfg, space, s, buf).space)
  {
    hide HeaderWrite, CapWrite, Guarded;
    match s.handler
    case Header => HeaderWriteKeeps(cfg, space, s.off, buf, s.len);
    case Capability(i) => CapWriteKeeps(cfg, space, i, s.off, buf, s.len);
    case Device =>
  }

  lemma SameGuardedTrans(all: seq<Cap>)
    ensures forall s :: SameGuarded(all, s, s)
    ensures forall s, t, u :: SameGuarded(all, s, t) && SameGuarded(all, t, u) ==> SameGuarded(all, s, u)
  {
    hide Guarded;
  }

  /**
   A write that does not start inside a capability and run past its end, successful or not, changes
   none of the bytes that hold the list together, in whatever order the table stands.
   */
  lemma {:induction false} NoOverrunKeepsList(cfg: Config, space: seq<byte>, off: nat, buf: seq<byte>, count: nat)
    requires ConfigOk(cfg, |space|) && Polite(cfg.cb) && Careful(cfg)
    requires off + count <= |space| && |buf| >= count + 3
    requires count > 0 ==> NoOverrun(cfg.all, off, count)
    ensures SameGuarded(cfg.all, space, ConfigWrite(cfg, space, off, buf, count).space)
    decreases count
  {
    hide NoOverrun, TableOk, SegmentWrite, Guarded, SameGuarded;
    SameGuardedTrans(cfg.all);
    if count > 0 {
      var s := NextSegment(cfg.all, off, count);
      SegmentInTable(cfg.all, off, count);
      RestOverrunsNothing(cfg.all, off, count);
      SegmentWriteKeeps(cfg, space, s, buf);
      WrittenInPart(cfg, space, s, buf);
      WrittenInFull(cfg, space, s, buf);
      var e := SegmentWrite(cfg, space, s, buf);
      if e.Wrote? {
        NoOverrunKeepsList(cfg, e.space, off + e.n, buf[e.n..], count - e.n);
      }
    }
  }

  // ------------------------------------- exactly which writes reach those bytes

  /** The capability's handler copies what it is given: those of vendor-specific capabilities that can be written. */
  predicate CopiesWrites(c: Cap) {
    && !c.readonly && !c.callback
    && if c.extended then c.id == EXT_ID_VNDR else c.id != ID_PM && c.id != ID_MSIX && c.id != ID_EXP
  }

  /** The segment is handed to such a handler, behind the capability's header. */
  predicate Copying(all: seq<Cap>, s: Segment) {
    && s.handler.Capability? && s.handler.i < |all|
    && var c := all[s.handler.i]; CopiesWrites(c) && c.off + c.hdrSize <= s.off
  }

  predicate InSegment(s: Segment, k: nat) {
    s.off <= k < s.off + s.len
  }

  /** A handler that does not copy leaves guarded bytes alone, however far its segment reaches. */
  lemma CapHandlerOverrun(cfg: Config, space: seq<byte>, i: nat, off: nat, buf: seq<byte>, n: nat, k: nat)
    requires ConfigOk(cfg, |space|) && i < |cfg.all| && |buf| >= n && off + n <= |space|
    requires var c := cfg.all[i]; !c.readonly && !c.callback && c.off + c.hdrSize <= off < c.End()
    requires k < |space| && Guarded(cfg.all, k)
    ensures CapOk(cfg.all[i], |space|)
    ensures var c := cfg.all[i];
            var e := CapHandler(space, c, off, buf, n);
            && |e.space| == |space|
            && e.space[k] == if CopiesWrites(c) && off <= k < off + n then buf[k - off] else space[k]
  {
    hide Guarded, Merge16, Get16;
    var c := cfg.all[i];
    assert CapOk(c, |space|);
    if !CopiesWrites(c) && off <= k < off + 2 && off + 2 <= c.End() {
      BodyIsUnguarded(cfg.all, i, k);
    }
  }

  /** What a segment does to a guarded byte: copied over by a copying handler, otherwise left alone. */
  lemma SegmentAtGuarded(cfg: Config, space: seq<byte>, s: Segment, buf: seq<byte>, k: nat)
    requires ConfigOk(cfg, |space|) && Harmless(cfg) && k < |space| && Guarded(cfg.all, k)
    requires s.len > 0 && s.off + s.len <= |space| && |buf| >= s.len + 3
    requires s.handler.Header? ==> s.off < HEADER
    requires s.handler.Capability? ==>
               s.handler.i < |cfg.all| && cfg.all[s.handler.i].off <= s.off < cfg.all[s.handler.i].End()
    ensures var e := SegmentWrite(cfg, space, s, buf);
            && |e.space| == |space|
            && e.space[k] == (if Copying(cfg.all, s) && InSegment(s, k) then buf[k - s.off] else space[k])
            && (Copying(cfg.all, s) ==> e == Wrote(e.space, s.len))
  {
    hide HeaderWrite, CapHandler, Guarded;
    match s.handler
    case Header => HeaderWriteKeeps(cfg, space, s.off, buf, s.len);
    case Capability(i) =>
      var c := cfg.all[i];
      if !c.readonly && !c.callback && c.off + c.hdrSize <= s.off {
        CapHandlerOverrun(cfg, space, i, s.off, buf, s.len, k);
        CopyingWritesAll(space, c, s.off, buf, s.len);
      }
    case Device =>
  }

  lemma CopyingWritesAll(space: seq<byte>, c: Cap, off: nat, buf: seq<byte>, n: nat)
    requires CapOk(c, |space|) && c.off <= off && off + n <= |space| && |buf| >= n
    ensures CopiesWrites(c) ==> var e := CapHandler(space, c, off, buf, n); e == Wrote(e.space, n)
  {
  }

  /** The segments of a write that are handed to a handler, the one that fails included. */
  function Reached(cfg: Config, space: seq<byte>, off: nat, buf: seq<byte>, count: nat): (ss: seq<Segment>)
    requires ConfigOk(cfg, |space|) && Polite(cfg.cb)
    requires off + count <= |space| && |buf| >= count + 3
    ensures forall j :: 0 <= j < |ss| ==> off <= ss[j].off && ss[j].off + ss[j].len <= off + count
    decreases count
  {
    if count == 0 then []
    else
      var s := NextSegment(cfg.all, off, count);
      SegmentInTable(cfg.all, off, count);
      var e := SegmentWrite(cfg, space, s, buf);
      WrittenInPart(cfg, space, s, buf);
      if e.Wrote? then [s] + Reached(cfg, e.space, off + e.n, buf[e.n..], count - e.n) else [s]
  }

  /** Some segment copies a byte of the client to this position. */
  predicate CopiedTo(all: seq<Cap>, ss: seq<Segment>, k: nat) {
    exists j :: 0 <= j < |ss| && Copying(all, ss[j]) && InSegment(ss[j], k)
  }

  lemma CopiedToCons(all: seq<Cap>, s: Segment, rest: seq<Segment>, k: nat)
    ensures CopiedTo(all, [s] + rest, k) <==> (Copying(all, s) && InSegment(s, k)) || CopiedTo(all, rest, k)
  {
    var ss := [s] + rest;
    assert ss[0] == s;
    assert forall j :: 0 <= j < |rest| ==> ss[j + 1] == rest[j];
    if j :| 0 <= j < |ss| && Copying(all, ss[j]) && InSegment(ss[j], k) && j > 0 {
      assert Copying(all, rest[j - 1]);
    }
  }

  lemma SegmentStartsInside(all: seq<Cap>, off: nat, count: nat)
    requires count > 0
    ensures var s := NextSegment(all, off, count);
            s.handler.Capability? ==> s.handler.i < |all| && all[s.handler.i].off <= off < all[s.handler.i].End()
  {
  }

  /**
   A byte that holds the list together is, after any write, the client's byte if a segment that is
   reached copies it there, and what it was before if none does.
   */
  lemma {:induction false} GuardedAfterWrite(cfg: Config, space: seq<byte>, off: nat, buf: seq<byte>, count: nat,
                                             k: nat)
    requires ConfigOk(cfg, |space|) && Polite(cfg.cb) && Harmless(cfg)
    requires off + count <= |space| && |buf| >= count + 3
    requires k < |space| && Guarded(cfg.all, k)
    ensures var s := ConfigWrite(cfg, space, off, buf, count).space;
            var ss := Reached(cfg, space, off, buf, count);
            && |s| == |space|
            && (CopiedTo(cfg.all, ss, k) ==> off <= k < off + count)
            && s[k] == if CopiedTo(cfg.all, ss, k) then buf[k - off] else space[k]
    decreases count
  {
    hide TableOk, SegmentWrite, Guarded, Copying, CopiedTo, Harmless, NextSegment, Polite, ConfigOk;
    if count == 0 {
      NothingCopied(cfg.all, k);
    } else {
      var s := NextSegment(cfg.all, off, count);
      SegmentInTable(cfg.all, off, count);
      SegmentStartsInside(cfg.all, off, count);
      WrittenInPart(cfg, space, s, buf);
      SegmentAtGuarded(cfg, space, s, buf, k);
      NothingCopied(cfg.all, k);
      var e := SegmentWrite(cfg, space, s, buf);
      if e.Wrote? {
        var rest := Reached(cfg, e.space, off + e.n, buf[e.n..], count - e.n);
        GuardedAfterWrite(cfg, e.space, off + e.n, buf[e.n..], count - e.n, k);
        CopiedToCons(cfg.all, s, rest, k);
      } else {
        CopiedToCons(cfg.all, s, [], k);
        assert [s] + [] == [s];
      }
    }
  }

  lemma NothingCopied(all: seq<Cap>, k: nat)
    ensures !CopiedTo(all, [], k)
  {
  }

  /** A segment that is reached copies another byte than was there to a byte that holds the list together. */
  ghost predicate Replaces(cfg: Config, space: seq<byte>, off: nat, buf: seq<byte>, count: nat)
    requires ConfigOk(cfg, |space|) && Polite(cfg.cb)
    requires off + count <= |space| && |buf| >= count + 3
  {
    exists k :: off <= k < off + count && Guarded(cfg.all, k)
                && CopiedTo(cfg.all, Reached(cfg, space, off, buf, count), k) && buf[k - off] != space[k]
  }

  /** Exactly these writes change a byte that holds the list together. */
  lemma WriteBreaksIff(cfg: Config, space: seq<byte>, off: nat, buf: seq<byte>, count: nat)
    requires ConfigOk(cfg, |space|) && Polite(cfg.cb) && Harmless(cfg)
    requires off + count <= |space| && |buf| >= count + 3
    ensures SameGuarded(cfg.all, space, ConfigWrite(cfg, space, off, buf, count).space)
       <==> !Replaces(cfg, space, off, buf, count)
  {
    hide Guarded, CopiedTo, Reached, ConfigWrite, ConfigOk, Polite, Harmless;
    KeepsSize(cfg, space, off, buf, count);
    var s := ConfigWrite(cfg, space, off, buf, count).space;
    forall k | 0 <= k < |space| && Guarded(cfg.all, k)
      ensures var c := CopiedTo(cfg.all, Reached(cfg, space, off, buf, count), k);
              (c ==> off <= k < off + count) && s[k] == if c then buf[k - off] else space[k]
    {
      GuardedAfterWrite(cfg, space, off, buf, count, k);
    }
  }

  /** A write that starts inside a vendor-specific capability and overruns it replaces the next one's header. */
  lemma OverrunReplacesHeader(space: seq<byte>, buf: seq<byte>)
    requires |space| == CFG_SPACE && |buf| == 11
    ensures var vendor := Cap(ID_VNDR, 0x40, 3, 8, false, false, false);
            var pm := Cap(ID_PM, 0x48, 2, 8, false, false, false);
            var cfg := Config([vendor, pm], seq(6, _ => Bar(0, false)), NoCallbacks);
            && ConfigOk(cfg, |space|) && Polite(cfg.cb)
            && !NoOverrun(cfg.all, 0x43, 8)
            && ConfigWrite(cfg, space, 0x43, buf, 8).space[0x48] == buf[5]
  {
    var vendor := Cap(ID_VNDR, 0x40, 3, 8, false, false, false);
    var pm := Cap(ID_PM, 0x48, 2, 8, false, false, false);
    var cfg := Config([vendor, pm], seq(6, _ => Bar(0, false)), NoCallbacks);
    assert cfg.all[0] == vendor && cfg.all[1] == pm;
    assert FindByOffset(cfg.all, 0x43, 8) == 0;
    var s := NextSegment(cfg.all, 0x43, 8);
    assert s == Segment(Capability(0), 0x43, 8);
    assert SegmentWrite(cfg, space, s, buf) == Wrote(Copy(space, 0x43, buf[..8]), 8);
  }

  // ------------------------------------------------------------ runs of writes

  /** A write request: the bytes to write and whatever follows them in memory. */
  datatype Request = Request(off: nat, count: nat, buf: seq<byte>)

  predicate InBounds(q: Request, spaceSize: nat) {
    q.off + q.count <= spaceSize && |q.buf| >= q.count + 3
  }

  /** The bytes after a run of writes, some of which may have failed. */
  function AfterWrites(cfg: Config, space: seq<byte>, qs: seq<Request>): (s: seq<byte>)
    requires ConfigOk(cfg, |space|) && Polite(cfg.cb)
    requires forall k :: 0 <= k < |qs| ==> InBounds(qs[k], |space|)
    ensures |s| == |space|
  {
    if qs == [] then space
    else
      var s := AfterWrites(cfg, space, qs[..|qs| - 1]);
      var q := qs[|qs| - 1];
      assert InBounds(q, |space|);
      KeepsSize(cfg, s, q.off, q.buf, q.count);
      ConfigWrite(cfg, s, q.off, q.buf, q.count).space
  }

  lemma {:induction false} KeepsSize(cfg: Config, space: seq<byte>, off: nat, buf: seq<byte>, count: nat)
    requires ConfigOk(cfg, |space|) && Polite(cfg.cb)
    requires off + count <= |space| && |buf| >= count + 3
    ensures |ConfigWrite(cfg, space, off, buf, count).space| == |space|
    decreases count
  {
    hide SegmentWrite;
    if count > 0 {
      var s := NextSegment(cfg.all, off, count);
      SegmentInTable(cfg.all, off, count);
      WrittenInPart(cfg, space, s, buf);
      var e := SegmentWrite(cfg, space, s, buf);
      if e.Wrote? {
        KeepsSize(cfg, e.space, off + e.n, buf[e.n..], count - e.n);
      }
    }
  }

  /** The bytes before write n of a run. */
  function Before(cfg: Config, space: seq<byte>, qs: seq<Request>, n: nat): (s: seq<byte>)
    requires ConfigOk(cfg, |space|) && Polite(cfg.cb) && n <= |qs|
    requires forall k :: 0 <= k < |qs| ==> InBounds(qs[k], |space|)
    ensures |s| == |space|
  {
    AfterWrites(cfg, space, qs[..n])
  }

  /** Write n of a run changes a byte that holds the list together. */
  ghost predicate ReplacesAt(cfg: Config, space: seq<byte>, qs: seq<Request>, n: nat)
    requires ConfigOk(cfg, |space|) && Polite(cfg.cb) && n < |qs|
    requires forall k :: 0 <= k < |qs| ==> InBounds(qs[k], |space|)
  {
    assert InBounds(qs[n], |space|);
    Replaces(cfg, Before(cfg, space, qs, n), qs[n].off, qs[n].buf, qs[n].count)
  }

  lemma BeforeNext(cfg: Config, space: seq<byte>, qs: seq<Request>, n: nat)
    requires ConfigOk(cfg, |space|) && Polite(cfg.cb) && n < |qs|
    requires forall k :: 0 <= k < |qs| ==> InBounds(qs[k], |space|)
    ensures InBounds(qs[n], |space|)
    ensures Before(cfg, space, qs, n + 1) ==
            ConfigWrite(cfg, Before(cfg, space, qs, n), qs[n].off, qs[n].buf, qs[n].count).space
  {
    hide ConfigWrite, ConfigOk, Polite;
    assert qs[..n + 1][..n] == qs[..n] && qs[..n + 1][n] == qs[n];
  }

  lemma NothingWritten(cfg: Config, space: seq<byte>, qs: seq<Request>)
    requires ConfigOk(cfg, |space|) && Polite(cfg.cb)
    requires forall k :: 0 <= k < |qs| ==> InBounds(qs[k], |space|)
    ensures KeptBefore(cfg, space, qs, 0)
  {
  }

  /** Before write n of a run the bytes that hold the list together are as they were at its start. */
  predicate KeptBefore(cfg: Config, space: seq<byte>, qs: seq<Request>, n: nat)
    requires ConfigOk(cfg, |space|) && Polite(cfg.cb) && n <= |qs|
    requires forall k :: 0 <= k < |qs| ==> InBounds(qs[k], |space|)
  {
    SameGuarded(cfg.all, space, Before(cfg, space, qs, n))
  }

  lemma OneMoreKeptIff(cfg: Config, space: seq<byte>, qs: seq<Request>, n: nat)
    requires ConfigOk(cfg, |space|) && Polite(cfg.cb) && Harmless(cfg) && n < |qs|
    requires forall k :: 0 <= k < |qs| ==> InBounds(qs[k], |space|)
    requires KeptBefore(cfg, space, qs, n)
    ensures KeptBefore(cfg, space, qs, n + 1) <==> !ReplacesAt(cfg, space, qs, n)
  {
    hide SameGuarded, ConfigWrite, Replaces, Before, ConfigOk, Polite, Harmless;
    BeforeNext(cfg, space, qs, n);
    var q, s := qs[n], Before(cfg, space, qs, n);
    WriteBreaksIff(cfg, s, q.off, q.buf, q.count);
    SameGuardedEither(cfg.all, space, s, Before(cfg, space, qs, n + 1));
  }

  /**
   Throughout a run of writes the bytes that hold the list together stay as they are, if and only if
   no write replaces one.
   */
  lemma {:induction false} RunKeepsGuardedIff(cfg: Config, space: seq<byte>, qs: seq<Request>, n: nat)
    requires ConfigOk(cfg, |space|) && Polite(cfg.cb) && Harmless(cfg) && n <= |qs|
    requires forall k :: 0 <= k < |qs| ==> InBounds(qs[k], |space|)
    ensures (forall j :: 0 <= j <= n ==> KeptBefore(cfg, space, qs, j))
       <==> (forall j :: 0 <= j < n ==> !ReplacesAt(cfg, space, qs, j))
  {
    hide KeptBefore, ReplacesAt, ConfigOk, Polite, Harmless;
    NothingWritten(cfg, space, qs);
    if n > 0 {
      RunKeepsGuardedIff(cfg, space, qs, n - 1);
      if forall j :: 0 <= j <= n - 1 ==> KeptBefore(cfg, space, qs, j) {
        OneMoreKeptIff(cfg, space, qs, n - 1);
        assert n - 1 + 1 == n;
      }
    }
  }

  /** From the same guarded bytes on, a change is a change from the start. */
  lemma SameGuardedEither(all: seq<Cap>, s: seq<byte>, t: seq<byte>, u: seq<byte>)
    ensures SameGuarded(all, s, t) ==> (SameGuarded(all, s, u) <==> SameGuarded(all, t, u))
  {
    hide Guarded;
  }

  predicate NothingOverrun(cfg: Config, qs: seq<Request>) {
    forall k :: 0 <= k < |qs| && qs[k].count > 0 ==> NoOverrun(cfg.all, qs[k].off, qs[k].count)
  }

  lemma {:induction false} RunKeepsGuarded(cfg: Config, space: seq<byte>, qs: seq<Request>)
    requires ConfigOk(cfg, |space|) && Polite(cfg.cb) && Careful(cfg)
    requires forall k :: 0 <= k < |qs| ==> InBounds(qs[k], |space|)
    requires NothingOverrun(cfg, qs)
    ensures SameGuarded(cfg.all, space, AfterWrites(cfg, space, qs))
  {
    hide NoOverrun, Careful, Guarded, ConfigWrite, Polite;
    if qs != [] {
      var n := |qs| - 1;
      RunKeepsGuarded(cfg, space, qs[..n]);
      var q := qs[n];
      NoOverrunKeepsList(cfg, AfterWrites(cfg, space, qs[..n]), q.off, q.buf, q.count);
    }
  }

  lemma GuardedAt(all: seq<Cap>, i: nat, k: nat)
    requires i < |all| && InHeaderOf(all[i], k)
    ensures Guarded(all, k)
  {
  }

  lemma LinkIsGuarded(space: seq<byte>, caps: seq<Cap>, ext: seq<Cap>, i: nat)
    requires PciList.WellFormed(space, caps) && i <= |caps|
    ensures Guarded(caps + ext, PciList.Link(PciList.Offsets(caps), i))
  {
    if i > 0 {
      assert PciList.Encodes(space, caps[i - 1]);
      GuardedAt(caps + ext, i - 1, caps[i - 1].off + 1);
    }
  }

  lemma EncodingKept(space: seq<byte>, space': seq<byte>, caps: seq<Cap>, ext: seq<Cap>, i: nat)
    requires PciList.WellFormed(space, caps) && SameGuarded(caps + ext, space, space') && i < |caps|
    ensures PciList.Encodes(space', caps[i]) && space'[caps[i].off] == space[caps[i].off]
  {
    hide Guarded;
    var c := caps[i];
    assert PciList.Encodes(space, c) && (caps + ext)[i] == c;
    GuardedAt(caps + ext, i, c.off);
    if c.id == ID_VNDR {
      GuardedAt(caps + ext, i, c.off + 2);
    }
  }

  /** The list survives any change of bytes that do not hold it together. */
  lemma ListSurvives(space: seq<byte>, space': seq<byte>, caps: seq<Cap>, ext: seq<Cap>)
    requires PciList.WellFormed(space, caps) && SameGuarded(caps + ext, space, space')
    ensures PciList.WellFormed(space', caps)
  {
    hide Guarded, PciList.Encodes;
    forall i | 0 <= i < |caps|
      ensures PciList.Encodes(space', caps[i])
    {
      EncodingKept(space, space', caps, ext, i);
    }
    forall i | 0 <= i <= |caps|
      ensures var l := PciList.Link(PciList.Offsets(caps), i); l < |space'| && space'[l] == space[l]
    {
      LinkIsGuarded(space, caps, ext, i);
    }
  }

  /**
   After any run of writes by the client none of which overruns a capability, whatever they wrote
   and whether or not they failed: the list is well-formed and every search finds what it found before.
   */
  lemma ClientCannotBreakList(cfg: Config, caps: seq<Cap>, ext: seq<Cap>, space: seq<byte>, qs: seq<Request>,
                              offset: nat, id: nat)
    requires cfg.all == caps + ext && PciList.WellFormed(space, caps)
    requires ConfigOk(cfg, |space|) && Polite(cfg.cb) && Careful(cfg)
    requires forall k :: 0 <= k < |qs| ==> InBounds(qs[k], |space|)
    requires NothingOverrun(cfg, qs)
    ensures var s := AfterWrites(cfg, space, qs);
            var offs := PciList.Offsets(caps);
            && PciList.WellFormed(s, caps)
            && (forall i :: 0 <= i < |offs| ==> offs[i] < |space|)
            && PciList.FindNext(s, offs, offset, id) == PciList.FindNext(space, offs, offset, id)
  {
    hide Guarded, NothingOverrun, Careful, Polite, AfterWrites, ConfigOk, PciList.WellFormed, PciList.Encodes;
    RunKeepsGuarded(cfg, space, qs);
    var s := AfterWrites(cfg, space, qs);
    ListSurvives(space, s, caps, ext);
    PciList.ListIsDistinct(space, caps);
    forall i | 0 <= i < |caps|
      ensures s[caps[i].off] == space[caps[i].off]
    {
      EncodingKept(space, s, caps, ext, i);
    }
    SameIds(space, s, PciList.Offsets(caps), id, PciList.After(PciList.Offsets(caps), offset));
  }

  lemma SameIds(space: seq<byte>, space': seq<byte>, offs: seq<nat>, id: nat, n: nat)
    requires n <= |offs| && |space| == |space'|
    requires forall i :: 0 <= i < |offs| ==> offs[i] < |space| && space'[offs[i]] == space[offs[i]]
    ensures PciList.FindIndex(space', offs, id, n) == PciList.FindIndex(space, offs, id, n)
  {
    var k, k' := PciList.FindIndex(space, offs, id, n), PciList.FindIndex(space', offs, id, n);
    assert k < |offs| ==> space'[offs[k]] == id;
    assert k' < |offs| ==> space[offs[k']] == id;
  }

  // ---------------------------------------------------------------------- reads

  /** n bytes of configuration space. */
  function Slice(space: seq<byte>, off: nat, n: nat): (r: seq<byte>)
    requires off + n <= |space|
    ensures |r| == n
  {
    space[off..off + n]
  }

  function DeviceRead(cb: Callbacks, space: seq<byte>, off: nat, n: nat): Option<seq<byte>>
    requires off + n <= |space|
  {
    if cb.NoCallbacks? then Some(Slice(space, off, n)) else cb.read(space, off, n)
  }

  /** A read handler that returns some of the bytes it was asked for, or fails; with none it is called forever. */
  ghost predicate PoliteReader(cb: Callbacks) {
    cb.Callbacks? ==> forall space, off, n ::
      n > 0 && cb.read(space, off, n).Some? ==> 0 < |cb.read(space, off, n).value| <= n
  }

  /** A read handler that copies configuration space. */
  ghost predicate Copies(cb: Callbacks) {
    cb.Callbacks? ==> forall space, off: nat, n: nat :: off + n <= |space| ==>
      cb.read(space, off, n) == Some(Slice(space, off, n))
  }

  function SegmentRead(cfg: Config, space: seq<byte>, s: Segment): Option<seq<byte>>
    requires s.off + s.len <= |space|
    requires s.handler.Capability? ==> s.handler.i < |cfg.all|
  {
    match s.handler
    case Header => Some(Slice(space, s.off, s.len))
    case Capability(i) =>
      if cfg.all[i].callback then DeviceRead(cfg.cb, space, s.off, s.len)
      else Some(Slice(space, s.off, s.len))
    case Device => DeviceRead(cfg.cb, space, s.off, s.len)
  }

  /** pci_config_space_access() for a read; None if a handler fails. */
  function ConfigRead(cfg: Config, space: seq<byte>, off: nat, count: nat): (r: Option<seq<byte>>)
    requires off + count <= |space| && PoliteReader(cfg.cb)
    decreases count
  {
    if count == 0 then Some([])
    else
      var s := NextSegment(cfg.all, off, count);
      var bytes := SegmentRead(cfg, space, s);
      if bytes.None? then None
      else
        var rest := ConfigRead(cfg, space, off + |bytes.value|, count - |bytes.value|);
        if rest.None? then None else Some(bytes.value + rest.value)
  }

  lemma NothingRead(cfg: Config, space: seq<byte>, off: nat, count: nat)
    requires off + count <= |space| && PoliteReader(cfg.cb)
    ensures var rest := ConfigRead(cfg, space, off, count);
            rest == if rest.None? then None else Some([] + rest.value)
  {
    var rest := ConfigRead(cfg, space, off, count);
    if rest.Some? {
      assert [] + rest.value == rest.value;
    }
  }

  /** One turn of the read loop, with what has been read so far in front. */
  lemma ReadStep(cfg: Config, space: seq<byte>, off: nat, count: nat, got: seq<byte>)
    requires off + count <= |space| && PoliteReader(cfg.cb) && count > 0
    ensures var s := NextSegment(cfg.all, off, count);
            var bytes := SegmentRead(cfg, space, s);
            var rest := ConfigRead(cfg, space, off, count);
            && (bytes.None? ==> rest.None?)
            && (bytes.Some? ==>
                  && 0 < |bytes.value| <= s.len
                  && var more := ConfigRead(cfg, space, off + |bytes.value|, count - |bytes.value|);
                     (if rest.None? then None else Some(got + rest.value)) ==
                     (if more.None? then None else Some((got + bytes.value) + more.value)))
  {
    hide SegmentRead, NextSegment;
    var s := NextSegment(cfg.all, off, count);
    SegmentInTable(cfg.all, off, count);
    if SegmentRead(cfg, space, s).Some? {
      ReadCons(cfg, space, off, count);
      var bytes := SegmentRead(cfg, space, s);
      var more := ConfigRead(cfg, space, off + |bytes.value|, count - |bytes.value|);
      if more.Some? {
        assert got + (bytes.value + more.value) == (got + bytes.value) + more.value;
      }
    }
  }

  lemma SlicesJoin(s: seq<byte>, at: nat, m: nat, n: nat)
    requires at + m + n <= |s|
    ensures Slice(s, at, m) + Slice(s, at + m, n) == Slice(s, at, m + n)
    ensures Slice(s, at, 0) == []
  {
  }

  lemma ReadZeroBytes(cfg: Config, space: seq<byte>, off: nat)
    requires off <= |space| && PoliteReader(cfg.cb)
    ensures ConfigRead(cfg, space, off, 0) == Some(Slice(space, off, 0))
  {
  }

  lemma ReadCons(cfg: Config, space: seq<byte>, off: nat, count: nat)
    requires off + count <= |space| && PoliteReader(cfg.cb) && count > 0
    requires SegmentRead(cfg, space, NextSegment(cfg.all, off, count)).Some?
    ensures var s := NextSegment(cfg.all, off, count);
            var bytes := SegmentRead(cfg, space, s);
            && 0 < |bytes.value| <= s.len
            && var more := ConfigRead(cfg, space, off + |bytes.value|, count - |bytes.value|);
               ConfigRead(cfg, space, off, count) == if more.None? then None else Some(bytes.value + more.value)
  {
    hide NextSegment;
    SegmentInTable(cfg.all, off, count);
  }

  lemma SegmentReadCopies(cfg: Config, space: seq<byte>, s: Segment)
    requires s.off + s.len <= |space| && Copies(cfg.cb)
    requires s.handler.Capability? ==> s.handler.i < |cfg.all|
    ensures SegmentRead(cfg, space, s) == Some(Slice(space, s.off, s.len))
  {
  }

  /**
   However an access straddles header, capabilities and the rest, in whatever order they stand
   in the table: the bytes returned are exactly those of configuration space.
   */
  lemma {:induction false} ReadEqualsMemory(cfg: Config, space: seq<byte>, off: nat, count: nat)
    requires off + count <= |space| && PoliteReader(cfg.cb) && Copies(cfg.cb)
    ensures ConfigRead(cfg, space, off, count) == Some(Slice(space, off, count))
    decreases count
  {
    hide *;
    if count == 0 {
      ReadZeroBytes(cfg, space, off);
    } else {
      var s := NextSegment(cfg.all, off, count);
      SegmentInTable(cfg.all, off, count);
      SegmentReadCopies(cfg, space, s);
      ReadEqualsMemory(cfg, space, off + s.len, count - s.len);
      ReadCons(cfg, space, off, count);
      SlicesJoin(space, off, s.len, count - s.len);
    }
  }
}
