/**
 Configuration space as the library holds it (lib/pci_caps.c, lib/pci.c): an array of bytes
 that is changed in place, and the capability tables. The list is followed through the bytes.
 */
module PciDevice {
  import opened Common
  import opened PciCaps
  import opened PciRouting
  import opened PciAccess
  import opened PciList

  class ConfigSpace {
    const space: array<byte>
    const bars: seq<Bar>
    const cb: Callbacks
    var caps: seq<Cap>
    var ext: seq<Cap>

    /** vfu_pci_init() with a configuration space of the given size. */
    constructor (size: nat, bars: seq<Bar>, cb: Callbacks)
      requires size >= CFG_SPACE
      ensures Blank(space[..]) && WellFormed(space[..], caps) && |space[..]| == size
      ensures fresh(space) && caps == [] && ext == [] && this.bars == bars && this.cb == cb
    {
      space := new byte[size](_ => 0);
      caps, ext := [], [];
      this.bars, this.cb := bars, cb;
      new;
      BlankIsWellFormed(space[..]);
    }

    // -------------------------------------------------------- the list

    /**
     Follows the links to the end of the list: where the last one is stored, and the capability it
     belongs to (0 for the header). Not ok if a link leads out of the space.
     */
    method LastLink() returns (ok: bool, prev: nat, last: nat)
      requires CFG_SPACE <= space.Length && !WalkOf(space[..]).Hangs?
      ensures ok == WalkOf(space[..]).Ends?
      ensures ok ==> var offs := WalkOf(space[..]).offs;
                     && prev == Link(offs, |offs|) < space.Length
                     && last == if offs == [] then 0 else offs[|offs| - 1]
    {
      ghost var s, seen, done := space[..], {}, [];
      ok, prev, last := true, CAP_PTR, 0;
      while space[prev] != 0
        invariant ok && prev == Link(done, |done|) < space.Length
        invariant last == if done == [] then 0 else done[|done| - 1]
        invariant Continues(WalkOf(s), done, WalkFrom(s, prev, seen))
        decreases BYTES - seen
      {
        last := space[prev];
        if last + 1 >= space.Length {
          return false, prev, last;
        }
        ContinueWalk(s, prev, seen, done);
        prev := last + 1;
        seen := seen + {last};
        done := done + [last];
      }
      assert done + [] == done;
    }

    /** Where a capability without a position goes: behind the one that the list ends with. */
    method NextFree(last: nat) returns (off: Option<nat>)
      requires CFG_SPACE <= space.Length && WalkOf(space[..]).Ends?
      requires var offs := WalkOf(space[..]).offs; last == if offs == [] then 0 else offs[|offs| - 1]
      requires forall k :: 0 <= k < |WalkOf(space[..]).offs| ==> 0 < WalkOf(space[..]).offs[k] < space.Length - 1
      ensures off == AutoAt(space[..], WalkOf(space[..]).offs)
    {
      hide WalkOf, RoundUp;
      if last == 0 {
        return Some(HEADER);
      }
      if space[last] == ID_VNDR && last + 2 >= space.Length {
        return None;
      }
      var third: byte := if last + 2 < space.Length then space[last + 2] else 0;
      var size := SizeOf(space[last], third);
      off := if size.None? then None else Some(RoundUp(last + size.value, 4));
    }

    /** Copies bytes over the space, starting at an offset. */
    method WriteBytes(at: nat, bytes: seq<byte>)
      requires at + |bytes| <= space.Length
      modifies space
      ensures space[..] == Copy(old(space[..]), at, bytes)
    {
      var i := 0;
      while i < |bytes|
        invariant i <= |bytes|
        invariant forall k :: 0 <= k < space.Length ==>
          space[k] == if at <= k < at + i then bytes[k - at] else old(space[k])
      {
        space[at + i] := bytes[i];
        i := i + 1;
      }
      assert space[..] == Copy(old(space[..]), at, bytes);
    }

    /** cap_find_by_offset() */
    method FindCap(off: nat, count: nat) returns (i: nat)
      ensures i == FindByOffset(caps + ext, off, count)
    {
      hide Near;
      i := 0;
      while i < |caps|
        invariant i <= |caps|
        invariant forall j :: 0 <= j < i ==> !Near((caps + ext)[j], off, count)
      {
        assert (caps + ext)[i] == caps[i];
        if Near(caps[i], off, count) {
          return i;
        }
        i := i + 1;
      }
      var j := 0;
      while j < |ext|
        invariant j <= |ext|
        invariant forall k :: 0 <= k < |caps| + j ==> !Near((caps + ext)[k], off, count)
      {
        assert (caps + ext)[|caps| + j] == ext[j];
        if Near(ext[j], off, count) {
          return |caps| + j;
        }
        j := j + 1;
      }
      i := |caps| + |ext|;
    }

    /** cap_place() once the position is known to be acceptable. */
    method PlaceCapability(w: Wanted) returns (r: Added)
      requires CFG_SPACE <= space.Length && Supplied(w) && StdSize(w.data).Some?
      requires !Place(space[..], caps, w).AddHangs?
      modifies this`caps, space
      ensures r == Place(old(space[..]), old(caps), w)
      ensures r.Added? ==> space[..] == r.space && caps == r.caps
      ensures !r.Added? ==> space[..] == old(space[..]) && caps == old(caps)
    {
      hide WalkFrom;
      WalkIsLinkedIfEnds(space[..]);
      var size := StdSize(w.data).value;
      var ok, prev, last := LastLink();
      if !ok {
        return AddAborted;
      }
      var off := Some(w.pos);
      if w.pos == 0 {
        off := NextFree(last);
        if off.None? {
          return AddAborted;
        }
      }
      if off.value + size > space.Length {
        return AddFailed(ENOSPC);
      }
      if off.value + 1 >= space.Length {
        return AddAborted;
      }
      WriteBytes(off.value, w.data[..size]);
      space[prev] := off.value % 256;
      space[off.value + 1] := 0;
      caps := caps + [NewCap(w, off.value)];
      assert space[..] == Write(old(space[..]), prev, off.value, w.data[..size]);
      r := Added(space[..], caps, off.value);
    }

    /** vfu_pci_add_capability() for a standard capability, on any bytes whose links do not run in a circle. */
    method AddCapability(w: Wanted) returns (r: Added)
      requires CFG_SPACE <= space.Length && Supplied(w)
      requires !Add(space[..], caps, ext, cb.Callbacks?, w).AddHangs?
      modifies this`caps, space
      ensures r == Add(old(space[..]), old(caps), ext, cb.Callbacks?, w)
      ensures r.Added? ==> space[..] == r.space && caps == r.caps
      ensures !r.Added? ==> space[..] == old(space[..]) && caps == old(caps)
    {
      hide Place, Near;
      if w.callback && cb.NoCallbacks? {
        return AddFailed(EINVAL);
      }
      if |caps| == VFU_MAX_CAPS {
        return AddFailed(ENOSPC);
      }
      var size := StdSize(w.data);
      if size.None? {
        return AddFailed(ENOTSUP);
      }
      if w.pos + size.value >= space.Length {
        return AddFailed(EINVAL);
      }
      if w.pos != 0 {
        if w.pos < HEADER {
          return AddFailed(EINVAL);
        }
        var i := FindCap(w.pos, size.value);
        if i < |caps| + |ext| {
          return AddFailed(EINVAL);
        }
      }
      r := PlaceCapability(w);
    }

    /**
     vfu_pci_find_next_capability() for a standard capability, on any bytes and from any offset, as
     long as the links do not run in a circle. Returns the offset, or 0 and an error.
     */
    method FindNextCapability(offset: nat, id: nat) returns (r: nat, errno: nat)
      requires CFG_SPACE <= space.Length && !FindOn(space[..], offset, id).FindHangs?
      ensures match FindOn(space[..], offset, id)
              case At(off) => r == off > 0 && errno == 0
              case NotFound(e) => r == 0 && errno == e
              case FindHangs => false
    {
      if offset + 1 >= space.Length {
        return 0, EINVAL;
      }
      r := if offset == 0 then space[CAP_PTR] else space[offset + 1];
      errno := 0;
      ghost var s, seen := space[..], {r};
      while r != 0
        invariant r != 0 ==> FindOn(s, offset, id) == FindFrom(s, r, id, seen)
        invariant r == 0 ==> FindOn(s, offset, id) == NotFound(ENOENT)
        decreases r != 0, BYTES - seen
      {
        if r + 1 >= space.Length {
          return 0, EINVAL;
        }
        if space[r] == id {
          return;
        }
        r := space[r + 1];
        seen := seen + {r};
      }
      errno := ENOENT;
    }

    // ------------------------------------------------------------ access

    ghost function Cfg(): Config
      reads this`caps, this`ext
    {
      Config(caps + ext, bars, cb)
    }

    /** pci_config_space_access() for a read; None if the device's handler fails. */
    method AccessRead(off: nat, count: nat) returns (buf: Option<seq<byte>>)
      requires off + count <= space.Length && PoliteReader(cb)
      ensures buf == ConfigRead(Cfg(), space[..], off, count)
    {
      hide NextSegment, PoliteReader, SegmentRead;
      var at, left, got := off, count, [];
      ghost var s := space[..];
      NothingRead(Cfg(), s, off, count);
      while left > 0
        invariant 0 <= left && 0 <= at && at + left == off + count
        invariant ConfigRead(Cfg(), s, off, count) ==
                  var rest := ConfigRead(Cfg(), s, at, left);
                  if rest.None? then None else Some(got + rest.value)
      {
        var seg := NextSegment(caps + ext, at, left);
        SegmentInTable(caps + ext, at, left);
        ReadStep(Cfg(), s, at, left, got);
        var bytes := ReadSegment(seg, left);
        if bytes.None? {
          return None;
        }
        at, left, got := at + |bytes.value|, left - |bytes.value|, got + bytes.value;
      }
      assert got + [] == got;
      buf := Some(got);
    }

    /** Reads one segment; the capability is looked up again, as pci_cap_access() does. */
    method ReadSegment(s: Segment, count: nat) returns (bytes: Option<seq<byte>>)
      requires count > 0 && s == NextSegment(caps + ext, s.off, count) && s.off + s.len <= space.Length
      requires PoliteReader(cb)
      ensures s.handler.Capability? ==> s.handler.i < |caps + ext|
      ensures bytes == SegmentRead(Cfg(), space[..], s)
    {
      SegmentInTable(caps + ext, s.off, count);
      if s.handler.Capability? {
        var i := FindCap(s.off, s.len);
        SecondLookupAgrees(caps + ext, s.off, count);
        var c := (caps + ext)[i];
        assert s.off >= c.off && s.len <= c.size;
        if !c.callback {
          return Some(space[s.off..s.off + s.len]);
        }
      }
      if s.handler.Header? || cb.NoCallbacks? {
        bytes := Some(space[s.off..s.off + s.len]);
      } else {
        bytes := cb.read(space[..], s.off, s.len);
      }
    }

    /** Stores a 16-bit register. */
    method Store16(at: nat, v: nat)
      requires at + 2 <= space.Length && v < 0x10000
      modifies space
      ensures space[..] == Put16(old(space[..]), at, v)
    {
      WriteBytes(at, [v % 256, v / 256]);
    }

    /** Stores a 32-bit register. */
    method Store32(at: nat, v: nat)
      requires at + 4 <= space.Length && v < U32
      modifies space
      ensures space[..] == Put32(old(space[..]), at, v)
    {
      Store16(at, v % 0x10000);
      Store16(at + 2, v / 0x10000);
    }

    /** handle_command_write() */
    method WriteCommand(buf: seq<byte>, n: nat) returns (r: Reply)
      requires space.Length >= HEADER && |buf| >= n
      modifies space
      ensures EffectOf(space[..], r) == CommandWrite(old(space[..]), buf, n)
    {
      hide Put16, Merge16, Get16;
      if n != 2 {
        return Error(EINVAL);
      }
      var v := Get16(buf, 0);
      var reg := Get16(space[..], COMMAND);
      Store16(COMMAND, Merge16(reg, v, COMMAND_BITS));
      if Bits(v) & !(COMMAND_BITS | COMMAND_IGNORED) != 0 {
        return Error(EINVAL);
      }
      return Count(n);
    }

    /** pci_hdr_write_bar() */
    method WriteBar(bar: Bar, off: nat, buf: seq<byte>)
      requires space.Length >= HEADER && off + 4 <= HEADER && |buf| >= 4
      modifies space
      ensures space[..] == BarWrite(old(space[..]), bar, off, buf)
    {
      hide Put32, Get32, OrLow;
      if bar.size != 0 {
        var addr := Get32(buf, 0);
        if addr == 0xffff_ffff {
          addr := (U32 - bar.size % U32) % U32;
        }
        var kept := Get32(space[..], off) % TypeSpan(bar);
        Store32(off, OrLow(addr, kept, TypeSpan(bar)));
      }
    }

    /** handle_erom_write() */
    method WriteRom(buf: seq<byte>, n: nat) returns (r: Reply)
      requires space.Length >= HEADER && |buf| >= n
      modifies space
      ensures EffectOf(space[..], r) == RomWrite(old(space[..]), buf, n)
    {
      hide Put32, Get32;
      if n != 4 {
        return Error(EINVAL);
      }
      var v := Get32(buf, 0);
      if v == 0xffff_f800 || v == 0xffff_fffe {
        return Count(n);
      }
      if v == 0 {
        Store32(ROM_ADDRESS, 0);
        return Count(n);
      }
      return Error(EINVAL);
    }

    /** pci_hdr_write() and pci_hdr_access() */
    method WriteHeader(off: nat, buf: seq<byte>, n: nat) returns (r: Reply)
      requires space.Length >= HEADER && |bars| == 6 && off < HEADER && |buf| >= n + 3 && n > 0
      modifies space
      ensures EffectOf(space[..], r) == HeaderWrite(old(space[..]), bars, off, buf, n)
    {
      hide CommandWrite, BarWrite, RomWrite;
      if off == COMMAND {
        r := WriteCommand(buf, n);
      } else if off == STATUS {
        r := Count(n);
      } else if off == INTERRUPT_LINE || off == LATENCY_TIMER {
        space[off] := buf[0];
        r := Count(n);
      } else if BASE_ADDRESS_0 <= off <= BASE_ADDRESS_5 && off % 4 == 0 {
        WriteBar(bars[(off - BASE_ADDRESS_0) / 4], off, buf);
        r := Count(n);
      } else if off == ROM_ADDRESS {
        r := WriteRom(buf, n);
      } else {
        r := Error(EINVAL);
      }
    }

    /** pci_nonstd_access(): the device's own handler, which may change any byte. */
    method WriteDevice(off: nat, data: seq<byte>) returns (r: Reply)
      requires Polite(cb)
      modifies space
      ensures EffectOf(space[..], r) == DeviceWrite(cb, old(space[..]), off, data)
    {
      if cb.NoCallbacks? {
        return Error(EINVAL);
      }
      var e := cb.write(space[..], off, data);
      WriteBytes(0, e.space);
      assert space[..] == e.space;
      match e
      case Wrote(_, n) => r := Count(n);
      case Failed(_, errno) => r := Error(errno);
      case Aborted(_) => r := Abort;
    }

    /** The write handlers of the capabilities. */
    method HandleCapability(c: Cap, off: nat, buf: seq<byte>, n: nat) returns (r: Reply)
      requires CapOk(c, space.Length) && c.off <= off && off + n <= space.Length && |buf| >= n
      modifies space
      ensures EffectOf(space[..], r) == CapHandler(old(space[..]), c, off, buf, n)
    {
      hide Merge16, Get16, Put16, Copy;
      var rel := off - c.off;
      if c.extended {
        if c.id != EXT_ID_VNDR {
          return Error(EPERM);
        }
        WriteBytes(off, buf[..n]);
      } else if c.id == ID_PM {
        if rel == PM_PC && n == 2 {
          return Abort;
        }
        if rel != PM_PMCS || n != 2 {
          return Error(EINVAL);
        }
        WriteBytes(off, buf[..2]);
      } else if c.id == ID_MSIX {
        if rel != MSIX_MXC || n != 2 {
          return Error(EINVAL);
        }
        Store16(off, Merge16(Get16(space[..], off), Get16(buf, 0), 0xc000));
      } else if c.id == ID_EXP {
        if rel != PX_PXDC || n != 2 {
          return Error(EINVAL);
        }
        Store16(off, Merge16(Get16(space[..], off), Get16(buf, 0), 0x7fff));
      } else {
        WriteBytes(off, buf[..n]);
      }
      r := Count(n);
    }

    /** Writes one segment; the capability is looked up again, as pci_cap_access() does. */
    method WriteSegment(s: Segment, count: nat, buf: seq<byte>) returns (r: Reply)
      requires ConfigOk(Cfg(), space.Length) && Polite(cb)
      requires count > 0 && s == NextSegment(caps + ext, s.off, count)
      requires s.off + s.len <= space.Length && |buf| >= s.len + 3
      modifies space
      ensures s.handler.Header? ==> s.off < HEADER
      ensures s.handler.Capability? ==> s.handler.i < |caps + ext| && (caps + ext)[s.handler.i].off <= s.off
      ensures EffectOf(space[..], r) == SegmentWrite(Cfg(), old(space[..]), s, buf)
    {
      hide NextSegment, HeaderWrite, CapHandler, DeviceWrite, Polite, TableOk;
      SegmentInTable(caps + ext, s.off, count);
      match s.handler
      case Header =>
        r := WriteHeader(s.off, buf, s.len);
      case Device =>
        r := WriteDevice(s.off, buf[..s.len]);
      case Capability(_) =>
        var i := FindCap(s.off, s.len);
        SecondLookupAgrees(caps + ext, s.off, count);
        var c := (caps + ext)[i];
        assert c == Cfg().all[i] && CapOk(c, space.Length);
        assert s.off >= c.off && s.len <= c.size;
        if c.readonly {
          r := Error(EPERM);
        } else if c.callback {
          r := WriteDevice(s.off, buf[..s.len]);
        } else if s.off - c.off < c.hdrSize {
          r := Error(EPERM);
        } else {
          r := HandleCapability(c, s.off, buf, s.len);
        }
    }

    /** pci_config_space_access() for a write of count bytes. */
    method AccessWrite(off: nat, buf: seq<byte>, count: nat) returns (r: Reply)
      requires ConfigOk(Cfg(), space.Length) && Polite(cb)
      requires off + count <= space.Length && |buf| >= count + 3
      modifies space
      ensures EffectOf(space[..], r) == ConfigWrite(Cfg(), old(space[..]), off, buf, count)
    {
      hide NextSegment, SegmentWrite, ConfigWrite, ConfigOk, Polite;
      var at, left, done := off, count, 0;
      ghost var all := ConfigWrite(Cfg(), space[..], off, buf, count);
      assert buf[0..] == buf;
      WroteMore(all);
      while left > 0
        invariant 0 <= left && 0 <= at && 0 <= done && at + left == off + count && done + left == count
        invariant all == AddCount(done, ConfigWrite(Cfg(), space[..], at, buf[done..], left))
      {
        var seg := NextSegment(caps + ext, at, left);
        WriteStep(Cfg(), space[..], at, buf, done, left);
        r := WriteSegment(seg, left, buf[done..]);
        if !r.Count? {
          return;
        }
        at, left, done := at + r.n, left - r.n, done + r.n;
      }
      WriteNothing(Cfg(), space[..], at, buf[done..]);
      r := Count(done);
    }
  }

  /** A walk whose first part went over done, and whose rest is still to come. */
  ghost predicate Continues(whole: Walk, done: seq<nat>, rest: Walk) {
    whole == if rest.Ends? then Ends(done + rest.offs) else rest
  }

  lemma ContinueWalk(space: seq<byte>, link: nat, seen: set<nat>, done: seq<nat>)
    requires link < |space| && 0 < space[link] < |space| - 1
    requires CFG_SPACE <= |space| && Continues(WalkOf(space), done, WalkFrom(space, link, seen))
    requires !WalkOf(space).Hangs?
    ensures var next: nat := space[link];
            next !in seen && Continues(WalkOf(space), done + [next], WalkFrom(space, next + 1, seen + {next}))
  {
    var next: nat := space[link];
    var rest := WalkFrom(space, next + 1, seen + {next});
    if rest.Ends? {
      assert done + ([next] + rest.offs) == done + [next] + rest.offs;
    }
  }

  lemma WalkIsLinkedIfEnds(space: seq<byte>)
    requires CFG_SPACE <= |space|
    ensures WalkOf(space).Ends? ==>
              forall k :: 0 <= k < |WalkOf(space).offs| ==> 0 < WalkOf(space).offs[k] < |space| - 1
  {
    if WalkOf(space).Ends? {
      WalkIsLinked(space, CAP_PTR, {});
    }
  }
}
