/**
 The standard capability list, which is linked through the bytes of configuration space
 (section 6.7 of PCI Local Bus Specification 3.0): adding a capability and finding one
 (lib/pci_caps.c).
 */
module PciList {
  import opened Common
  import opened PciCaps

  function Offsets(caps: seq<Cap>): (offs: seq<nat>)
    ensures |offs| == |caps| && forall i :: 0 <= i < |caps| ==> offs[i] == caps[i].off
  {
    seq(|caps|, i requires 0 <= i < |caps| => caps[i].off)
  }

  /** Where the i-th link of the list is stored: the header for the first, otherwise the capability before. */
  function Link(offs: seq<nat>, i: nat): nat
    requires i <= |offs|
  {
    if i == 0 then CAP_PTR else offs[i - 1] + 1
  }

  /** The value of the i-th link; the last one is zero. */
  function Target(offs: seq<nat>, i: nat): nat {
    if i < |offs| then offs[i] else 0
  }

  /** Following links from the header visits exactly these offsets, in this order, and ends. */
  predicate Linked(space: seq<byte>, offs: seq<nat>) {
    forall i :: 0 <= i <= |offs| ==> Link(offs, i) < |space| && space[Link(offs, i)] == Target(offs, i)
  }

  /** A capability lies behind the header, below offset 256, inside the space, and holds its own header. */
  predicate Placed(c: Cap, spaceSize: nat) {
    HEADER <= c.off < CFG_SPACE && 2 <= c.hdrSize <= c.size && c.End() <= spaceSize
  }

  /** The bytes at a capability's offset encode its recorded id and size. */
  predicate Encodes(space: seq<byte>, c: Cap) {
    && Placed(c, |space|) && c.off + 2 < |space|
    && space[c.off] == c.id
    && c.hdrSize == StdHdrSize(c.id)
    && Some(c.size) == SizeOf(c.id, space[c.off + 2])
  }

  predicate WellFormed(space: seq<byte>, caps: seq<Cap>) {
    && CFG_SPACE <= |space|
    && (forall i :: 0 <= i < |caps| ==> Encodes(space, caps[i]))
    && (forall i, j :: 0 <= i < j < |caps| ==> Disjoint(caps[i], caps[j]))
    && Linked(space, Offsets(caps))
  }

  // --------------------------------------------------------- following links

  ghost const BYTES := set b: nat | b < 256

  /** Following links: the offsets they lead to, or a link that was followed before, or one out of the space. */
  datatype Walk = Ends(offs: seq<nat>) | Hangs | Crashes

  /** The walk from the link stored at a position, when the links in seen have been followed. */
  ghost function WalkFrom(space: seq<byte>, link: nat, seen: set<nat>): Walk
    requires link < |space|
    decreases BYTES - seen
  {
    var next: nat := space[link];
    if next == 0 then Ends([])
    else if next in seen then Hangs
    else if next + 1 >= |space| then Crashes
    else
      match WalkFrom(space, next + 1, seen + {next})
      case Ends(offs) => Ends([next] + offs)
      case w => w
  }

  ghost function WalkOf(space: seq<byte>): Walk
    requires CFG_SPACE <= |space|
  {
    WalkFrom(space, CAP_PTR, {})
  }

  /** The walk over linked, distinct offsets is over exactly these. */
  lemma {:induction false} WalkIsList(space: seq<byte>, offs: seq<nat>, i: nat, seen: set<nat>)
    requires Linked(space, offs) && Distinct(offs) && i <= |offs|
    requires forall b :: b in seen ==> b in offs[..i]
    ensures WalkFrom(space, Link(offs, i), seen) == Ends(offs[i..])
    decreases |offs| - i
  {
    assert space[Link(offs, i)] == Target(offs, i);
    if i < |offs| {
      assert offs[i] !in offs[..i];
      assert offs[..i + 1] == offs[..i] + [offs[i]];
      assert Link(offs, i + 1) == offs[i] + 1;
      WalkIsList(space, offs, i + 1, seen + {offs[i]});
      assert offs[i..] == [offs[i]] + offs[i + 1..];
    }
  }

  /** Following the links of a well-formed list visits the table's capabilities in order, each once, and ends. */
  lemma WalkVisitsTable(space: seq<byte>, caps: seq<Cap>)
    requires WellFormed(space, caps)
    ensures WalkOf(space) == Ends(Offsets(caps))
  {
    hide Linked, WalkFrom;
    ListIsDistinct(space, caps);
    assert Offsets(caps)[0..] == Offsets(caps);
    WalkIsList(space, Offsets(caps), 0, {});
  }

  /** A walk that ends has gone over links below 256, all different, each stored where the one before leads. */
  lemma {:induction false} WalkIsLinked(space: seq<byte>, link: nat, seen: set<nat>)
    requires link < |space| && WalkFrom(space, link, seen).Ends?
    ensures var offs := WalkFrom(space, link, seen).offs;
            forall k :: 0 <= k < |offs| ==> 0 < offs[k] < CFG_SPACE && offs[k] + 1 < |space|
    decreases BYTES - seen
  {
    var next: nat := space[link];
    if next != 0 {
      WalkIsLinked(space, next + 1, seen + {next});
    }
  }

  // ---------------------------------------------------------------- adding

  /**
   AddAborted: an assertion or abort() stops the process, or bytes behind the space are read.
   AddHangs: the links run in a circle and the walk never ends.
   */
  datatype Added = Added(space: seq<byte>, caps: seq<Cap>, off: nat) | AddFailed(errno: nat) | AddAborted | AddHangs

  /** Where a capability goes when no position is asked for: behind the last one, dword aligned. */
  function AutoOffset(caps: seq<Cap>): nat {
    if caps == [] then HEADER else RoundUp(caps[|caps| - 1].End(), 4)
  }

  function Chosen(caps: seq<Cap>, pos: nat): nat {
    if pos != 0 then pos else AutoOffset(caps)
  }

  /** Where the link behind the last capability of a table is stored. */
  function LastLink(caps: seq<Cap>): nat {
    Link(Offsets(caps), |caps|)
  }

  /** Writes the capability, sets the link that leads to it (in eight bits) and ends the list after it. */
  function Write(space: seq<byte>, prev: nat, off: nat, bytes: seq<byte>): (s: seq<byte>)
    requires off + |bytes| <= |space| && off + 1 < |space| && prev < |space|
    ensures |s| == |space|
  {
    Copy(space, off, bytes)[prev := off % 256][off + 1 := 0]
  }

  /** What is asked for: a position (0 for automatic), flags, and the capability's bytes. */
  datatype Wanted = Wanted(pos: nat, readonly: bool, callback: bool, data: seq<byte>)

  /** The caller hands over at least as many bytes as the capability says it has. */
  predicate Supplied(w: Wanted) {
    && |w.data| >= 3
    && (StdSize(w.data).Some? ==> StdSize(w.data).value <= |w.data|)
  }

  function NewCap(w: Wanted, off: nat): Cap
    requires Supplied(w) && StdSize(w.data).Some?
  {
    Cap(w.data[0], off, StdHdrSize(w.data[0]), StdSize(w.data).value, false, w.readonly, w.callback)
  }

  /** Where a capability without a position goes, read off the bytes of the one the list ends with. */
  ghost function AutoAt(space: seq<byte>, offs: seq<nat>): Option<nat>
    requires CFG_SPACE <= |space| && forall k :: 0 <= k < |offs| ==> offs[k] + 1 < |space|
  {
    if offs == [] then Some(HEADER)
    else
      var at := offs[|offs| - 1];
      var third: byte := if at + 2 < |space| then space[at + 2] else 0;
      var size := SizeOf(space[at], third);
      if size.None? || (space[at] == ID_VNDR && at + 2 >= |space|) then None
      else Some(RoundUp(at + size.value, 4))
  }

  /** cap_place() once the position is known to be acceptable. */
  ghost function Place(space: seq<byte>, caps: seq<Cap>, w: Wanted): Added
    requires CFG_SPACE <= |space| && Supplied(w) && StdSize(w.data).Some?
  {
    match WalkOf(space)
    case Hangs => AddHangs
    case Crashes => AddAborted
    case Ends(offs) =>
      WalkIsLinked(space, CAP_PTR, {});
      var at := if w.pos != 0 then Some(w.pos) else AutoAt(space, offs);
      var size := StdSize(w.data).value;
      if at.None? then AddAborted
      else if at.value + size > |space| then AddFailed(ENOSPC)
      else if at.value + 1 >= |space| then AddAborted
      else Added(Write(space, Link(offs, |offs|), at.value, w.data[..size]), caps + [NewCap(w, at.value)], at.value)
  }

  /**
   vfu_pci_add_capability() for a standard capability, on any bytes; ext are the extended ones,
   hasCb tells whether the device handles configuration space accesses itself.
   */
  ghost function Add(space: seq<byte>, caps: seq<Cap>, ext: seq<Cap>, hasCb: bool, w: Wanted): (r: Added)
    requires CFG_SPACE <= |space| && Supplied(w)
    ensures r.Added? ==> |r.space| == |space|
  {
    if w.callback && !hasCb then AddFailed(EINVAL)
    else if |caps| == VFU_MAX_CAPS then AddFailed(ENOSPC)
    else if StdSize(w.data).None? then AddFailed(ENOTSUP)
    else
      var size := StdSize(w.data).value;
      if w.pos + size >= |space| then AddFailed(EINVAL)
      else if w.pos != 0 && w.pos < HEADER then AddFailed(EINVAL)
      else if w.pos != 0 && FindByOffset(caps + ext, w.pos, size) < |caps + ext| then AddFailed(EINVAL)
      else Place(space, caps, w)
  }

  lemma LinkInside(space: seq<byte>, caps: seq<Cap>)
    requires WellFormed(space, caps)
    ensures LastLink(caps) < |space|
  {
    if caps != [] {
      assert Placed(caps[|caps| - 1], |space|);
    }
  }

  lemma AutoAtList(space: seq<byte>, caps: seq<Cap>)
    requires WellFormed(space, caps)
    ensures forall k :: 0 <= k < |caps| ==> Offsets(caps)[k] + 1 < |space|
    ensures AutoAt(space, Offsets(caps)) == Some(AutoOffset(caps))
  {
    hide Linked, RoundUp;
    forall k | 0 <= k < |caps|
      ensures Offsets(caps)[k] + 1 < |space|
    {
      assert Encodes(space, caps[k]);
    }
    if caps != [] {
      assert Encodes(space, caps[|caps| - 1]);
    }
  }

  /** On a well-formed list the bytes say what the table says: where the last link is, and what is behind it. */
  lemma PlaceOnList(space: seq<byte>, caps: seq<Cap>, w: Wanted)
    requires WellFormed(space, caps) && Supplied(w) && StdSize(w.data).Some?
    ensures var off, size := Chosen(caps, w.pos), StdSize(w.data).value;
            && LastLink(caps) < |space|
            && Place(space, caps, w) ==
               if off + size > |space| then AddFailed(ENOSPC)
               else if off + 1 >= |space| then AddAborted
               else Added(Write(space, LastLink(caps), off, w.data[..size]), caps + [NewCap(w, off)], off)
  {
    hide WellFormed, Write, WalkOf, AutoAt, AutoOffset, SizeOf;
    LinkInside(space, caps);
    WalkVisitsTable(space, caps);
    AutoAtList(space, caps);
  }

  /** The links of a well-formed list: the pointer in the header, and the second byte of each capability. */
  lemma LinkBytes(space: seq<byte>, caps: seq<Cap>)
    requires WellFormed(space, caps)
    ensures space[0x34] == if caps == [] then 0 else caps[0].off
    ensures forall i :: 0 <= i < |caps| ==>
              && caps[i].off + 1 < |space|
              && space[caps[i].off + 1] == if i + 1 < |caps| then caps[i + 1].off else 0
  {
    hide Encodes;
    var offs := Offsets(caps);
    assert space[Link(offs, 0)] == Target(offs, 0);
    forall i | 0 <= i < |caps|
      ensures caps[i].off + 1 < |space| && space[caps[i].off + 1] == if i + 1 < |caps| then caps[i + 1].off else 0
    {
      assert space[Link(offs, i + 1)] == Target(offs, i + 1);
    }
  }

  /** Without a position a capability goes to the first multiple of 4 behind the last one, or behind the header. */
  lemma AutoIsNext(caps: seq<Cap>)
    ensures var a := AutoOffset(caps);
            if caps == [] then a == 0x40
            else a % 4 == 0 && caps[|caps| - 1].End() <= a < caps[|caps| - 1].End() + 4
  {
  }

  /** How long a capability with this id is: a vendor-specific one says so in its third byte. */
  predicate HasSize(id: nat, third: byte, size: nat) {
    (id == 1 && size == 8) || (id == 0x10 && size == 60) || (id == 0x11 && size == 12) || (id == 9 && size == third)
  }

  lemma SizesMatch(data: seq<byte>)
    requires |data| >= 3
    ensures StdSize(data).None? <==> data[0] !in {1, 9, 0x10, 0x11}
    ensures StdSize(data).Some? ==> HasSize(data[0], data[2], StdSize(data).value)
  {
  }

  /** What is recorded of a capability that was added: what was asked for, at the position asked for or the next one. */
  lemma AddedRecords(space: seq<byte>, caps: seq<Cap>, ext: seq<Cap>, hasCb: bool, w: Wanted)
    requires WellFormed(space, caps) && Supplied(w) && Add(space, caps, ext, hasCb, w).Added?
    ensures var r := Add(space, caps, ext, hasCb, w);
            && |r.caps| == |caps| + 1 && r.caps[..|caps|] == caps
            && var c := r.caps[|caps|];
               && c.id == w.data[0] && HasSize(c.id, w.data[2], c.size) && c.hdrSize == (if c.id == 9 then 3 else 2)
               && !c.extended && c.readonly == w.readonly && c.callback == w.callback
               && c.off == r.off == if w.pos != 0 then w.pos else AutoOffset(caps)
  {
    hide WellFormed, Write, FindByOffset, AutoOffset, WalkOf, AutoAt;
    SizesMatch(w.data);
    PlaceOnList(space, caps, w);
  }

  /** A capability of the table overlaps these bytes or touches them from behind. */
  predicate Touches(all: seq<Cap>, off: nat, size: nat) {
    exists i :: 0 <= i < |all| && off < all[i].End() && all[i].off <= off + size
  }

  /** The position that was asked for is acceptable, or the next one leaves enough room. */
  predicate Fitting(space: seq<byte>, caps: seq<Cap>, ext: seq<Cap>, pos: nat, size: nat) {
    if pos == 0 then AutoOffset(caps) + Max(size, 2) <= |space|
    else 0x40 <= pos && pos + 1 < |space| && !Touches(caps + ext, pos, size)
  }

  /**
   Exactly when a capability is added to a well-formed list: the callback flag needs a handler, there
   is room for another one in the table, the id is known, and the bytes fit.
   */
  lemma AddSucceedsIff(space: seq<byte>, caps: seq<Cap>, ext: seq<Cap>, hasCb: bool, w: Wanted, size: nat)
    requires WellFormed(space, caps) && Supplied(w)
    requires w.data[0] in {1, 9, 0x10, 0x11} ==> HasSize(w.data[0], w.data[2], size)
    ensures Add(space, caps, ext, hasCb, w).Added? <==>
            && (w.callback ==> hasCb) && |caps| != 1024 && w.data[0] in {1, 9, 0x10, 0x11}
            && w.pos + size < |space| && Fitting(space, caps, ext, w.pos, size)
  {
    hide WellFormed, Write, FindByOffset, AutoOffset, Place;
    SizesMatch(w.data);
    if StdSize(w.data).Some? {
      PlaceOnList(space, caps, w);
      TouchesIff(caps + ext, w.pos, size);
    }
  }

  lemma TouchesIff(all: seq<Cap>, off: nat, size: nat)
    ensures Touches(all, off, size) <==> FindByOffset(all, off, size) < |all|
  {
    var i := FindByOffset(all, off, size);
    assert i < |all| ==> Near(all[i], off, size);
    if j :| 0 <= j < |all| && off < all[j].End() && all[j].off <= off + size {
      assert Near(all[j], off, size);
    }
  }

  /** The errors: no handler for the callback flag, a full table, an unknown id, a bad position, no room. */
  lemma AddRefuses(space: seq<byte>, caps: seq<Cap>, ext: seq<Cap>, hasCb: bool, w: Wanted, size: nat)
    requires WellFormed(space, caps) && Supplied(w)
    requires w.data[0] in {1, 9, 0x10, 0x11} ==> HasSize(w.data[0], w.data[2], size)
    ensures var r := Add(space, caps, ext, hasCb, w);
            && (w.callback && !hasCb ==> r == AddFailed(22))
            && ((w.callback ==> hasCb) ==>
                  && (|caps| == 1024 ==> r == AddFailed(28))
                  && (|caps| != 1024 && w.data[0] !in {1, 9, 0x10, 0x11} ==> r == AddFailed(95))
                  && (|caps| != 1024 && w.data[0] in {1, 9, 0x10, 0x11} ==>
                        && (w.pos + size >= |space| ==> r == AddFailed(22))
                        && (0 < w.pos < 0x40 ==> r == AddFailed(22))
                        && (w.pos > 0 && Touches(caps + ext, w.pos, size) ==> r == AddFailed(22))
                        && (w.pos == 0 && size < |space| < AutoOffset(caps) + size ==> r == AddFailed(28))))
  {
    hide WellFormed, Write, FindByOffset, AutoOffset, Place, Touches;
    SizesMatch(w.data);
    if StdSize(w.data).Some? {
      PlaceOnList(space, caps, w);
      TouchesIff(caps + ext, w.pos, size);
    }
  }

  /** The bytes of the new capability are free, below offset 256, and hold at least its header. */
  predicate Free(caps: seq<Cap>, c: Cap) {
    && HEADER <= c.off < CFG_SPACE && c.hdrSize <= c.size
    && forall i :: 0 <= i < |caps| ==> Disjoint(caps[i], c)
  }

  /** The bytes are those of the capability. */
  predicate Describes(bytes: seq<byte>, c: Cap) {
    && |bytes| == c.size >= 3 && bytes[0] == c.id && c.hdrSize == StdHdrSize(c.id)
    && Some(c.size) == SizeOf(c.id, bytes[2])
  }

  lemma OldBytesKept(space: seq<byte>, caps: seq<Cap>, off: nat, bytes: seq<byte>, k: nat)
    requires off + |bytes| <= |space| && |bytes| >= 2
    requires Link(Offsets(caps), |caps|) < |space|
    requires k < |space| && !(off <= k < off + |bytes|) && k != Link(Offsets(caps), |caps|)
    ensures Write(space, LastLink(caps), off, bytes)[k] == space[k]
  {
  }

  lemma NewBytes(space: seq<byte>, caps: seq<Cap>, off: nat, bytes: seq<byte>)
    requires off + |bytes| <= |space| && |bytes| >= 3
    requires Link(Offsets(caps), |caps|) < |space|
    requires !(off <= Link(Offsets(caps), |caps|) < off + |bytes|)
    ensures var s := Write(space, LastLink(caps), off, bytes);
            && s[Link(Offsets(caps), |caps|)] == off % 256
            && s[off] == bytes[0] && s[off + 1] == 0 && s[off + 2] == bytes[2]
  {
  }

  /** No link of the list is among the bytes of the new capability, and only the last one is rewritten. */
  lemma LinkOutside(space: seq<byte>, caps: seq<Cap>, c: Cap, i: nat)
    requires WellFormed(space, caps) && Free(caps, c) && i <= |caps|
    ensures Link(Offsets(caps), i) < |space| && !(c.off <= Link(Offsets(caps), i) < c.End())
    ensures i < |caps| ==> Link(Offsets(caps), i) != Link(Offsets(caps), |caps|)
  {
    hide Linked;
    if i > 0 {
      assert Encodes(space, caps[i - 1]) && Disjoint(caps[i - 1], c);
    }
    if i < |caps| {
      assert Encodes(space, caps[|caps| - 1]);
      assert 0 < i ==> Disjoint(caps[i - 1], caps[|caps| - 1]);
    }
  }

  /** The last link is neither the id byte nor the size byte of any capability. */
  lemma LastLinkNotIn(space: seq<byte>, caps: seq<Cap>, i: nat)
    requires WellFormed(space, caps) && i < |caps|
    ensures Link(Offsets(caps), |caps|) != caps[i].off
    ensures caps[i].size > 2 ==> Link(Offsets(caps), |caps|) != caps[i].off + 2
  {
    hide Linked;
    var n := |caps| - 1;
    assert Encodes(space, caps[n]) && Encodes(space, caps[i]);
    assert i < n ==> Disjoint(caps[i], caps[n]);
  }

  lemma OldCapKept(space: seq<byte>, caps: seq<Cap>, c: Cap, bytes: seq<byte>, i: nat)
    requires WellFormed(space, caps) && Free(caps, c) && i < |caps|
    requires Describes(bytes, c) && c.End() <= |space| && Link(Offsets(caps), |caps|) < |space|
    ensures Encodes(Write(space, LastLink(caps), c.off, bytes), caps[i])
  {
    hide Write, Linked;
    var d := caps[i];
    assert Encodes(space, d) && Disjoint(d, c);
    LastLinkNotIn(space, caps, i);
    OldBytesKept(space, caps, c.off, bytes, d.off);
    OldBytesKept(space, caps, c.off, bytes, d.off + 2);
  }

  /** The list after the write: the old links, one to the new capability, and the end. */
  lemma ListAppended(space: seq<byte>, caps: seq<Cap>, c: Cap, bytes: seq<byte>)
    requires WellFormed(space, caps) && Free(caps, c)
    requires Describes(bytes, c) && c.End() <= |space| && Link(Offsets(caps), |caps|) < |space|
    ensures Linked(Write(space, LastLink(caps), c.off, bytes), Offsets(caps + [c]))
  {
    hide Write;
    var s, offs := Write(space, LastLink(caps), c.off, bytes), Offsets(caps + [c]);
    LinkOutside(space, caps, c, |caps|);
    NewBytes(space, caps, c.off, bytes);
    forall i | 0 <= i <= |offs|
      ensures Link(offs, i) < |s| && s[Link(offs, i)] == Target(offs, i)
    {
      if i < |caps| {
        LinkOutside(space, caps, c, i);
        OldBytesKept(space, caps, c.off, bytes, Link(Offsets(caps), i));
        assert Link(offs, i) == Link(Offsets(caps), i);
      }
    }
  }

  /** A capability that is written into free bytes is appended to the list; everything else is kept. */
  lemma WriteKeepsList(space: seq<byte>, caps: seq<Cap>, c: Cap, bytes: seq<byte>)
    requires WellFormed(space, caps) && Free(caps, c) && c.End() <= |space| && Describes(bytes, c)
    ensures Link(Offsets(caps), |caps|) < |space|
    ensures WellFormed(Write(space, LastLink(caps), c.off, bytes), caps + [c])
  {
    hide Write, Linked;
    LinkOutside(space, caps, c, |caps|);
    ListAppended(space, caps, c, bytes);
    NewBytes(space, caps, c.off, bytes);
    forall i | 0 <= i < |caps|
      ensures Encodes(Write(space, LastLink(caps), c.off, bytes), caps[i])
    {
      OldCapKept(space, caps, c, bytes, i);
    }
  }

  /**
   A successful addition leaves a well-formed list with the new capability at its end if and only
   if the bytes it was given were free.
   */
  lemma AddKeepsListIff(space: seq<byte>, caps: seq<Cap>, ext: seq<Cap>, hasCb: bool, w: Wanted)
    requires WellFormed(space, caps) && Supplied(w) && Add(space, caps, ext, hasCb, w).Added?
    ensures var r := Add(space, caps, ext, hasCb, w);
            && r.off == Chosen(caps, w.pos) && r.caps == caps + [NewCap(w, r.off)]
            && (WellFormed(r.space, r.caps) <==> Free(caps, NewCap(w, r.off)))
  {
    hide Linked, Write, Place, FindByOffset, Near;
    PlaceOnList(space, caps, w);
    var r := Add(space, caps, ext, hasCb, w);
    var c := NewCap(w, r.off);
    if Free(caps, c) {
      WriteKeepsList(space, caps, c, w.data[..c.size]);
    }
    if WellFormed(r.space, r.caps) {
      NewestIsFree(r.space, caps, c);
    }
  }

  lemma NewestIsFree(space: seq<byte>, caps: seq<Cap>, c: Cap)
    requires WellFormed(space, caps + [c])
    ensures Free(caps, c)
  {
    hide Linked;
    var all := caps + [c];
    assert Encodes(space, all[|caps|]);
    forall i | 0 <= i < |caps|
      ensures Disjoint(caps[i], c)
    {
      assert Disjoint(all[i], all[|caps|]);
    }
  }

  /**
   From offset 256 on the link that is stored is another number than the offset, and no walk that
   ends leads to the capability.
   */
  lemma HighCapabilityIsLost(space: seq<byte>, caps: seq<Cap>, ext: seq<Cap>, hasCb: bool, w: Wanted)
    requires WellFormed(space, caps) && Supplied(w)
    requires var r := Add(space, caps, ext, hasCb, w); r.Added? && r.off >= CFG_SPACE
    ensures var r := Add(space, caps, ext, hasCb, w);
            && LastLink(caps) < |r.space| && r.space[LastLink(caps)] == r.off % 256 != r.off
            && (WalkOf(r.space).Ends? ==> r.off !in WalkOf(r.space).offs)
            && !WellFormed(r.space, r.caps)
  {
    hide Linked, Place, FindByOffset, Near, WalkFrom;
    PlaceOnList(space, caps, w);
    AddKeepsListIff(space, caps, ext, hasCb, w);
    var r := Add(space, caps, ext, hasCb, w);
    if caps != [] {
      assert Encodes(space, caps[|caps| - 1]);
    }
    if WalkOf(r.space).Ends? {
      WalkIsLinked(r.space, CAP_PTR, {});
    }
  }

  /** A position that was asked for is checked against the table, so its bytes are free. */
  lemma ExplicitIsFree(space: seq<byte>, caps: seq<Cap>, ext: seq<Cap>, hasCb: bool, w: Wanted)
    requires WellFormed(space, caps) && Supplied(w) && Add(space, caps, ext, hasCb, w).Added?
    requires 0 < w.pos < CFG_SPACE && StdHdrSize(w.data[0]) <= StdSize(w.data).value
    ensures Free(caps, NewCap(w, w.pos))
  {
    hide WellFormed, Write, Place;
    var c := NewCap(w, w.pos);
    forall i | 0 <= i < |caps|
      ensures Disjoint(caps[i], c)
    {
      assert (caps + ext)[i] == caps[i];
      assert !Near((caps + ext)[i], c.off, c.size);
    }
  }

  /** Each capability starts behind the end of the ones before it in the table. */
  predicate Ascending(caps: seq<Cap>) {
    forall i, j :: 0 <= i < j < |caps| ==> caps[i].End() <= caps[j].off
  }

  /** The position is automatic or behind all earlier capabilities, and the result stays below 256. */
  predicate Tame(caps: seq<Cap>, w: Wanted)
    requires Supplied(w) && StdSize(w.data).Some?
  {
    && HEADER <= Chosen(caps, w.pos) < CFG_SPACE
    && StdHdrSize(w.data[0]) <= StdSize(w.data).value
    && (w.pos == 0 || forall i :: 0 <= i < |caps| ==> caps[i].End() <= w.pos)
  }

  lemma RoundUpAtLeast(x: nat)
    ensures x <= RoundUp(x, 4)
  {
  }

  lemma TameIsFree(caps: seq<Cap>, w: Wanted)
    requires Ascending(caps) && Supplied(w) && StdSize(w.data).Some? && Tame(caps, w)
    requires forall i :: 0 <= i < |caps| ==> caps[i].size > 0
    ensures var c := NewCap(w, Chosen(caps, w.pos)); Free(caps, c) && Ascending(caps + [c])
  {
    var c := NewCap(w, Chosen(caps, w.pos));
    if w.pos == 0 && caps != [] {
      RoundUpAtLeast(caps[|caps| - 1].End());
    }
    forall i | 0 <= i < |caps|
      ensures caps[i].End() <= c.off
    {
      assert i < |caps| - 1 ==> caps[i].End() <= caps[|caps| - 1].off;
    }
  }

  // --------------------------------------------------------- runs of additions

  /** Configuration space after vfu_pci_init(): all zero. */
  predicate Blank(space: seq<byte>) {
    CFG_SPACE <= |space| && forall i :: 0 <= i < |space| ==> space[i] == 0
  }

  /** The bytes and the table of a device under construction. */
  datatype Built = Built(space: seq<byte>, caps: seq<Cap>)

  predicate AllSupplied(ws: seq<Wanted>) {
    forall k :: 0 <= k < |ws| ==> Supplied(ws[k])
  }

  /** The first n additions, one after the other; a failed one changes nothing. None if the process is gone. */
  ghost function AddAll(space: seq<byte>, ext: seq<Cap>, hasCb: bool, ws: seq<Wanted>, n: nat): (r: Option<Built>)
    requires CFG_SPACE <= |space| && AllSupplied(ws) && n <= |ws|
    ensures r.Some? ==> |r.value.space| == |space|
  {
    if n == 0 then Some(Built(space, []))
    else
      var b := AddAll(space, ext, hasCb, ws, n - 1);
      if b.None? then None
      else
        match Add(b.value.space, b.value.caps, ext, hasCb, ws[n - 1])
        case Added(s, caps, _) => Some(Built(s, caps))
        case AddFailed(_) => b
        case _ => None
  }

  ghost predicate GoodAfter(space: seq<byte>, ext: seq<Cap>, hasCb: bool, ws: seq<Wanted>, n: nat)
    requires CFG_SPACE <= |space| && AllSupplied(ws) && n <= |ws|
  {
    var b := AddAll(space, ext, hasCb, ws, n);
    b.Some? ==> WellFormed(b.value.space, b.value.caps)
  }

  /** If addition k is made, the bytes it is given are free. */
  ghost predicate FreeAt(space: seq<byte>, ext: seq<Cap>, hasCb: bool, ws: seq<Wanted>, k: nat)
    requires CFG_SPACE <= |space| && AllSupplied(ws) && k < |ws|
  {
    var b := AddAll(space, ext, hasCb, ws, k);
    b.Some? && Add(b.value.space, b.value.caps, ext, hasCb, ws[k]).Added? ==>
      Free(b.value.caps, NewCap(ws[k], Chosen(b.value.caps, ws[k].pos)))
  }

  lemma BlankIsWellFormed(space: seq<byte>)
    requires Blank(space)
    ensures WellFormed(space, [])
  {
  }

  lemma GoodAtStart(space: seq<byte>, ext: seq<Cap>, hasCb: bool, ws: seq<Wanted>)
    requires Blank(space) && AllSupplied(ws)
    ensures GoodAfter(space, ext, hasCb, ws, 0)
  {
    BlankIsWellFormed(space);
  }

  lemma OneMoreGoodIff(space: seq<byte>, ext: seq<Cap>, hasCb: bool, ws: seq<Wanted>, n: nat)
    requires CFG_SPACE <= |space| && AllSupplied(ws) && n < |ws| && GoodAfter(space, ext, hasCb, ws, n)
    ensures GoodAfter(space, ext, hasCb, ws, n + 1) <==> FreeAt(space, ext, hasCb, ws, n)
  {
    hide WellFormed, Free, Place, FindByOffset;
    var b := AddAll(space, ext, hasCb, ws, n);
    if b.Some? && Add(b.value.space, b.value.caps, ext, hasCb, ws[n]).Added? {
      AddKeepsListIff(b.value.space, b.value.caps, ext, hasCb, ws[n]);
    }
  }

  /**
   Through any sequence of additions, refused ones included: the list in the bytes visits exactly
   the table's capabilities in the order they were added and ends, their ranges are disjoint,
   outside the header, and encode their id and size, if and only if every addition that was made
   was given free bytes.
   */
  lemma {:induction false} ListAfterAnyAdditionsIff(space: seq<byte>, ext: seq<Cap>, hasCb: bool, ws: seq<Wanted>,
                                                    n: nat)
    requires Blank(space) && AllSupplied(ws) && n <= |ws|
    ensures (forall k :: 0 <= k <= n ==> GoodAfter(space, ext, hasCb, ws, k))
       <==> (forall k :: 0 <= k < n ==> FreeAt(space, ext, hasCb, ws, k))
  {
    hide GoodAfter, FreeAt;
    GoodAtStart(space, ext, hasCb, ws);
    if n > 0 {
      ListAfterAnyAdditionsIff(space, ext, hasCb, ws, n - 1);
      if forall k :: 0 <= k <= n - 1 ==> GoodAfter(space, ext, hasCb, ws, k) {
        OneMoreGoodIff(space, ext, hasCb, ws, n - 1);
        assert n - 1 + 1 == n;
      }
    }
  }

  /** If addition k is made, its position is automatic or behind all earlier capabilities, and below 256. */
  ghost predicate TameAt(space: seq<byte>, ext: seq<Cap>, hasCb: bool, ws: seq<Wanted>, k: nat)
    requires CFG_SPACE <= |space| && AllSupplied(ws) && k < |ws|
  {
    var b := AddAll(space, ext, hasCb, ws, k);
    b.Some? && Add(b.value.space, b.value.caps, ext, hasCb, ws[k]).Added? ==> Tame(b.value.caps, ws[k])
  }

  lemma AddTame(space: seq<byte>, caps: seq<Cap>, ext: seq<Cap>, hasCb: bool, w: Wanted)
    requires WellFormed(space, caps) && Ascending(caps) && Supplied(w)
    requires Add(space, caps, ext, hasCb, w).Added? && Tame(caps, w)
    ensures var r := Add(space, caps, ext, hasCb, w); WellFormed(r.space, r.caps) && Ascending(r.caps)
  {
    hide Linked, Write, Place, FindByOffset, Near, Tame, Free;
    assert forall i :: 0 <= i < |caps| ==> Encodes(space, caps[i]);
    TameIsFree(caps, w);
    AddKeepsListIff(space, caps, ext, hasCb, w);
  }

  /** After any run of additions that are automatic or go upwards, the list is well-formed and ascending. */
  lemma {:induction false} ListAfterTameAdditions(space: seq<byte>, ext: seq<Cap>, hasCb: bool, ws: seq<Wanted>, n: nat)
    requires Blank(space) && AllSupplied(ws) && n <= |ws|
    requires forall k :: 0 <= k < n ==> TameAt(space, ext, hasCb, ws, k)
    ensures var b := AddAll(space, ext, hasCb, ws, n);
            b.Some? ==> WellFormed(b.value.space, b.value.caps) && Ascending(b.value.caps)
  {
    hide WellFormed, Add, Tame;
    if n == 0 {
      BlankIsWellFormed(space);
    } else {
      ListAfterTameAdditions(space, ext, hasCb, ws, n - 1);
      var b := AddAll(space, ext, hasCb, ws, n - 1);
      assert TameAt(space, ext, hasCb, ws, n - 1);
      if b.Some? && Add(b.value.space, b.value.caps, ext, hasCb, ws[n - 1]).Added? {
        AddTame(b.value.space, b.value.caps, ext, hasCb, ws[n - 1]);
      }
    }
  }

  /** An addition at a free position that is asked for. */
  lemma ExplicitAdded(space: seq<byte>, caps: seq<Cap>, w: Wanted, size: nat)
    requires WellFormed(space, caps) && Supplied(w) && |caps| < VFU_MAX_CAPS && !w.callback
    requires StdSize(w.data) == Some(size) && StdHdrSize(w.data[0]) <= size
    requires HEADER <= w.pos < CFG_SPACE && w.pos + size < |space|
    requires forall i :: 0 <= i < |caps| ==> !Near(caps[i], w.pos, size)
    ensures var r := Add(space, caps, [], false, w);
            r.Added? && r.caps == caps + [NewCap(w, w.pos)] && WellFormed(r.space, r.caps)
  {
    hide WellFormed, Place, Near;
    assert caps + [] == caps;
    PlaceOnList(space, caps, w);
    AddKeepsListIff(space, caps, [], false, w);
    ExplicitIsFree(space, caps, [], false, w);
  }

  /**
   A vendor capability at 0x80, power management at 0x70, and MSI-X without a position: all three
   are accepted, and MSI-X is placed at 0x78, over the first bytes of the vendor capability.
   */
  lemma AutomaticPlacementOverlaps(space: seq<byte>, vendor: seq<byte>, pm: seq<byte>, msix: seq<byte>)
    requires Blank(space) && |space| == CFG_SPACE
    requires |vendor| == 0x20 && vendor[0] == ID_VNDR && vendor[2] == 0x20
    requires |pm| == 8 && pm[0] == ID_PM && |msix| == 12 && msix[0] == ID_MSIX
    ensures var ws := [Wanted(0x80, false, false, vendor), Wanted(0x70, false, false, pm),
                       Wanted(0, false, false, msix)];
            && AllSupplied(ws)
            && var b := AddAll(space, [], false, ws, 3);
               && b.Some? && |b.value.caps| == 3 && b.value.caps[2].off == 0x78
               && !Disjoint(b.value.caps[0], b.value.caps[2]) && !WellFormed(b.value.space, b.value.caps)
  {
    hide WellFormed, Place, Add, Write, FindByOffset;
    var v, p, m := Wanted(0x80, false, false, vendor), Wanted(0x70, false, false, pm), Wanted(0, false, false, msix);
    var ws := [v, p, m];
    BlankIsWellFormed(space);
    ExplicitAdded(space, [], v, 0x20);
    var one := Add(space, [], [], false, v);
    assert [] + [NewCap(v, 0x80)] == [NewCap(v, 0x80)];
    assert AddAll(space, [], false, ws, 1) == Some(Built(one.space, one.caps));
    ExplicitAdded(one.space, one.caps, p, 8);
    var two := Add(one.space, one.caps, [], false, p);
    assert two.caps == [NewCap(v, 0x80), NewCap(p, 0x70)];
    assert AddAll(space, [], false, ws, 2) == Some(Built(two.space, two.caps));
    MsixOverlaps(two.space, two.caps, m);
  }

  lemma OverlapIsNotFree(caps: seq<Cap>, c: Cap)
    requires caps != [] && !Disjoint(caps[0], c)
    ensures !Free(caps, c)
  {
  }

  lemma BehindSmallOne(caps: seq<Cap>)
    requires |caps| == 2 && caps[1].off == 0x70 && caps[1].size == 8
    ensures AutoOffset(caps) == 0x78
  {
  }

  lemma MsixOverlaps(space: seq<byte>, caps: seq<Cap>, m: Wanted)
    requires WellFormed(space, caps) && Supplied(m) && |space| == CFG_SPACE && |caps| == 2
    requires caps[0].off == 0x80 && caps[0].size == 0x20 && caps[1].off == 0x70 && caps[1].size == 8
    requires m.pos == 0 && !m.callback && StdSize(m.data) == Some(12)
    ensures var r := Add(space, caps, [], false, m);
            && r.Added? && |r.caps| == 3 && r.caps[0] == caps[0] && r.caps[2].off == 0x78 && r.caps[2].size == 12
            && !WellFormed(r.space, r.caps)
  {
    hide WellFormed, Place, Write, FindByOffset, AutoOffset, Free, Offsets, SizeOf;
    BehindSmallOne(caps);
    PlaceOnList(space, caps, m);
    var r := Add(space, caps, [], false, m);
    assert r.Added? && r.off == 0x78;
    AddKeepsListIff(space, caps, [], false, m);
    OverlapIsNotFree(caps, NewCap(m, 0x78));
  }

  // ---------------------------------------------------------------- finding

  /** Index of the first listed capability from n on with this id; |offs| if there is none. */
  function FindIndex(space: seq<byte>, offs: seq<nat>, id: nat, n: nat): (k: nat)
    requires n <= |offs| && forall i :: 0 <= i < |offs| ==> offs[i] < |space|
    ensures n <= k <= |offs|
    ensures k < |offs| ==> space[offs[k]] == id
    ensures forall i :: n <= i < k ==> space[offs[i]] != id
    decreases |offs| - n
  {
    if n == |offs| || space[offs[n]] == id then n else FindIndex(space, offs, id, n + 1)
  }

  /** Where in the list a search continues: at its start, or behind the given capability. */
  function After(offs: seq<nat>, offset: nat, n: nat := 0): (k: nat)
    requires n <= |offs|
    ensures k <= |offs|
    ensures offset != 0 && offset in offs[n..] ==> n < k && offs[k - 1] == offset
    decreases |offs| - n
  {
    if offset == 0 || n == |offs| then 0
    else if offs[n] == offset then n + 1
    else After(offs, offset, n + 1)
  }

  /** vfu_pci_find_next_capability(): the next offset with the id behind the given one, or 0. */
  function FindNext(space: seq<byte>, offs: seq<nat>, offset: nat, id: nat): (r: nat)
    requires forall i :: 0 <= i < |offs| ==> offs[i] < |space|
  {
    Target(offs, FindIndex(space, offs, id, After(offs, offset)))
  }

  /** The link that a search continues from leads to the capability behind the given one. */
  lemma SearchStart(space: seq<byte>, caps: seq<Cap>, offset: nat)
    requires WellFormed(space, caps) && (offset == 0 || offset in Offsets(caps))
    ensures var link := if offset == 0 then CAP_PTR else offset + 1;
            link < |space| && space[link] == Target(Offsets(caps), After(Offsets(caps), offset))
  {
    var offs := Offsets(caps);
    assert offs[0..] == offs;
    var i := After(offs, offset);
    assert space[Link(offs, i)] == Target(offs, i);
  }

  /** What a search on any bytes comes to; it hangs if the links run in a circle without a match. */
  datatype Found = At(off: nat) | NotFound(errno: nat) | FindHangs

  /** The search from a capability on, when the links in seen have been followed. */
  ghost function FindFrom(space: seq<byte>, at: nat, id: nat, seen: set<nat>): Found
    decreases BYTES - seen
  {
    if at + 1 >= |space| then NotFound(EINVAL)
    else if space[at] == id then At(at)
    else
      var next: nat := space[at + 1];
      if next == 0 then NotFound(ENOENT)
      else if next in seen then FindHangs
      else FindFrom(space, next, id, seen + {next})
  }

  /** vfu_pci_find_next_capability() on any bytes and from any offset. */
  ghost function FindOn(space: seq<byte>, offset: nat, id: nat): Found
    requires CFG_SPACE <= |space|
  {
    if offset + 1 >= |space| then NotFound(EINVAL)
    else
      var at: nat := if offset == 0 then space[CAP_PTR] else space[offset + 1];
      if at == 0 then NotFound(ENOENT) else FindFrom(space, at, id, {at})
  }

  lemma {:induction false} FindFromIsIndex(space: seq<byte>, offs: seq<nat>, i: nat, id: nat, seen: set<nat>)
    requires Linked(space, offs) && Distinct(offs) && i < |offs|
    requires forall k :: 0 <= k < |offs| ==> offs[k] < |space|
    requires forall b :: b in seen ==> b in offs[..i + 1]
    ensures var k := FindIndex(space, offs, id, i);
            FindFrom(space, offs[i], id, seen) == if k == |offs| then NotFound(ENOENT) else At(offs[k])
    decreases |offs| - i
  {
    assert Link(offs, i + 1) == offs[i] + 1 && space[offs[i] + 1] == Target(offs, i + 1);
    if space[offs[i]] != id && i + 1 < |offs| {
      assert offs[i + 1] !in offs[..i + 1];
      assert offs[..i + 2] == offs[..i + 1] + [offs[i + 1]];
      FindFromIsIndex(space, offs, i + 1, id, seen + {offs[i + 1]});
    }
  }

  /** On a well-formed list, from the start or from a listed capability, the bytes give the listed answer. */
  lemma FindOnList(space: seq<byte>, caps: seq<Cap>, offset: nat, id: nat)
    requires WellFormed(space, caps) && (offset == 0 || offset in Offsets(caps))
    ensures forall i :: 0 <= i < |caps| ==> Offsets(caps)[i] < |space|
    ensures var r := FindNext(space, Offsets(caps), offset, id);
            FindOn(space, offset, id) == if r == 0 then NotFound(ENOENT) else At(r)
  {
    hide Encodes, After, FindFrom;
    var offs := Offsets(caps);
    ListIsDistinct(space, caps);
    SearchStart(space, caps, offset);
    var i := After(offs, offset);
    if i < |offs| {
      FindFromIsIndex(space, offs, i, id, {offs[i]});
    }
  }

  /** The errors of a search on any bytes: an offset outside the space, no capability behind it, a link outside. */
  lemma FindErrors(space: seq<byte>, offset: nat, id: nat)
    requires CFG_SPACE <= |space|
    ensures offset + 1 >= |space| ==> FindOn(space, offset, id) == NotFound(22)
    ensures offset + 1 < |space| ==>
              var next: nat := if offset == 0 then space[0x34] else space[offset + 1];
              && (next == 0 ==> FindOn(space, offset, id) == NotFound(2))
              && (next + 1 >= |space| ==> FindOn(space, offset, id) == NotFound(22))
  {
  }

  /** The listed offsets from n on whose capability has the id, in list order. */
  function Matching(space: seq<byte>, offs: seq<nat>, id: nat, n: nat): seq<nat>
    requires n <= |offs| && forall i :: 0 <= i < |offs| ==> offs[i] < |space|
    decreases |offs| - n
  {
    if n == |offs| then []
    else if space[offs[n]] == id then [offs[n]] + Matching(space, offs, id, n + 1)
    else Matching(space, offs, id, n + 1)
  }

  predicate Distinct(offs: seq<nat>) {
    && (forall i :: 0 <= i < |offs| ==> offs[i] != 0)
    && (forall i, j :: 0 <= i < j < |offs| ==> offs[i] != offs[j])
  }

  lemma AfterListed(offs: seq<nat>, i: nat, n: nat)
    requires Distinct(offs) && n <= i < |offs|
    ensures After(offs, offs[i], n) == i + 1
    decreases i - n
  {
  }

  /** The results of asking again and again, each time behind the last result, until 0 is returned. */
  function Repeated(space: seq<byte>, offs: seq<nat>, id: nat, offset: nat): seq<nat>
    requires Distinct(offs) && (forall i :: 0 <= i < |offs| ==> offs[i] < |space|)
    decreases |offs| - After(offs, offset)
  {
    var k := FindIndex(space, offs, id, After(offs, offset));
    var r := FindNext(space, offs, offset, id);
    if r == 0 then []
    else
      AfterListed(offs, k, 0);
      [r] + Repeated(space, offs, id, r)
  }

  lemma {:induction false} MatchingSkips(space: seq<byte>, offs: seq<nat>, id: nat, n: nat)
    requires n <= |offs| && forall i :: 0 <= i < |offs| ==> offs[i] < |space|
    ensures var k := FindIndex(space, offs, id, n);
            Matching(space, offs, id, n) ==
            if k == |offs| then [] else [offs[k]] + Matching(space, offs, id, k + 1)
    decreases |offs| - n
  {
    if n < |offs| && space[offs[n]] != id {
      MatchingSkips(space, offs, id, n + 1);
    }
  }

  /** Repeated searches return exactly the capabilities with the id, each once, in list order. */
  lemma {:induction false} SearchEnumerates(space: seq<byte>, offs: seq<nat>, id: nat, offset: nat)
    requires Distinct(offs) && (forall i :: 0 <= i < |offs| ==> offs[i] < |space|)
    ensures Repeated(space, offs, id, offset) == Matching(space, offs, id, After(offs, offset))
    decreases |offs| - After(offs, offset)
  {
    hide FindIndex, Matching;
    var n := After(offs, offset);
    var k := FindIndex(space, offs, id, n);
    MatchingSkips(space, offs, id, n);
    if k < |offs| {
      AfterListed(offs, k, 0);
      SearchEnumerates(space, offs, id, offs[k]);
    }
  }

  lemma ListIsDistinct(space: seq<byte>, caps: seq<Cap>)
    requires WellFormed(space, caps)
    ensures Distinct(Offsets(caps)) && forall i :: 0 <= i < |caps| ==> Offsets(caps)[i] < |space|
  {
    hide Linked;
    forall i | 0 <= i < |caps|
      ensures 0 < caps[i].off < |space|
    {
      assert Encodes(space, caps[i]);
    }
    forall i, j | 0 <= i < j < |caps|
      ensures caps[i].off != caps[j].off
    {
      assert Encodes(space, caps[i]) && Encodes(space, caps[j]) && Disjoint(caps[i], caps[j]);
    }
  }

  /** Searching from the start finds exactly the table's capabilities with the id, in the order they were added. */
  lemma SearchFindsTable(space: seq<byte>, caps: seq<Cap>, id: nat)
    requires WellFormed(space, caps)
    ensures Distinct(Offsets(caps)) && forall i :: 0 <= i < |caps| ==> Offsets(caps)[i] < |space|
    ensures Repeated(space, Offsets(caps), id, 0) == OffsetsWithId(caps, id, 0)
  {
    ListIsDistinct(space, caps);
    SearchEnumerates(space, Offsets(caps), id, 0);
    MatchingIsTable(space, caps, id, 0);
  }

  function OffsetsWithId(caps: seq<Cap>, id: nat, n: nat): seq<nat>
    requires n <= |caps|
    decreases |caps| - n
  {
    if n == |caps| then []
    else if caps[n].id == id then [caps[n].off] + OffsetsWithId(caps, id, n + 1)
    else OffsetsWithId(caps, id, n + 1)
  }

  lemma {:induction false} MatchingIsTable(space: seq<byte>, caps: seq<Cap>, id: nat, n: nat)
    requires WellFormed(space, caps) && n <= |caps|
    requires forall i :: 0 <= i < |caps| ==> Offsets(caps)[i] < |space|
    ensures Matching(space, Offsets(caps), id, n) == OffsetsWithId(caps, id, n)
    decreases |caps| - n
  {
    hide Linked;
    if n < |caps| {
      assert Encodes(space, caps[n]);
      MatchingIsTable(space, caps, id, n + 1);
    }
  }
}
