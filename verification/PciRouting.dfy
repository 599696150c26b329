/**
 How an access to configuration space is cut into segments (lib/pci.c): the standard
 header, a capability, or neither. all is the table in lookup order: the standard
 capabilities, then the extended ones.
 */
module PciRouting {
  import opened Common
  import opened PciCaps

  /** Who handles a segment: the header code, the i-th capability, or the device. */
  datatype Handler = Header | Capability(i: nat) | Device

  datatype Segment = Segment(handler: Handler, off: nat, len: nat)

  /** pci_config_space_next_segment() */
  function NextSegment(all: seq<Cap>, off: nat, count: nat): (s: Segment)
    requires count > 0
    ensures s.off == off && 0 < s.len <= count
  {
    if off < HEADER then Segment(Header, off, Min(count, HEADER - off))
    else
      var i := FindByOffset(all, off, count);
      if i == |all| then Segment(Device, off, count)
      else if off < all[i].off then Segment(Device, off, all[i].off - off)
      else Segment(Capability(i), off, Min(count, all[i].size))
  }

  /** The segments of an access each of which is handled in full. */
  function Segments(all: seq<Cap>, off: nat, count: nat): seq<Segment>
    decreases count
  {
    if count == 0 then []
    else
      var s := NextSegment(all, off, count);
      [s] + Segments(all, off + s.len, count - s.len)
  }

  /** The lookup made while handling a segment finds the capability that the segment was cut for. */
  lemma SecondLookupAgrees(all: seq<Cap>, off: nat, count: nat)
    requires count > 0 && NextSegment(all, off, count).handler.Capability?
    ensures var s := NextSegment(all, off, count);
            && FindByOffset(all, off, s.len) == s.handler.i < |all|
            && all[s.handler.i].off <= off && s.len <= all[s.handler.i].size
  {
    var s := NextSegment(all, off, count);
    var i := FindByOffset(all, off, count);
    assert Near(all[i], off, s.len);
    forall j | 0 <= j < i
      ensures !Near(all[j], off, s.len)
    {
      assert !Near(all[j], off, count);
    }
  }

  function Bytes(ss: seq<Segment>): nat {
    if ss == [] then 0 else ss[0].len + Bytes(ss[1..])
  }

  /** The segments follow one another without gap or overlap from off on. */
  predicate Tile(ss: seq<Segment>, off: nat) {
    ss == [] || (ss[0].off == off && ss[0].len > 0 && Tile(ss[1..], off + ss[0].len))
  }

  /** The segments tile the access in order, whatever the table holds. */
  lemma {:induction false} SegmentsTile(all: seq<Cap>, off: nat, count: nat)
    ensures Tile(Segments(all, off, count), off) && Bytes(Segments(all, off, count)) == count
    decreases count
  {
    if count > 0 {
      var s := NextSegment(all, off, count);
      SegmentsTile(all, off + s.len, count - s.len);
      assert Segments(all, off, count)[1..] == Segments(all, off + s.len, count - s.len);
    }
  }

  // ------------------------------------------------- segments in the right hands

  /** Capabilities are not empty, lie behind the header and share no bytes. */
  predicate TableOk(all: seq<Cap>) {
    && (forall i :: 0 <= i < |all| ==> HEADER <= all[i].off && all[i].size > 0)
    && (forall i, j :: 0 <= i < j < |all| ==> Disjoint(all[i], all[j]))
  }

  predicate Overlaps(c: Cap, off: nat, len: nat) {
    c.off < off + len && off < c.End()
  }

  /** The segment lies wholly where its handler belongs. */
  predicate Right(all: seq<Cap>, s: Segment) {
    match s.handler
    case Header => s.off + s.len <= HEADER
    case Capability(i) => i < |all| && all[i].off <= s.off && s.off + s.len <= all[i].End()
    case Device => HEADER <= s.off && forall i :: 0 <= i < |all| ==> !Overlaps(all[i], s.off, s.len)
  }

  predicate AllRight(all: seq<Cap>, ss: seq<Segment>) {
    forall k :: 0 <= k < |ss| ==> Right(all, ss[k])
  }

  /** The capabilities near the access stand in the table in the order of their offsets. */
  predicate InOrder(all: seq<Cap>, off: nat, count: nat) {
    forall i, j :: 0 <= i < j < |all| && Near(all[i], off, count) && Near(all[j], off, count) ==>
      all[i].off < all[j].off
  }

  /** The access does not start inside a capability and run past its end. */
  predicate NoOverrun(all: seq<Cap>, off: nat, count: nat) {
    forall i :: 0 <= i < |all| && all[i].off < off < all[i].End() ==> off + count <= all[i].End()
  }

  /** What follows the first segment of an access that overruns nothing overruns nothing either. */
  lemma RestOverrunsNothing(all: seq<Cap>, off: nat, count: nat)
    requires TableOk(all) && count > 0 && NoOverrun(all, off, count)
    ensures var s := NextSegment(all, off, count);
            && (s.len < count ==> NoOverrun(all, off + s.len, count - s.len))
            && (s.handler.Capability? ==> s.handler.i < |all| && s.off + s.len <= all[s.handler.i].End())
  {
    var s := NextSegment(all, off, count);
    if s.handler.Capability? {
      OthersApart(all, s.handler.i);
    } else if s.handler.Device? && s.len < count {
      OthersApart(all, FindByOffset(all, off, count));
    }
  }

  predicate Clean(all: seq<Cap>, off: nat, count: nat) {
    InOrder(all, off, count) && NoOverrun(all, off, count)
  }

  lemma NotBoth(all: seq<Cap>, i: nat, j: nat, a: nat)
    requires TableOk(all) && i < |all| && j < |all|
    requires all[i].off <= a < all[i].End() && all[j].off <= a < all[j].End()
    ensures i == j
  {
  }

  lemma OthersApart(all: seq<Cap>, i: nat)
    requires TableOk(all) && i < |all|
    ensures forall j :: 0 <= j < |all| && j != i ==> Disjoint(all[i], all[j])
  {
  }

  /** No two capabilities start at the same offset. */
  lemma StartsDiffer(all: seq<Cap>)
    requires TableOk(all)
    ensures forall i, j :: 0 <= i < j < |all| ==> all[i].off != all[j].off
  {
    forall i, j | 0 <= i < j < |all|
      ensures all[i].off != all[j].off
    {
      assert Disjoint(all[i], all[j]);
    }
  }

  // One lemma for each way a segment is cut: the access is clean if and only if
  // this segment is right and what follows is clean.

  lemma CleanFromHeader(all: seq<Cap>, off: nat, count: nat)
    requires TableOk(all) && count > 0 && off < HEADER
    ensures var s := NextSegment(all, off, count);
            Clean(all, off, count) <==> s.len == count || Clean(all, HEADER, count - s.len)
  {
    var s := NextSegment(all, off, count);
    StartsDiffer(all);
    if s.len < count {
      assert forall i :: 0 <= i < |all| ==> (Near(all[i], off, count) <==> Near(all[i], HEADER, count - s.len));
    }
  }

  lemma CleanAcrossGap(all: seq<Cap>, off: nat, count: nat, i: nat)
    requires TableOk(all) && count > 0 && HEADER <= off
    requires i == FindByOffset(all, off, count) < |all| && off < all[i].off
    ensures var l := all[i].off - off;
            Clean(all, off, count) <==>
            Right(all, Segment(Device, off, l)) && (l == count || Clean(all, all[i].off, count - l))
  {
    var l := all[i].off - off;
    if Clean(all, off, count) {
      GapIsRight(all, off, count, i);
      if l < count {
        RestOfGapIsClean(all, off, count, i);
      }
    } else if Right(all, Segment(Device, off, l)) && (l == count || Clean(all, all[i].off, count - l)) {
      GapWasClean(all, off, count, i);
    }
  }

  lemma GapIsRight(all: seq<Cap>, off: nat, count: nat, i: nat)
    requires TableOk(all) && count > 0 && HEADER <= off && Clean(all, off, count)
    requires i == FindByOffset(all, off, count) < |all| && off < all[i].off
    ensures Right(all, Segment(Device, off, all[i].off - off))
  {
    forall j | 0 <= j < |all|
      ensures !Overlaps(all[j], off, all[i].off - off)
    {
      assert Overlaps(all[j], off, all[i].off - off) ==> Near(all[j], off, count);
    }
  }

  lemma RestOfGapIsClean(all: seq<Cap>, off: nat, count: nat, i: nat)
    requires TableOk(all) && count > 0 && HEADER <= off && Clean(all, off, count)
    requires i == FindByOffset(all, off, count) < |all| && off < all[i].off < off + count
    ensures Clean(all, all[i].off, count - (all[i].off - off))
  {
    var n := count - (all[i].off - off);
    assert forall j :: 0 <= j < |all| && Near(all[j], all[i].off, n) ==> Near(all[j], off, count);
    OthersApart(all, i);
  }

  lemma GapWasClean(all: seq<Cap>, off: nat, count: nat, i: nat)
    requires TableOk(all) && count > 0 && HEADER <= off
    requires i == FindByOffset(all, off, count) < |all| && off < all[i].off
    requires var l := all[i].off - off;
             Right(all, Segment(Device, off, l)) && (l == count || Clean(all, all[i].off, count - l))
    ensures Clean(all, off, count)
  {
    var l := all[i].off - off;
    forall j | 0 <= j < |all| && Near(all[j], off, count)
      ensures all[i].off <= all[j].off
    {
      assert !Overlaps(all[j], off, l);
    }
    StartsDiffer(all);
    assert l < count ==> forall j :: 0 <= j < |all| && Near(all[j], off, count) ==> Near(all[j], all[i].off, count - l);
    assert forall j :: 0 <= j < |all| ==> !Overlaps(all[j], off, l);
  }

  lemma CleanInCapability(all: seq<Cap>, off: nat, count: nat, i: nat)
    requires TableOk(all) && count > 0 && HEADER <= off
    requires i == FindByOffset(all, off, count) < |all| && all[i].off <= off
    ensures var l := Min(count, all[i].size);
            Clean(all, off, count) <==>
            Right(all, Segment(Capability(i), off, l)) && (l == count || Clean(all, off + l, count - l))
  {
    hide TableOk, InOrder;
    var l := Min(count, all[i].size);
    if Clean(all, off, count) && l < count {
      RestOfCapabilityIsClean(all, off, count, i);
    }
    if Right(all, Segment(Capability(i), off, l)) && (l == count || Clean(all, off + l, count - l)) {
      CapabilityWasClean(all, off, count, i);
    }
  }

  lemma RestOfCapabilityIsClean(all: seq<Cap>, off: nat, count: nat, i: nat)
    requires TableOk(all) && HEADER <= off && Clean(all, off, count)
    requires i == FindByOffset(all, off, count) < |all| && all[i].off <= off && all[i].size < count
    ensures off == all[i].off && Clean(all, all[i].End(), count - all[i].size)
  {
    var e, n := all[i].End(), count - all[i].size;
    assert forall j :: 0 <= j < |all| && Near(all[j], e, n) ==> Near(all[j], off, count);
    OthersApart(all, i);
  }

  lemma CapabilityWasClean(all: seq<Cap>, off: nat, count: nat, i: nat)
    requires TableOk(all) && count > 0 && HEADER <= off
    requires i == FindByOffset(all, off, count) < |all| && all[i].off <= off
    requires var l := Min(count, all[i].size);
             Right(all, Segment(Capability(i), off, l)) && (l == count || Clean(all, off + l, count - l))
    ensures Clean(all, off, count)
  {
    hide FindByOffset;
    var l := Min(count, all[i].size);
    OthersApart(all, i);
    assert forall j :: 0 <= j < |all| && j != i && Near(all[j], off, count) ==> i < j && all[i].End() <= all[j].off;
    StartsDiffer(all);
    assert l < count ==>
      forall j :: 0 <= j < |all| && j != i && Near(all[j], off, count) ==> Near(all[j], off + l, count - l);
    forall j | 0 <= j < |all| && all[j].off < off < all[j].End()
      ensures off + count <= all[j].End()
    {
      NotBoth(all, i, j, off);
    }
  }

  lemma CleanStep(all: seq<Cap>, off: nat, count: nat)
    requires TableOk(all) && count > 0
    ensures var s := NextSegment(all, off, count);
            Clean(all, off, count) <==>
            Right(all, s) && (s.len == count || Clean(all, off + s.len, count - s.len))
  {
    hide TableOk, Clean;
    var i := FindByOffset(all, off, count);
    if off < HEADER {
      CleanFromHeader(all, off, count);
    } else if i == |all| {
      NothingNear(all, off, count);
    } else if off < all[i].off {
      CleanAcrossGap(all, off, count, i);
    } else {
      CleanInCapability(all, off, count, i);
    }
  }

  lemma NothingNear(all: seq<Cap>, off: nat, count: nat)
    requires count > 0 && HEADER <= off && FindByOffset(all, off, count) == |all|
    ensures Clean(all, off, count) && Right(all, Segment(Device, off, count))
  {
    assert forall i :: 0 <= i < |all| ==> !Near(all[i], off, count);
  }

  /**
   Every segment of an access lies wholly in the header, in the one capability that handles it,
   or outside the header and all capabilities, if and only if the capabilities near the access
   stand in the table in ascending order and the access does not overrun one it starts inside of.
   */
  lemma {:induction false} RoutingExact(all: seq<Cap>, off: nat, count: nat)
    requires TableOk(all) && count > 0
    ensures AllRight(all, Segments(all, off, count)) <==> Clean(all, off, count)
    decreases count
  {
    hide TableOk, Clean, Right;
    var ss := Segments(all, off, count);
    var s := NextSegment(all, off, count);
    var rest := Segments(all, off + s.len, count - s.len);
    assert ss == [s] + rest;
    AllRightSplit(all, s, rest);
    CleanStep(all, off, count);
    if s.len < count {
      RoutingExact(all, off + s.len, count - s.len);
    }
  }

  lemma AllRightSplit(all: seq<Cap>, s: Segment, rest: seq<Segment>)
    ensures AllRight(all, [s] + rest) <==> Right(all, s) && AllRight(all, rest)
  {
    var ss := [s] + rest;
    assert ss[0] == s;
    if AllRight(all, ss) {
      forall k | 0 <= k < |rest|
        ensures Right(all, rest[k])
      {
        assert ss[k + 1] == rest[k];
      }
    }
  }

  lemma TwoCapabilities(a: Cap, b: Cap)
    requires HEADER <= a.off && a.size > 0 && HEADER <= b.off && b.size > 0 && Disjoint(a, b)
    ensures TableOk([a, b])
  {
  }

  lemma PairInOrderIff(a: Cap, b: Cap, off: nat, count: nat)
    requires Near(a, off, count) && Near(b, off, count) && a.off != b.off
    ensures InOrder([a, b], off, count) <==> a.off < b.off
  {
    var all := [a, b];
    assert all[0] == a && all[1] == b;
  }

  /** The order in the table matters: here a capability inside the access is handed to the device. */
  lemma TableOrderMatters()
    ensures var high := Cap(ID_PM, 0x80, 2, 8, false, false, false);
            var low := Cap(ID_MSIX, 0x50, 2, 12, false, false, false);
            && !AllRight([high, low], Segments([high, low], 0x48, 0x48))
            && AllRight([low, high], Segments([low, high], 0x48, 0x48))
  {
    hide Segments, AllRight, TableOk, InOrder;
    var high := Cap(ID_PM, 0x80, 2, 8, false, false, false);
    var low := Cap(ID_MSIX, 0x50, 2, 12, false, false, false);
    TwoCapabilities(high, low);
    TwoCapabilities(low, high);
    PairInOrderIff(high, low, 0x48, 0x48);
    PairInOrderIff(low, high, 0x48, 0x48);
    RoutingExact([high, low], 0x48, 0x48);
    RoutingExact([low, high], 0x48, 0x48);
  }
}
