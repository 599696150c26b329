/**
 The description of a device region that the server encodes (lib/libvfio-user.c) and the
 client decodes (samples/client.c): little-endian structures, with a chain of capabilities
 behind a fixed header.
 */
module RegionInfo {
  import opened Common

  // ------------------------------------------------------- little-endian fields

  function Pow256(n: nat): pos {
    if n == 0 then 1 else 256 * Pow256(n - 1)
  }

  /** The n bytes of a number, least significant first. */
  function Le(v: nat, n: nat): (s: seq<byte>)
    ensures |s| == n
  {
    if n == 0 then [] else [v % 256] + Le(v / 256, n - 1)
  }

  function FromLe(s: seq<byte>): nat {
    if s == [] then 0 else s[0] as nat + 256 * FromLe(s[1..])
  }

  lemma {:induction false} FromLeOfLe(v: nat, n: nat)
    requires v < Pow256(n)
    ensures FromLe(Le(v, n)) == v
  {
    if n > 0 {
      FromLeOfLe(v / 256, n - 1);
      assert Le(v, n)[1..] == Le(v / 256, n - 1);
    }
  }

  lemma Widths()
    ensures Pow256(2) == 0x1_0000 && Pow256(4) == U32 && Pow256(8) == U64
  {
    assert Pow256(3) == 256 * Pow256(2);
    assert Pow256(4) == 256 * Pow256(3);
    assert Pow256(5) == 256 * Pow256(4);
    assert Pow256(6) == 256 * Pow256(5);
    assert Pow256(7) == 256 * Pow256(6);
  }

  /** The field of n bytes at an offset. */
  function Get(buf: seq<byte>, at: nat, n: nat): nat
    requires at + n <= |buf|
  {
    FromLe(buf[at..at + n])
  }

  function Put(buf: seq<byte>, at: nat, v: nat, n: nat): (r: seq<byte>)
    requires at + n <= |buf|
    ensures |r| == |buf|
  {
    Copy(buf, at, Le(v, n))
  }

  lemma PutGet(buf: seq<byte>, at: nat, v: nat, n: nat)
    requires at + n <= |buf| && v < Pow256(n)
    ensures Get(Put(buf, at, v, n), at, n) == v
  {
    FromLeOfLe(v, n);
    assert Put(buf, at, v, n)[at..at + n] == Le(v, n);
  }

  /** A field that does not overlap the one written keeps its value. */
  lemma PutOther(buf: seq<byte>, at: nat, v: nat, n: nat, at2: nat, n2: nat)
    requires at + n <= |buf| && at2 + n2 <= |buf| && (at2 + n2 <= at || at + n <= at2)
    ensures Get(Put(buf, at, v, n), at2, n2) == Get(buf, at2, n2)
  {
    assert Put(buf, at, v, n)[at2..at2 + n2] == buf[at2..at2 + n2];
  }

  // ------------------------------------------------------------- the structures

  /** Sizes of struct vfio_region_info, of the two capabilities, and of one sparse area. */
  const INFO := 32
  const TYPE_CAP := 16
  const SPARSE_CAP := 16
  const AREA := 16

  const CAP_SPARSE_MMAP := 1
  const CAP_TYPE := 2
  const TYPE_MIGRATION := 3
  const SUBTYPE_MIGRATION := 1

  const FLAG_READ := 1
  const FLAG_WRITE := 2
  const FLAG_MMAP := 4
  const FLAG_CAPS := 8

  datatype Area = Area(offset: nat, size: nat)

  /** A region as it was set up. */
  datatype Reg = Reg(readable: bool, writable: bool, size: nat, mappable: bool, areas: seq<Area>, isMigr: bool)

  /** get_vfio_caps_size() */
  function CapsSize(reg: Reg): nat {
    (if reg.isMigr then TYPE_CAP else 0) + if reg.areas == [] then 0 else SPARSE_CAP + |reg.areas| * AREA
  }

  /** Numbers fit the fields that hold them. */
  predicate Encodable(reg: Reg, index: nat) {
    && reg.size < U32 && index < 0x100_0000
    && INFO + CapsSize(reg) < U32
    && forall i :: 0 <= i < |reg.areas| ==> reg.areas[i].offset < U64 && reg.areas[i].size < U64
  }

  function Flags(reg: Reg): nat {
    (if reg.readable then FLAG_READ else 0) + (if reg.writable then FLAG_WRITE else 0) +
    (if reg.mappable then FLAG_MMAP else 0) + (if CapsSize(reg) > 0 then FLAG_CAPS else 0)
  }

  /** Where the sparse capability goes: behind the type capability if there is one. */
  function SparseAt(reg: Reg): nat {
    if reg.isMigr then INFO + TYPE_CAP else INFO
  }

  function PutInfo(buf: seq<byte>, reg: Reg, index: nat, capOffset: nat): (r: seq<byte>)
    requires |buf| >= INFO
    ensures |r| == |buf|
  {
    var b := Put(Put(Put(buf, 0, INFO + CapsSize(reg), 4), 4, Flags(reg), 4), 8, index, 4);
    Put(Put(Put(b, 12, capOffset, 4), 16, reg.size, 8), 24, index * 0x100_0000_0000, 8)
  }

  function PutType(buf: seq<byte>, next: nat): (r: seq<byte>)
    requires |buf| >= INFO + TYPE_CAP
    ensures |r| == |buf|
  {
    var b := Put(Put(Put(buf, INFO, CAP_TYPE, 2), INFO + 2, 1, 2), INFO + 4, next, 4);
    Put(Put(b, INFO + 8, TYPE_MIGRATION, 4), INFO + 12, SUBTYPE_MIGRATION, 4)
  }

  function PutSparse(buf: seq<byte>, at: nat, n: nat): (r: seq<byte>)
    requires |buf| >= at + SPARSE_CAP
    ensures |r| == |buf|
  {
    Put(Put(Put(Put(buf, at, CAP_SPARSE_MMAP, 2), at + 2, 1, 2), at + 4, 0, 4), at + 8, n, 4)
  }

  /** The first n areas of the sparse capability. */
  function PutAreas(buf: seq<byte>, at: nat, areas: seq<Area>, n: nat): (r: seq<byte>)
    requires n <= |areas| && at + SPARSE_CAP + n * AREA <= |buf|
    ensures |r| == |buf|
  {
    if n == 0 then buf
    else
      var b := PutAreas(buf, at, areas, n - 1);
      var a := at + SPARSE_CAP + (n - 1) * AREA;
      Put(Put(b, a, areas[n - 1].offset, 8), a + 8, areas[n - 1].size, 8)
  }

  /** dev_get_caps() */
  function PutCaps(buf: seq<byte>, reg: Reg): (r: seq<byte>)
    requires |buf| >= INFO + CapsSize(reg)
    ensures |r| == |buf|
  {
    var b := if reg.isMigr then PutType(buf, if reg.areas == [] then 0 else INFO + TYPE_CAP) else buf;
    if reg.areas == [] then b
    else PutAreas(PutSparse(b, SparseAt(reg), |reg.areas|), SparseAt(reg), reg.areas, |reg.areas|)
  }

  function Zeros(n: nat): (s: seq<byte>)
    ensures |s| == n
  {
    seq(n, _ => 0)
  }

  /** dev_get_reginfo() for a buffer of argsz bytes; None (EINVAL) if it cannot hold the header. */
  function Reply(reg: Reg, index: nat, argsz: nat): (r: Option<seq<byte>>)
    ensures r.Some? ==> |r.value| == argsz
  {
    if argsz < INFO then None
    else if CapsSize(reg) > 0 && argsz >= INFO + CapsSize(reg) then
      Some(PutCaps(PutInfo(Zeros(argsz), reg, index, INFO), reg))
    else Some(PutInfo(Zeros(argsz), reg, index, 0))
  }

  // ------------------------------------------------------------------ decoding

  /** What the client learns from the capabilities: whether this is the migration region, and where the areas are. */
  datatype Caps = Caps(migr: bool, sparseAt: Option<nat>)

  /**
   get_region_vfio_caps(): follows the chain from a header; None if the buffer is not one the
   client accepts. A link is relative to the header it is in, less the size of the fixed part.
   */
  function Walk(buf: seq<byte>, at: nat, seen: Caps): (r: Option<Caps>)
    decreases if at <= |buf| then |buf| - at else 0
  {
    if at + TYPE_CAP > |buf| then None
    else
      var id, next := Get(buf, at, 2), Get(buf, at + 4, 4);
      if id != CAP_SPARSE_MMAP && id != CAP_TYPE then None
      else if id == CAP_TYPE
              && (Get(buf, at + 8, 4) != TYPE_MIGRATION || Get(buf, at + 12, 4) != SUBTYPE_MIGRATION) then None
      else
        var now := if id == CAP_TYPE then seen.(migr := true) else seen.(sparseAt := Some(at));
        if next == 0 then Some(now)
        else if next <= INFO then None
        else Walk(buf, at + next - INFO, now)
  }

  /** The areas that a sparse capability lists. */
  function AreasFrom(buf: seq<byte>, at: nat, n: nat): (r: seq<Area>)
    requires at + SPARSE_CAP + n * AREA <= |buf|
    ensures |r| == n
  {
    if n == 0 then []
    else
      var a := at + SPARSE_CAP + (n - 1) * AREA;
      AreasFrom(buf, at, n - 1) + [Area(Get(buf, a, 8), Get(buf, a + 8, 8))]
  }

  // ----------------------------------------------------------------- round trip

  /** PutGet and PutOther together, for every other field. */
  lemma PutField(buf: seq<byte>, at: nat, v: nat, n: nat)
    requires at + n <= |buf| && v < Pow256(n)
    ensures Get(Put(buf, at, v, n), at, n) == v
    ensures forall a: nat, m: nat {:trigger Get(Put(buf, at, v, n), a, m)} ::
              a + m <= |buf| && (a + m <= at || at + n <= a) ==> Get(Put(buf, at, v, n), a, m) == Get(buf, a, m)
  {
    hide Get, Put, Pow256;
    PutGet(buf, at, v, n);
    forall a: nat, m: nat | a + m <= |buf| && (a + m <= at || at + n <= a)
      ensures Get(Put(buf, at, v, n), a, m) == Get(buf, a, m)
    {
      PutOther(buf, at, v, n, a, m);
    }
  }

  lemma InfoFields(buf: seq<byte>, reg: Reg, index: nat, capOffset: nat)
    requires |buf| >= INFO && Encodable(reg, index) && capOffset <= INFO
    ensures var b := PutInfo(buf, reg, index, capOffset);
            && Get(b, 0, 4) == INFO + CapsSize(reg) && Get(b, 4, 4) == Flags(reg) && Get(b, 8, 4) == index
            && Get(b, 12, 4) == capOffset && Get(b, 16, 8) == reg.size && Get(b, 24, 8) == index * 0x100_0000_0000
  {
    hide Get, Put, Pow256, CapsSize;
    Widths();
    var b1 := Put(buf, 0, INFO + CapsSize(reg), 4);
    PutField(buf, 0, INFO + CapsSize(reg), 4);
    PutField(b1, 4, Flags(reg), 4);
    var b2 := Put(b1, 4, Flags(reg), 4);
    PutField(b2, 8, index, 4);
    var b3 := Put(b2, 8, index, 4);
    PutField(b3, 12, capOffset, 4);
    var b4 := Put(b3, 12, capOffset, 4);
    PutField(b4, 16, reg.size, 8);
    var b5 := Put(b4, 16, reg.size, 8);
    PutField(b5, 24, index * 0x100_0000_0000, 8);
  }

  /** Each bit of the flags says what the region is. */
  lemma FlagBits(reg: Reg)
    ensures FlagsSay(Flags(reg), reg)
  {
    hide CapsSize;
    CapsSizeZeroIff(reg);
  }

  /** The four bits of a flags field: readable, writable, mappable, and capabilities behind the header. */
  predicate FlagsSay(f: nat, reg: Reg) {
    && f < 16
    && (f % 2 == 1 <==> reg.readable) && (f / 2 % 2 == 1 <==> reg.writable)
    && (f / 4 % 2 == 1 <==> reg.mappable) && (f / 8 % 2 == 1 <==> reg.isMigr || reg.areas != [])
  }

  lemma CapsSizeZeroIff(reg: Reg)
    ensures CapsSize(reg) > 0 <==> reg.isMigr || reg.areas != []
  {
  }

  lemma TypeFields(buf: seq<byte>, next: nat)
    requires |buf| >= INFO + TYPE_CAP && next < U32
    ensures var b := PutType(buf, next);
            && Get(b, INFO, 2) == CAP_TYPE && Get(b, INFO + 2, 2) == 1 && Get(b, INFO + 4, 4) == next
            && Get(b, INFO + 8, 4) == TYPE_MIGRATION && Get(b, INFO + 12, 4) == SUBTYPE_MIGRATION
    ensures forall a: nat, m: nat {:trigger Get(PutType(buf, next), a, m)} ::
              a + m <= |buf| && (a + m <= INFO || INFO + TYPE_CAP <= a) ==>
                Get(PutType(buf, next), a, m) == Get(buf, a, m)
  {
    hide Get, Put, Pow256;
    Widths();
    var b1 := Put(buf, INFO, CAP_TYPE, 2);
    PutField(buf, INFO, CAP_TYPE, 2);
    PutField(b1, INFO + 2, 1, 2);
    var b2 := Put(b1, INFO + 2, 1, 2);
    PutField(b2, INFO + 4, next, 4);
    var b3 := Put(b2, INFO + 4, next, 4);
    PutField(b3, INFO + 8, TYPE_MIGRATION, 4);
    var b4 := Put(b3, INFO + 8, TYPE_MIGRATION, 4);
    PutField(b4, INFO + 12, SUBTYPE_MIGRATION, 4);
  }

  lemma SparseFields(buf: seq<byte>, at: nat, n: nat)
    requires |buf| >= at + SPARSE_CAP && n < U32
    ensures var b := PutSparse(buf, at, n);
            && Get(b, at, 2) == CAP_SPARSE_MMAP && Get(b, at + 2, 2) == 1
            && Get(b, at + 4, 4) == 0 && Get(b, at + 8, 4) == n
    ensures forall a: nat, m: nat {:trigger Get(PutSparse(buf, at, n), a, m)} ::
              a + m <= at ==> Get(PutSparse(buf, at, n), a, m) == Get(buf, a, m)
  {
    hide Get, Put, Pow256;
    Widths();
    var b1 := Put(buf, at, CAP_SPARSE_MMAP, 2);
    PutField(buf, at, CAP_SPARSE_MMAP, 2);
    PutField(b1, at + 2, 1, 2);
    var b2 := Put(b1, at + 2, 1, 2);
    PutField(b2, at + 4, 0, 4);
    var b3 := Put(b2, at + 4, 0, 4);
    PutField(b3, at + 8, n, 4);
  }

  predicate AreasFit(areas: seq<Area>) {
    forall i :: 0 <= i < |areas| ==> areas[i].offset < U64 && areas[i].size < U64
  }

  /** Writing an area behind the first n leaves those as they are. */
  lemma {:induction false} AreasKept(buf: seq<byte>, b: seq<byte>, at: nat, n: nat)
    requires |b| == |buf| && at + SPARSE_CAP + n * AREA <= |buf|
    requires forall a: nat, m: nat {:trigger Get(b, a, m)} ::
               a + m <= at + SPARSE_CAP + n * AREA ==> Get(b, a, m) == Get(buf, a, m)
    ensures AreasFrom(b, at, n) == AreasFrom(buf, at, n)
  {
    hide Get;
    if n > 0 {
      AreasKept(buf, b, at, n - 1);
    }
  }

  /** Decoding the encoded areas gives back the areas; fields in front of them are kept. */
  lemma {:induction false} AreasRoundTrip(buf: seq<byte>, at: nat, areas: seq<Area>, n: nat)
    requires n <= |areas| && at + SPARSE_CAP + n * AREA <= |buf| && AreasFit(areas)
    ensures AreasFrom(PutAreas(buf, at, areas, n), at, n) == areas[..n]
    ensures forall a: nat, m: nat {:trigger Get(PutAreas(buf, at, areas, n), a, m)} ::
              a + m <= at + SPARSE_CAP ==> Get(PutAreas(buf, at, areas, n), a, m) == Get(buf, a, m)
  {
    hide Get, Put, Pow256;
    if n > 0 {
      Widths();
      var b := PutAreas(buf, at, areas, n - 1);
      AreasRoundTrip(buf, at, areas, n - 1);
      var a := at + SPARSE_CAP + (n - 1) * AREA;
      var c := Put(b, a, areas[n - 1].offset, 8);
      PutField(b, a, areas[n - 1].offset, 8);
      PutField(c, a + 8, areas[n - 1].size, 8);
      AreasKept(b, Put(c, a + 8, areas[n - 1].size, 8), at, n - 1);
      assert areas[..n] == areas[..n - 1] + [areas[n - 1]];
    }
  }

  /** What the client finds in a buffer that holds the capabilities of a region. */
  predicate Holds(buf: seq<byte>, reg: Reg) {
    && |buf| >= INFO + CapsSize(reg)
    && (CapsSize(reg) > 0 ==>
          Walk(buf, INFO, Caps(false, None)) ==
          Some(Caps(reg.isMigr, if reg.areas == [] then None else Some(SparseAt(reg)))))
    && (reg.areas != [] ==>
          && Get(buf, SparseAt(reg) + 8, 4) == |reg.areas|
          && AreasFrom(buf, SparseAt(reg), |reg.areas|) == reg.areas)
  }

  lemma WalkType(buf: seq<byte>, next: nat)
    requires |buf| >= INFO + TYPE_CAP && (next == 0 || next == INFO + TYPE_CAP)
    requires Get(buf, INFO, 2) == CAP_TYPE && Get(buf, INFO + 4, 4) == next
    requires Get(buf, INFO + 8, 4) == TYPE_MIGRATION && Get(buf, INFO + 12, 4) == SUBTYPE_MIGRATION
    ensures Walk(buf, INFO, Caps(false, None)) ==
            if next == 0 then Some(Caps(true, None)) else Walk(buf, INFO + TYPE_CAP, Caps(true, None))
  {
    hide Get;
  }

  lemma WalkSparse(buf: seq<byte>, at: nat, seen: Caps)
    requires |buf| >= at + SPARSE_CAP
    requires Get(buf, at, 2) == CAP_SPARSE_MMAP && Get(buf, at + 4, 4) == 0
    ensures Walk(buf, at, seen) == Some(seen.(sparseAt := Some(at)))
  {
    hide Get;
  }

  /** The client recovers exactly the type and the areas that were encoded. */
  lemma CapsRoundTrip(buf: seq<byte>, reg: Reg, index: nat)
    requires |buf| >= INFO + CapsSize(reg) && CapsSize(reg) > 0 && Encodable(reg, index)
    ensures Holds(PutCaps(buf, reg), reg)
  {
    hide Get, Put, PutType, PutSparse, PutAreas, AreasFrom, Walk;
    var next := if reg.areas == [] then 0 else INFO + TYPE_CAP;
    var b := if reg.isMigr then PutType(buf, next) else buf;
    if reg.isMigr {
      TypeFields(buf, next);
    }
    if reg.areas == [] {
      WalkType(b, 0);
    } else {
      var at, n := SparseAt(reg), |reg.areas|;
      var c := PutSparse(b, at, n);
      SparseFields(b, at, n);
      AreasRoundTrip(c, at, reg.areas, n);
      var d := PutAreas(c, at, reg.areas, n);
      assert reg.areas[..n] == reg.areas;
      if reg.isMigr {
        WalkType(d, next);
        WalkSparse(d, at, Caps(true, None));
      } else {
        WalkSparse(d, at, Caps(false, None));
      }
    }
  }

  lemma {:induction false} AreasFromAt(buf: seq<byte>, at: nat, n: nat, i: nat)
    requires at + 16 + n * 16 <= |buf| && i < n
    ensures at + 16 + i * 16 + 16 <= |buf|
    ensures AreasFrom(buf, at, n)[i] == Area(Get(buf, at + 16 + i * 16, 8), Get(buf, at + 16 + i * 16 + 8, 8))
  {
    hide Get;
    if i < n - 1 {
      AreasFromAt(buf, at, n - 1, i);
    }
  }

  /** The type capability as it stands in the reply: id 2, version 1, the link, type 3 and subtype 1. */
  predicate TypeAt(buf: seq<byte>, at: nat, next: nat)
    requires at + 16 <= |buf|
  {
    && Get(buf, at, 2) == 2 && Get(buf, at + 2, 2) == 1 && Get(buf, at + 4, 4) == next
    && Get(buf, at + 8, 4) == 3 && Get(buf, at + 12, 4) == 1
  }

  /** The sparse capability: id 1, version 1, no link, the number of areas, and 16 bytes for each of them. */
  predicate SparseIs(buf: seq<byte>, at: nat, areas: seq<Area>)
    requires at + 16 + |areas| * 16 <= |buf|
  {
    && Get(buf, at, 2) == 1 && Get(buf, at + 2, 2) == 1 && Get(buf, at + 4, 4) == 0 && Get(buf, at + 8, 4) == |areas|
    && forall i :: 0 <= i < |areas| ==>
         && at + 16 + i * 16 + 16 <= |buf|
         && Get(buf, at + 16 + i * 16, 8) == areas[i].offset && Get(buf, at + 16 + i * 16 + 8, 8) == areas[i].size
  }

  /** The bytes behind the header, field by field: the type capability first, then the areas. */
  lemma CapsLayout(buf: seq<byte>, reg: Reg, index: nat)
    requires |buf| >= 32 + CapsSize(reg) && Encodable(reg, index)
    ensures var b := PutCaps(buf, reg);
            && (reg.isMigr ==> TypeAt(b, 32, if reg.areas == [] then 0 else 48))
            && (reg.areas != [] ==> SparseIs(b, if reg.isMigr then 48 else 32, reg.areas))
  {
    hide Get, Put, PutType, PutSparse, PutAreas, AreasFrom;
    var next := if reg.areas == [] then 0 else INFO + TYPE_CAP;
    var b := if reg.isMigr then PutType(buf, next) else buf;
    if reg.isMigr {
      TypeFields(buf, next);
    }
    if reg.areas != [] {
      var at, n := SparseAt(reg), |reg.areas|;
      SparseFields(b, at, n);
      var c := PutSparse(b, at, n);
      AreasRoundTrip(c, at, reg.areas, n);
      assert reg.areas[..n] == reg.areas;
      forall i | 0 <= i < n
        ensures var d := PutAreas(c, at, reg.areas, n);
                && at + 16 + i * 16 + 16 <= |d|
                && Get(d, at + 16 + i * 16, 8) == reg.areas[i].offset
                && Get(d, at + 16 + i * 16 + 8, 8) == reg.areas[i].size
      {
        AreasFromAt(PutAreas(c, at, reg.areas, n), at, n, i);
      }
    }
  }

  lemma CapsKeepInfo(buf: seq<byte>, reg: Reg, index: nat, a: nat, m: nat)
    requires |buf| >= INFO + CapsSize(reg) && Encodable(reg, index) && a + m <= INFO
    ensures Get(PutCaps(buf, reg), a, m) == Get(buf, a, m)
  {
    hide Get, Put, PutType, PutSparse, PutAreas, AreasFrom;
    var next := if reg.areas == [] then 0 else INFO + TYPE_CAP;
    var b := if reg.isMigr then PutType(buf, next) else buf;
    if reg.isMigr {
      TypeFields(buf, next);
    }
    if reg.areas != [] {
      SparseFields(b, SparseAt(reg), |reg.areas|);
      AreasRoundTrip(PutSparse(b, SparseAt(reg), |reg.areas|), SparseAt(reg), reg.areas, |reg.areas|);
    }
  }

  /**
   The fields of the reply to a buffer of any size that can hold the header: the size that is needed,
   the flags bit by bit, the index, where the capabilities start (0 unless there are any and they
   fit), the size of the region, and the offset of the region, which has the index above bit 40.
   */
  lemma ReplyFields(reg: Reg, index: nat, argsz: nat)
    requires Encodable(reg, index) && argsz >= 32
    ensures var r := Reply(reg, index, argsz);
            var caps := 16 * ((if reg.isMigr then 1 else 0) + if reg.areas == [] then 0 else 1 + |reg.areas|);
            && r.Some? && |r.value| == argsz
            && Get(r.value, 0, 4) == 32 + caps && FlagsSay(Get(r.value, 4, 4), reg) && Get(r.value, 8, 4) == index
            && Get(r.value, 12, 4) == (if 0 < caps && 32 + caps <= argsz then 32 else 0)
            && Get(r.value, 16, 8) == reg.size && Get(r.value, 24, 8) == index * 0x100_0000_0000
  {
    hide Get, Put, PutInfo, PutCaps, Zeros, Flags, FlagsSay;
    FlagBits(reg);
    if CapsSize(reg) > 0 && argsz >= INFO + CapsSize(reg) {
      InfoFields(Zeros(argsz), reg, index, INFO);
      var b := PutInfo(Zeros(argsz), reg, index, INFO);
      CapsKeepInfo(b, reg, index, 0, 4);
      CapsKeepInfo(b, reg, index, 4, 4);
      CapsKeepInfo(b, reg, index, 8, 4);
      CapsKeepInfo(b, reg, index, 12, 4);
      CapsKeepInfo(b, reg, index, 16, 8);
      CapsKeepInfo(b, reg, index, 24, 8);
    } else {
      InfoFields(Zeros(argsz), reg, index, 0);
    }
  }

  /**
   The two calls of the client: the reply to a bare header announces the size that is needed,
   and the reply to a buffer of exactly that size announces the same size and holds everything.
   */
  lemma Negotiation(reg: Reg, index: nat)
    requires Encodable(reg, index)
    ensures Reply(reg, index, INFO).Some? && Get(Reply(reg, index, INFO).value, 0, 4) == INFO + CapsSize(reg)
    ensures var second := Reply(reg, index, INFO + CapsSize(reg));
            && second.Some? && |second.value| == INFO + CapsSize(reg)
            && Get(second.value, 0, 4) == |second.value|
            && (CapsSize(reg) > 0 ==> Holds(second.value, reg))
  {
    hide Get, Put, PutInfo, PutCaps, Holds, Zeros;
    var size := INFO + CapsSize(reg);
    InfoFields(Zeros(INFO), reg, index, 0);
    if CapsSize(reg) > 0 {
      InfoFields(Zeros(size), reg, index, INFO);
      CapsRoundTrip(PutInfo(Zeros(size), reg, index, INFO), reg, index);
      CapsKeepInfo(PutInfo(Zeros(size), reg, index, INFO), reg, index, 0, 4);
    }
  }
}
