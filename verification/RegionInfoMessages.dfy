/**
 The two ends of a region info exchange: the server fills a buffer in place
 (lib/libvfio-user.c), the client asks twice and walks the capabilities (samples/client.c).
 */
module RegionInfoMessages {
  import opened Common
  import opened RegionInfo

  // ------------------------------------------------------------------- server

  /** Stores a little-endian field. */
  method WriteField(a: array<byte>, at: nat, v: nat, n: nat)
    requires at + n <= a.Length
    modifies a
    ensures a[..] == Put(old(a[..]), at, v, n)
  {
    var x, i := v, 0;
    while i < n
      invariant 0 <= x && i <= n && Le(v, n)[i..] == Le(x, n - i)
      invariant forall k :: 0 <= k < a.Length ==>
        a[k] == if at <= k < at + i then Le(v, n)[k - at] else old(a[k])
    {
      assert Le(v, n)[i] == Le(v, n)[i..][0] == x % 256;
      assert Le(v, n)[i + 1..] == Le(v, n)[i..][1..];
      a[at + i] := x % 256;
      x := x / 256;
      i := i + 1;
    }
    assert a[..] == Put(old(a[..]), at, v, n);
  }

  /** A descriptor of the region's file for each of its areas. */
  function FdPerArea(reg: Reg, fd: int): seq<int> {
    seq(|reg.areas|, _ => fd)
  }

  /** dev_get_caps(); it asserts that the client can take a descriptor for each area. */
  method DevGetCaps(a: array<byte>, reg: Reg, fd: int, clientMaxFds: nat) returns (fds: seq<int>)
    requires a.Length >= INFO + CapsSize(reg) && |reg.areas| <= clientMaxFds
    modifies a
    ensures a[..] == PutCaps(old(a[..]), reg)
    ensures fds == FdPerArea(reg, fd) && |fds| <= clientMaxFds
  {
    hide Put;
    fds := [];
    if reg.isMigr {
      WriteField(a, INFO, CAP_TYPE, 2);
      WriteField(a, INFO + 2, 1, 2);
      WriteField(a, INFO + 4, if reg.areas == [] then 0 else INFO + TYPE_CAP, 4);
      WriteField(a, INFO + 8, TYPE_MIGRATION, 4);
      WriteField(a, INFO + 12, SUBTYPE_MIGRATION, 4);
    }
    if reg.areas != [] {
      var at := SparseAt(reg);
      WriteField(a, at, CAP_SPARSE_MMAP, 2);
      WriteField(a, at + 2, 1, 2);
      WriteField(a, at + 4, 0, 4);
      WriteField(a, at + 8, |reg.areas|, 4);
      ghost var b := a[..];
      var i := 0;
      while i < |reg.areas|
        invariant i <= |reg.areas| && a[..] == PutAreas(b, at, reg.areas, i)
        invariant |fds| == i && forall k :: 0 <= k < i ==> fds[k] == fd
      {
        fds := fds + [fd];
        WriteField(a, at + SPARSE_CAP + i * AREA, reg.areas[i].offset, 8);
        WriteField(a, at + SPARSE_CAP + i * AREA + 8, reg.areas[i].size, 8);
        i := i + 1;
      }
    }
  }

  /** dev_get_reginfo(): the reply, and the descriptors that go with it. */
  method DevGetRegInfo(reg: Reg, index: nat, argsz: nat, fd: int, clientMaxFds: nat)
    returns (buf: Option<seq<byte>>, fds: seq<int>)
    requires |reg.areas| <= clientMaxFds || argsz < INFO + CapsSize(reg)
    ensures buf == Reply(reg, index, argsz)
    ensures fds == if argsz >= INFO + CapsSize(reg) then FdPerArea(reg, fd) else []
  {
    hide Put, PutCaps;
    fds := [];
    if argsz < INFO {
      return None, fds;
    }
    var a := new byte[argsz](_ => 0);
    assert a[..] == Zeros(argsz);
    var full := CapsSize(reg) > 0 && argsz >= INFO + CapsSize(reg);
    WriteField(a, 0, INFO + CapsSize(reg), 4);
    WriteField(a, 4, Flags(reg), 4);
    WriteField(a, 8, index, 4);
    WriteField(a, 12, if full then INFO else 0, 4);
    WriteField(a, 16, reg.size, 8);
    WriteField(a, 24, index * 0x100_0000_0000, 8);
    if full {
      fds := DevGetCaps(a, reg, fd, clientMaxFds);
    }
    buf := Some(a[..]);
  }

  // ------------------------------------------------------------------- client

  /** get_region_vfio_caps() on a buffer that the client accepts. */
  method GetRegionVfioCaps(buf: seq<byte>) returns (caps: Caps)
    requires Walk(buf, INFO, Caps(false, None)).Some?
    ensures Some(caps) == Walk(buf, INFO, Caps(false, None))
  {
    hide Get;
    var at := INFO;
    caps := Caps(false, None);
    while true
      invariant 0 <= at && Walk(buf, INFO, Caps(false, None)) == Walk(buf, at, caps)
      decreases if at <= |buf| then |buf| - at else 0
    {
      var id, next := Get(buf, at, 2), Get(buf, at + 4, 4);
      caps := if id == CAP_TYPE then caps.(migr := true) else caps.(sparseAt := Some(at));
      if next == 0 {
        return;
      }
      at := at + next - INFO;
    }
  }

  /** The areas that a sparse capability lists. */
  method ReadAreas(buf: seq<byte>, at: nat) returns (areas: seq<Area>)
    requires at + SPARSE_CAP <= |buf| && at + SPARSE_CAP + Get(buf, at + 8, 4) * AREA <= |buf|
    ensures areas == AreasFrom(buf, at, Get(buf, at + 8, 4))
  {
    hide Get;
    var n := Get(buf, at + 8, 4);
    areas := [];
    var i := 0;
    while i < n
      invariant i <= n && areas == AreasFrom(buf, at, i)
    {
      var a := at + SPARSE_CAP + i * AREA;
      areas := areas + [Area(Get(buf, a, 8), Get(buf, a + 8, 8))];
      i := i + 1;
    }
  }

  /**
   get_device_region_info(): asks with a bare header, then with a buffer of the announced size.
   The client learns exactly whether this is the migration region and which areas can be mapped,
   and gets a descriptor for each of them.
   */
  method GetDeviceRegionInfo(reg: Reg, index: nat, fd: int, clientMaxFds: nat)
    returns (migr: bool, areas: seq<Area>, fds: seq<int>)
    requires Encodable(reg, index) && |reg.areas| <= clientMaxFds
    ensures migr == reg.isMigr && areas == reg.areas && fds == FdPerArea(reg, fd)
  {
    hide Get, Reply, Walk, AreasFrom;
    Negotiation(reg, index);
    migr, areas := false, [];
    var reply;
    reply, fds := DevGetRegInfo(reg, index, INFO, fd, clientMaxFds);
    var size := Get(reply.value, 0, 4);
    if size > INFO {
      reply, fds := DevGetRegInfo(reg, index, size, fd, clientMaxFds);
      var buf := reply.value;
      assert Get(buf, 0, 4) == size;
      var caps := GetRegionVfioCaps(buf);
      migr := caps.migr;
      if caps.sparseAt.Some? {
        areas := ReadAreas(buf, caps.sparseAt.value);
      }
    }
  }
}
