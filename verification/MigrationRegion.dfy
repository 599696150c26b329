/**
 The migration region as the library holds it (lib/migration.c): fields that the register handlers
 update, and the callbacks they make, here into the sample device. Each handler is proved against
 the value-level access, and the callback it makes against the value-level one.
 */
module MigrationRegion {
  import opened Common
  import opened Migration
  import opened SampleServer
  import opened SampleDevice

  class Region {
    const dataOffset: nat
    var state: nat
    var iter: Iteration
    var pending: nat
    var offset: nat
    var size: nat

    function Abs(): Migr
      reads this
    {
      Migr(state, iter, pending, offset, size, dataOffset)
    }

    /** init_migration() */
    constructor (dataOffset: nat)
      ensures Abs() == Init(dataOffset)
    {
      this.dataOffset := dataOffset;
      state, iter, pending, offset, size := RUNNING, Initial, 0, 0, 0;
    }

    /** handle_device_state() */
    method HandleDeviceState(q: Req, dev: Device, timer: bool) returns (r: Reply, made: Option<Call>)
      requires q.pos == DEVICE_STATE && q.count == 4
      modifies this, dev, dev.bar1
      ensures Served(old(Abs()), old(dev.Abs()), q, timer, made, Abs(), dev.Abs(), r)
    {
      hide ValidTransition, Respond;
      if !q.isWrite {
        return Done(q, 0, state, []), None;
      }
      if q.value >= STATES || !ValidTransition(state, q.value) {
        return Fail(EINVAL), None;
      }
      if q.value == ERROR {
        return Abort, None;
      }
      made := Some(Transition(q.value));
      var ok, a := dev.Callback(Transition(q.value), timer);
      if !ok {
        return Abort, made;
      }
      if a.ret == 0 {
        state := q.value;
        iter := Initial;
      }
      r := Done(q, a.ret, 0, []);
    }

    /** handle_pending_bytes() */
    method HandlePendingBytes(q: Req, dev: Device, timer: bool) returns (r: Reply, made: Option<Call>)
      requires q.pos == PENDING_BYTES && q.count == 8
      modifies this, dev, dev.bar1
      ensures Served(old(Abs()), old(dev.Abs()), q, timer, made, Abs(), dev.Abs(), r)
    {
      hide Respond;
      made := None;
      if q.isWrite {
        return Fail(EINVAL), made;
      }
      if iter.Finished? {
        return Done(q, 0, 0, []), made;
      }
      if iter.Initial? || iter.Prepared? {
        made := Some(GetPending);
        var ok, a := dev.Callback(GetPending, timer);
        if !ok {
          return Abort, made;
        }
        pending := a.pending;
        iter := if pending == 0 then Finished else Started;
      }
      r := Done(q, 0, pending, []);
    }

    /** handle_data_offset_when_saving() */
    method DataOffsetWhenSaving(q: Req, dev: Device, timer: bool) returns (r: Reply, made: Option<Call>)
      requires q.pos == DATA_OFFSET && q.count == 8 && !q.isWrite && Saving(Abs())
      modifies this, dev, dev.bar1
      ensures Served(old(Abs()), old(dev.Abs()), q, timer, made, Abs(), dev.Abs(), r)
    {
      hide Respond;
      made := None;
      if iter.Started? {
        made := Some(PrepareSaving);
        var ok, a := dev.Callback(PrepareSaving, timer);
        if !ok {
          return Abort, made;
        }
        if a.ret < 0 {
          return Done(q, a.ret, 0, []), made;
        }
        offset, size := a.offset, a.size;
        iter := Prepared;
      } else if !iter.Prepared? {
        return Fail(EINVAL), made;
      }
      r := Done(q, 0, offset + dataOffset, []);
    }

    /** handle_data_offset() */
    method HandleDataOffset(q: Req, dev: Device, timer: bool) returns (r: Reply, made: Option<Call>)
      requires q.pos == DATA_OFFSET && q.count == 8
      modifies this, dev, dev.bar1
      ensures Served(old(Abs()), old(dev.Abs()), q, timer, made, Abs(), dev.Abs(), r)
    {
      hide Respond;
      made := None;
      if q.isWrite {
        return Fail(EINVAL), made;
      }
      if state == SAVING || state == PRE_COPY {
        r, made := DataOffsetWhenSaving(q, dev, timer);
      } else if state == RESUMING {
        made := Some(PrepareResuming);
        var ok, a := dev.Callback(PrepareResuming, timer);
        if !ok {
          return Abort, made;
        }
        r := if a.ret < 0 then Done(q, a.ret, 0, []) else Done(q, 0, a.offset + dataOffset, []);
      } else {
        r := Fail(EINVAL);
      }
    }

    /** handle_data_size() */
    method HandleDataSize(q: Req, dev: Device, timer: bool) returns (r: Reply, made: Option<Call>)
      requires q.pos == DATA_SIZE && q.count == 8
      modifies dev, dev.bar1
      ensures Served(Abs(), old(dev.Abs()), q, timer, made, Abs(), dev.Abs(), r)
    {
      hide Respond;
      made := None;
      if state == SAVING || state == PRE_COPY {
        if q.isWrite || (!iter.Started? && !iter.Prepared?) {
          return Fail(EINVAL), made;
        }
        return Done(q, 0, size, []), made;
      }
      if state != RESUMING {
        return Fail(EINVAL), made;
      }
      if !q.isWrite {
        return Done(q, 0, q.value, []), made;
      }
      made := Some(DataWritten(q.value));
      var ok, a := dev.Callback(DataWritten(q.value), timer);
      if !ok {
        return Abort, made;
      }
      r := Done(q, a.ret, 0, []);
    }

    /** migration_region_access_registers() */
    method AccessRegisters(q: Req, dev: Device, timer: bool) returns (r: Reply, made: Option<Call>)
      requires q.pos + q.count <= REGISTERS
      modifies this, dev, dev.bar1
      ensures Served(old(Abs()), old(dev.Abs()), q, timer, made, Abs(), dev.Abs(), r)
    {
      if q.pos == DEVICE_STATE && q.count == 4 {
        r, made := HandleDeviceState(q, dev, timer);
      } else if q.pos == PENDING_BYTES && q.count == 8 {
        r, made := HandlePendingBytes(q, dev, timer);
      } else if q.pos == DATA_OFFSET && q.count == 8 {
        r, made := HandleDataOffset(q, dev, timer);
      } else if q.pos == DATA_SIZE && q.count == 8 {
        r, made := HandleDataSize(q, dev, timer);
      } else {
        r, made := Fail(EINVAL), None;
      }
    }

    /** migration_region_access() */
    method RegionAccess(q: Req, dev: Device, timer: bool) returns (r: Reply, made: Option<Call>)
      modifies this, dev, dev.bar1
      ensures Served(old(Abs()), old(dev.Abs()), q, timer, made, Abs(), dev.Abs(), r)
    {
      hide Respond;
      if q.pos + q.count <= REGISTERS {
        r, made := AccessRegisters(q, dev, timer);
        return;
      }
      if q.pos < dataOffset {
        return Fail(EINVAL), None;
      }
      var pos := q.pos - dataOffset;
      made := Some(if q.isWrite then WriteData(q.data, pos) else ReadData(q.count, pos));
      var ok, a := dev.Callback(made.value, timer);
      r := if !ok then Abort else Done(q, a.ret, 0, if q.isWrite then [] else a.data);
    }
  }

  /** A server: the library's migration region and the device behind it. */
  class SampleHost {
    const region: Region
    const dev: Device
    const regionSize: nat
    ghost const Repr: set<object> := {region, dev, dev.bar1}

    ghost function State(): Server
      reads region, dev, dev.bar1
    {
      Server(region.Abs(), dev.Abs(), regionSize)
    }

    constructor (bar1Size: nat, dataOffset: nat, regionSize: nat)
      requires bar1Size > 0 && REGISTERS <= dataOffset && dataOffset + bar1Size + BAR0_SIZE <= regionSize
      ensures Fresh(State()) && fresh(Repr) && |State().d.bar1| == bar1Size
      ensures State().m.dataOffset == dataOffset && State().regionSize == regionSize
    {
      region := new Region(dataOffset);
      dev := new Device(bar1Size);
      this.regionSize := regionSize;
    }

    /** An access of the client to the migration region. */
    method ClientAccess(q: Req, timer: bool) returns (r: Reply)
      modifies Repr
      ensures r.Reply? ==> (State(), r) == MigrationAccess(old(State()), q, timer)
      ensures r.Abort? ==> MigrationAccess(old(State()), q, timer).1 == Abort
    {
      hide Access, CallOf, Respond;
      if region.state == STOP || q.pos + q.count > regionSize {
        return Fail(EINVAL);
      }
      var made;
      r, made := region.RegionAccess(q, dev, timer);
    }

    /** Writes of the guest that are served one after the other. */
    method GuestAccess(ws: seq<GuestWrite>, timer: bool)
      modifies Repr
      ensures State() == Guests(old(State()), ws, timer)
    {
      hide Guest, WriteBar;
      var i := 0;
      assert ws[..0] == [];
      while i < |ws|
        invariant i <= |ws|
        invariant State() == Guests(old(State()), ws[..i], timer)
      {
        assert ws[..i + 1][..i] == ws[..i];
        GuestStep(State(), ws[i], timer);
        if region.state != STOP && region.state != SAVING {
          dev.GuestWrites(ws[i], timer);
        }
        i := i + 1;
      }
      assert ws[..i] == ws;
    }
  }
}
