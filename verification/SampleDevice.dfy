/**
 The sample device as the server holds it (samples/server.c): the callbacks change the BARs and
 the pending count in place.
 */
module SampleDevice {
  import opened Common
  import opened Migration
  import opened SampleServer

  class Device {
    var bar0: seq<byte>
    const bar1: array<byte>
    var pending: nat
    var st: nat

    ghost function Abs(): Dev
      reads this, bar1
    {
      Dev(bar0, bar1[..], pending, st)
    }

    constructor (bar1Size: nat)
      ensures Abs() == Dev(seq(BAR0_SIZE, _ => 0), seq(bar1Size, _ => 0), 0, RUNNING)
      ensures fresh(bar1)
    {
      bar0 := seq(BAR0_SIZE, _ => 0);
      bar1 := new byte[bar1Size](_ => 0);
      pending, st := 0, RUNNING;
      new;
      assert bar1[..] == seq(bar1Size, _ => 0);
    }

    /** Copies bytes into BAR1. */
    method Fill(off: nat, bytes: seq<byte>)
      requires off + |bytes| <= bar1.Length
      modifies bar1
      ensures bar1[..] == old(bar1[..off]) + bytes + old(bar1[off + |bytes|..])
    {
      var i := 0;
      while i < |bytes|
        invariant i <= |bytes|
        invariant forall k :: 0 <= k < bar1.Length ==>
          bar1[k] == if off <= k < off + i then bytes[k - off] else old(bar1[k])
      {
        bar1[off + i] := bytes[i];
        i := i + 1;
      }
    }

    /** migration_device_state_transition(); not ok if its assertion fails. */
    method ChangeState(to: nat, timer: bool) returns (ok: bool, a: Answer)
      modifies this
      ensures ok ==> Some((Abs(), a)) == ToState(old(Abs()), to, timer)
      ensures !ok ==> Abs() == old(Abs()) && ToState(Abs(), to, timer).None?
    {
      ok, a := true, Ok(0);
      if to == SAVING {
        pending := bar1.Length + BAR0_SIZE;
      } else if to == PRE_COPY {
        pending := bar1.Length;
      } else if to == STOP {
        if pending != 0 {
          return false, a;
        }
      } else if to == RUNNING && !timer {
        return true, Ok(-1);
      }
      st := to;
    }

    /** migration_read_data() */
    method ReadData(size: nat, pos: nat) returns (a: Answer)
      modifies this
      ensures (Abs(), a) == ReadOut(old(Abs()), size, pos)
    {
      if st != PRE_COPY && st != SAVING {
        return Answer(size, 0, 0, 0, seq(size, _ => 0));
      }
      if pos != 0 || size != pending {
        return Ok(-EINVAL);
      }
      var buf := bar1[..];
      if st == SAVING {
        buf := buf + bar0;
      }
      pending := 0;
      return Answer(size, 0, 0, 0, buf);
    }

    /** migration_write_data(); not ok if its assertion fails. */
    method WriteData(bytes: seq<byte>, pos: nat, timer: bool) returns (ok: bool, a: Answer)
      modifies this, bar1
      ensures ok ==> Some((Abs(), a)) == WriteIn(old(Abs()), bytes, pos, timer)
      ensures !ok ==> WriteIn(old(Abs()), bytes, pos, timer).None?
    {
      var n := bar1.Length;
      if pos != 0 || |bytes| < n {
        return true, Ok(-EINVAL);
      }
      Fill(0, bytes[..n]);
      assert bar1[..] == bytes[..n];
      if |bytes| == n {
        assert bytes[..n] == bytes;
        return true, Ok(0);
      }
      if |bytes| - n != BAR0_SIZE {
        return true, Ok(-EINVAL);
      }
      bar0 := bytes[n..];
      if st == RUNNING && !timer {
        return false, Ok(0);
      }
      return true, Ok(0);
    }

    /** Runs the callback that the library makes. */
    method Callback(c: Call, timer: bool) returns (ok: bool, a: Answer)
      modifies this, bar1
      ensures ok ==> Some((Abs(), a)) == Respond(old(Abs()), c, timer)
      ensures !ok ==> Respond(old(Abs()), c, timer).None?
    {
      hide ToState, ReadOut, WriteIn;
      ok := true;
      match c
      case Transition(to) => ok, a := ChangeState(to, timer);
      case GetPending => a := Answer(0, pending, 0, 0, []);
      case PrepareSaving => a := Answer(0, 0, 0, pending, []);
      case PrepareResuming => a := Ok(0);
      case ReadData(size, pos) => a := ReadData(size, pos);
      case WriteData(bytes, pos) => ok, a := WriteData(bytes, pos, timer);
      case DataWritten(_) => a := Ok(0);
    }

    /** bar0_access() and bar1_access() for a write by the guest. */
    method GuestWrites(w: GuestWrite, timer: bool)
      modifies this, bar1
      ensures Abs() == WriteBar(old(Abs()), w, timer)
    {
      match w
      case ToBar0(bytes) =>
        if |bytes| == BAR0_SIZE && (st != RUNNING || timer) {
          bar0 := bytes;
        }
      case ToBar1(off, bytes) =>
        if off + |bytes| <= bar1.Length {
          if st == PRE_COPY {
            pending := bar1.Length;
          }
          Fill(off, bytes);
        }
    }
  }
}
