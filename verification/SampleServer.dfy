/**
 The sample device and its server (samples/server.c): two BARs, and the migration callbacks
 that save and restore them. Accesses are gated by the migration state (lib/libvfio-user.c).
 */
module SampleServer {
  import opened Common
  import opened Migration

  /** sizeof(time_t): BAR0 holds one timestamp. */
  const BAR0_SIZE := 8

  /** bar0 and bar1 are the contents; st is the migration state the device was last told. */
  datatype Dev = Dev(bar0: seq<byte>, bar1: seq<byte>, pending: nat, st: nat)

  predicate DevOk(d: Dev) {
    |d.bar0| == BAR0_SIZE && |d.bar1| > 0
  }

  function Ok(ret: int): Answer {
    Answer(ret, 0, 0, 0, [])
  }

  /** migration_device_state_transition(); timer tells whether the timer can be armed. None: an assertion fails. */
  function ToState(d: Dev, to: nat, timer: bool): Option<(Dev, Answer)> {
    if to == SAVING then Some((d.(pending := |d.bar1| + BAR0_SIZE, st := to), Ok(0)))
    else if to == PRE_COPY then Some((d.(pending := |d.bar1|, st := to), Ok(0)))
    else if to == STOP then if d.pending == 0 then Some((d.(st := to), Ok(0))) else None
    else if to == RUNNING && !timer then Some((d, Ok(-1)))
    else Some((d.(st := to), Ok(0)))
  }

  /** migration_read_data() */
  function ReadOut(d: Dev, size: nat, pos: nat): (Dev, Answer) {
    if d.st != PRE_COPY && d.st != SAVING then (d, Answer(size, 0, 0, 0, seq(size, _ => 0)))
    else if pos != 0 || size != d.pending then (d, Ok(-EINVAL))
    else (d.(pending := 0), Answer(size, 0, 0, 0, if d.st == SAVING then d.bar1 + d.bar0 else d.bar1))
  }

  /** The device with new contents of BAR1 and BAR0; fails on an assertion if a timer cannot be armed. */
  function Restore(d: Dev, bar1: seq<byte>, bar0: seq<byte>, timer: bool): Option<(Dev, Answer)> {
    if d.st == RUNNING && !timer then None else Some((d.(bar1 := bar1, bar0 := bar0), Ok(0)))
  }

  /** migration_write_data(): BAR1, and BAR0 behind it if there is more. */
  function WriteIn(d: Dev, bytes: seq<byte>, pos: nat, timer: bool): Option<(Dev, Answer)> {
    var n := |d.bar1|;
    if pos != 0 || |bytes| < n then Some((d, Ok(-EINVAL)))
    else if |bytes| == n then Some((d.(bar1 := bytes), Ok(0)))
    else if |bytes| - n != BAR0_SIZE then Some((d.(bar1 := bytes[..n]), Ok(-EINVAL)))
    else Restore(d, bytes[..n], bytes[n..], timer)
  }

  /** What the device does for a callback; None if one of its assertions fails. */
  function Respond(d: Dev, c: Call, timer: bool): Option<(Dev, Answer)> {
    match c
    case Transition(to) => ToState(d, to, timer)
    case GetPending => Some((d, Answer(0, d.pending, 0, 0, [])))
    case PrepareSaving => Some((d, Answer(0, 0, 0, d.pending, [])))
    case PrepareResuming => Some((d, Ok(0)))
    case ReadData(size, pos) => Some(ReadOut(d, size, pos))
    case WriteData(bytes, pos) => WriteIn(d, bytes, pos, timer)
    case DataWritten(_) => Some((d, Ok(0)))
  }

  datatype Server = Server(m: Migr, d: Dev, regionSize: nat)

  /** An access to the migration region, as the dispatcher lets it through. */
  function MigrationAccess(s: Server, q: Req, timer: bool): (Server, Reply) {
    if s.m.state == STOP || q.pos + q.count > s.regionSize then (s, Fail(EINVAL))
    else
      match CallOf(s.m, q)
      case None =>
        var (m', r) := Access(s.m, q, Ok(0));
        (s.(m := m'), r)
      case Some(c) =>
        match Respond(s.d, c, timer)
        case None => (s, Abort)
        case Some((d', a)) =>
          var (m', r) := Access(s.m, q, a);
          (s.(m := m', d := d'), r)
  }

  /**
   A handler took the region from m to m' and the device from d to d' with reply r: it made the
   callback that the access calls for, and the device's answer decided the rest.
   */
  predicate Served(m: Migr, d: Dev, q: Req, timer: bool, made: Option<Call>, m': Migr, d': Dev, r: Reply) {
    && made == CallOf(m, q)
    && match made
       case None => d' == d && (m', r) == Access(m, q, Ok(0))
       case Some(c) =>
         match Respond(d, c, timer)
         case None => r == Abort
         case Some((d1, a)) => d' == d1 && (m', r) == Access(m, q, a)
  }

  // --------------------------------------------- what the sample device answers

  /** A full image for a device that runs, when the timer it sets cannot be armed. */
  predicate CannotArm(d: Dev, bytes: seq<byte>, pos: nat, timer: bool) {
    d.st == 1 && !timer && pos == 0 && |bytes| == |d.bar1| + 8
  }

  /** The device's own assertions fail exactly when it is stopped with data pending, or a timer cannot be armed. */
  lemma DeviceAbortsIff(d: Dev, c: Call, timer: bool)
    ensures Respond(d, c, timer).None? <==>
            || (c == Transition(0) && d.pending > 0)
            || (c.WriteData? && CannotArm(d, c.bytes, c.pos, timer))
  {
  }

  /** The states: what becomes pending, and that a device cannot run without its timer. */
  lemma DeviceStates(d: Dev, to: nat, timer: bool)
    requires to in {1, 2, 3, 4}
    ensures Respond(d, Transition(to), timer) ==
            if to == 1 && !timer then Some((d, Answer(-1, 0, 0, 0, [])))
            else
              var n := if to == 2 then |d.bar1| + 8 else if to == 3 then |d.bar1| else d.pending;
              Some((d.(st := to, pending := n), Answer(0, 0, 0, 0, [])))
  {
  }

  /** Reading: all that is pending at once while saving, and zeros otherwise. */
  lemma DeviceReads(d: Dev, size: nat, pos: nat, timer: bool)
    ensures Respond(d, ReadData(size, pos), timer).Some?
    ensures var (d', a) := Respond(d, ReadData(size, pos), timer).value;
            if d.st !in {2, 3} then d' == d && a.ret == size && a.data == seq(size, _ => 0)
            else if pos == 0 && size == d.pending then
              && d' == d.(pending := 0) && a.ret == size
              && a.data == if d.st == 2 then d.bar1 + d.bar0 else d.bar1
            else d' == d && a.ret == -22
  {
  }

  /** Writing: BAR1 is taken from anything long enough, BAR0 only from what is exactly 8 bytes longer. */
  lemma DeviceWrites(d: Dev, bytes: seq<byte>, pos: nat, timer: bool)
    requires !CannotArm(d, bytes, pos, timer)
    ensures Respond(d, WriteData(bytes, pos), timer).Some?
    ensures var (d', a) := Respond(d, WriteData(bytes, pos), timer).value;
            var n := |d.bar1|;
            if pos != 0 || |bytes| < n then d' == d && a.ret == -22
            else
              && d' == d.(bar1 := bytes[..n], bar0 := if |bytes| == n + 8 then bytes[n..] else d.bar0)
              && a.ret == if |bytes| == n || |bytes| == n + 8 then 0 else -22
  {
    assert |bytes| == |d.bar1| ==> bytes[..|d.bar1|] == bytes;
  }

  /** An access to the migration region of a stopped device, or past the end of the region, is refused. */
  lemma RegionRefuses(s: Server, q: Req, timer: bool)
    requires s.m.state == 0 || q.pos + q.count > s.regionSize
    ensures MigrationAccess(s, q, timer) == (s, Reply(-22, 0, []))
  {
  }

  /** A write by the guest. */
  datatype GuestWrite = ToBar0(bytes: seq<byte>) | ToBar1(off: nat, bytes: seq<byte>)

  /** bar0_access() and bar1_access() for a write; in pre-copy a write to BAR1 makes all of it pending. */
  function WriteBar(d: Dev, w: GuestWrite, timer: bool): Dev {
    match w
    case ToBar0(bytes) =>
      if |bytes| != BAR0_SIZE || (d.st == RUNNING && !timer) then d else d.(bar0 := bytes)
    case ToBar1(off, bytes) =>
      if off + |bytes| > |d.bar1| then d
      else
        d.(bar1 := d.bar1[..off] + bytes + d.bar1[off + |bytes|..],
           pending := if d.st == PRE_COPY then |d.bar1| else d.pending)
  }

  /** A guest's write is refused while the device is stopped or stop-and-copying. */
  function Guest(s: Server, w: GuestWrite, timer: bool): Server {
    if s.m.state == STOP || s.m.state == SAVING then s else s.(d := WriteBar(s.d, w, timer))
  }

  /** One write of the guest: the bytes change, and in pre-copy all of BAR1 is pending after a write to it. */
  lemma GuestEffect(s: Server, w: GuestWrite, timer: bool)
    requires s.m.state !in {0, 2}
    ensures var s' := Guest(s, w, timer);
            && s' == s.(d := s.d.(bar0 := s'.d.bar0, bar1 := s'.d.bar1, pending := s'.d.pending))
            && (w.ToBar0? ==>
                  && s'.d.bar1 == s.d.bar1 && s'.d.pending == s.d.pending
                  && s'.d.bar0 == if |w.bytes| == 8 && (s.d.st == 1 ==> timer) then w.bytes else s.d.bar0)
            && (w.ToBar1? ==>
                  var fits := w.off + |w.bytes| <= |s.d.bar1|;
                  && s'.d.bar0 == s.d.bar0 && |s'.d.bar1| == |s.d.bar1|
                  && s'.d.pending == (if fits && s.d.st == 3 then |s.d.bar1| else s.d.pending)
                  && forall k :: 0 <= k < |s.d.bar1| ==>
                       s'.d.bar1[k] == if fits && w.off <= k < w.off + |w.bytes| then w.bytes[k - w.off]
                                       else s.d.bar1[k])
  {
  }

  lemma GuestStep(s: Server, w: GuestWrite, timer: bool)
    ensures Guest(s, w, timer) ==
            if s.m.state == STOP || s.m.state == SAVING then s else s.(d := WriteBar(s.d, w, timer))
  {
  }

  /** Writes of the guest one after the other. */
  function Guests(s: Server, ws: seq<GuestWrite>, timer: bool): Server {
    if ws == [] then s else Guest(Guests(s, ws[..|ws| - 1], timer), ws[|ws| - 1], timer)
  }

  /** A server that has just been started. */
  predicate Fresh(s: Server) {
    && DevOk(s.d) && s.d.st == RUNNING && s.d.pending == 0
    && REGISTERS <= s.m.dataOffset && s.m == Init(s.m.dataOffset)
    && s.m.dataOffset + |s.d.bar1| + BAR0_SIZE <= s.regionSize
  }

  // ----------------------------------------------------- what guests cannot disturb

  /** The parts of a server that writes of the guest leave alone. */
  predicate SameButBars(s: Server, s': Server) {
    && s'.m == s.m && s'.regionSize == s.regionSize && s'.d.st == s.d.st
    && |s'.d.bar0| == |s.d.bar0| && |s'.d.bar1| == |s.d.bar1|
    && (s'.d.pending == s.d.pending || (s.d.st == PRE_COPY && s'.d.pending == |s.d.bar1|))
  }

  lemma {:induction false} GuestsChangeBars(s: Server, ws: seq<GuestWrite>, timer: bool)
    requires DevOk(s.d)
    ensures DevOk(Guests(s, ws, timer).d) && SameButBars(s, Guests(s, ws, timer))
  {
    if ws != [] {
      GuestsChangeBars(s, ws[..|ws| - 1], timer);
    }
  }

  /** While the device is stop-and-copying or stopped, writes of the guest change nothing at all. */
  lemma {:induction false} GuestsAreFrozen(s: Server, ws: seq<GuestWrite>, timer: bool)
    requires s.m.state == SAVING || s.m.state == STOP
    ensures Guests(s, ws, timer) == s
  {
    if ws != [] {
      GuestsAreFrozen(s, ws[..|ws| - 1], timer);
    }
  }

  // ------------------------------------------------------ what the guest wrote

  /** The contents of both BARs. */
  datatype Bars = Bars(bar0: seq<byte>, bar1: seq<byte>)

  function BarsOf(d: Dev): Bars {
    Bars(d.bar0, d.bar1)
  }

  /** The BARs after a write that fits; armed says whether a write to BAR0 can set the timer. */
  function Store(b: Bars, w: GuestWrite, armed: bool): Bars {
    match w
    case ToBar0(bytes) => if armed && |bytes| == BAR0_SIZE then b.(bar0 := bytes) else b
    case ToBar1(off, bytes) =>
      if off + |bytes| > |b.bar1| then b else b.(bar1 := b.bar1[..off] + bytes + b.bar1[off + |bytes|..])
  }

  function StoreAll(b: Bars, ws: seq<GuestWrite>, armed: bool): Bars {
    if ws == [] then b else Store(StoreAll(b, ws[..|ws| - 1], armed), ws[|ws| - 1], armed)
  }

  lemma {:induction false} StoreAllAppend(b: Bars, x: seq<GuestWrite>, y: seq<GuestWrite>, armed: bool)
    ensures StoreAll(b, x + y, armed) == StoreAll(StoreAll(b, x, armed), y, armed)
    decreases |y|
  {
    if y == [] {
      assert x + y == x;
    } else {
      var n := |y| - 1;
      assert (x + y)[..|x + y| - 1] == x + y[..n];
      StoreAllAppend(b, x, y[..n], armed);
    }
  }

  /** While the device is neither stopped nor stop-and-copying, writes of the guest are stored in order. */
  lemma {:induction false} GuestsStore(s: Server, ws: seq<GuestWrite>, timer: bool)
    requires s.m.state != STOP && s.m.state != SAVING
    ensures var s' := Guests(s, ws, timer);
            && BarsOf(s'.d) == StoreAll(BarsOf(s.d), ws, timer || s.d.st != RUNNING)
            && s'.m == s.m && s'.d.st == s.d.st
  {
    if ws != [] {
      GuestsStore(s, ws[..|ws| - 1], timer);
    }
  }

  lemma {:induction false} StoreKeepsSize(b: Bars, ws: seq<GuestWrite>, armed: bool)
    ensures |StoreAll(b, ws, armed).bar1| == |b.bar1|
  {
    if ws != [] {
      StoreKeepsSize(b, ws[..|ws| - 1], armed);
    }
  }

  /** A guest whose last write fills BAR1 finds exactly that there. */
  lemma LastFillWins(b: Bars, ws: seq<GuestWrite>, bytes: seq<byte>, armed: bool)
    requires ws != [] && ws[|ws| - 1] == ToBar1(0, bytes) && |bytes| == |b.bar1|
    ensures StoreAll(b, ws, armed).bar1 == bytes
  {
    StoreKeepsSize(b, ws[..|ws| - 1], armed);
  }
}
