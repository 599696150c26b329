/**
 Live migration of the sample device: the client's side of the protocol (samples/client.c),
 the servers at both ends, and a guest that writes to the BARs between any two accesses.
 */
module LiveMigration {
  import opened Common
  import opened Migration
  import opened SampleServer

  /** The device is in pre-copy or stop-and-copy, and what is pending is everything or nothing. */
  predicate Copying(s: Server) {
    && DevOk(s.d) && Saving(s.m) && s.d.st == s.m.state
    && (s.d.pending == 0 || s.d.pending == |Image(s.d)|)
    && REGISTERS <= s.m.dataOffset
    && s.m.dataOffset + |s.d.bar1| + BAR0_SIZE <= s.regionSize
  }

  /** What one iteration transfers: BAR1, and in stop-and-copy BAR0 behind it. */
  function Image(d: Dev): seq<byte> {
    if d.st == SAVING then d.bar1 + d.bar0 else d.bar1
  }

  function ReadSize(): Req {
    Req(DATA_SIZE, 8, false, 0, [])
  }

  function ReadBytes(pos: nat, count: nat): Req {
    Req(pos, count, false, 0, [])
  }

  function SetState(state: nat): Req {
    Req(DEVICE_STATE, 4, true, state, [])
  }

  function WriteBytes(pos: nat, bytes: seq<byte>): Req {
    Req(pos, |bytes|, true, 0, bytes)
  }

  function WriteSize(n: nat): Req {
    Req(DATA_SIZE, 8, true, n, [])
  }

  // --------------------------------------------------- the steps of an iteration

  /** Writes of the guest do not disturb an iteration; once data is pending it stays pending. */
  lemma GuestsKeepCopying(s: Server, ws: seq<GuestWrite>, timer: bool)
    requires Copying(s)
    ensures var s' := Guests(s, ws, timer);
            && Copying(s') && s'.m == s.m && |Image(s'.d)| == |Image(s.d)|
            && |s'.d.bar1| == |s.d.bar1| && s'.regionSize == s.regionSize
            && (s.d.pending > 0 ==> s'.d.pending == s.d.pending)
            && (s.m.state == SAVING ==> s' == s)
  {
    GuestsChangeBars(s, ws, timer);
    if s.m.state == SAVING {
      GuestsAreFrozen(s, ws, timer);
    }
  }

  lemma PendingStep(s: Server, timer: bool)
    requires Copying(s) && (s.m.iter.Initial? || s.m.iter.Prepared?)
    ensures var n := s.d.pending;
            MigrationAccess(s, ReadPending(), timer) ==
            (s.(m := s.m.(pending := n, iter := if n == 0 then Finished else Started)), Reply(8, n, []))
  {
  }

  lemma OffsetStep(s: Server, timer: bool)
    requires Copying(s) && s.m.iter.Started?
    ensures MigrationAccess(s, ReadDataOffset(), timer) ==
            (s.(m := s.m.(offset := 0, size := s.d.pending, iter := Prepared)), Reply(8, s.m.dataOffset, []))
  {
  }

  lemma SizeStep(s: Server, timer: bool)
    requires Copying(s) && s.m.iter.Prepared?
    ensures MigrationAccess(s, ReadSize(), timer) == (s, Reply(8, s.m.size, []))
  {
  }

  /** Reading as many bytes as are pending returns the device's image and leaves nothing pending. */
  lemma DataStep(s: Server, timer: bool)
    requires Copying(s) && s.d.pending > 0
    ensures MigrationAccess(s, ReadBytes(s.m.dataOffset, s.d.pending), timer) ==
            (s.(d := s.d.(pending := 0)), Reply(s.d.pending, 0, Image(s.d)))
  {
  }

  /** Entering pre-copy or stop-and-copy makes the whole image pending. */
  lemma EnterCopying(s: Server, state: nat, timer: bool)
    requires DevOk(s.d) && (state == PRE_COPY || state == SAVING)
    requires s.m.state == RUNNING || (s.m.state == PRE_COPY && state == SAVING)
    requires REGISTERS <= s.m.dataOffset && s.m.dataOffset + |s.d.bar1| + BAR0_SIZE <= s.regionSize
    ensures var (s', r) := MigrationAccess(s, SetState(state), timer);
            && r.Reply? && r.ret == 4 && Copying(s') && s'.m.iter.Initial? && s'.m.state == state
            && s'.d.pending == |Image(s'.d)| && s'.d.bar0 == s.d.bar0 && s'.d.bar1 == s.d.bar1
            && s'.m.dataOffset == s.m.dataOffset && s'.regionSize == s.regionSize
  {
    TransitionTable(s.m.state, state);
  }

  /** A device with nothing pending can be stopped. */
  lemma StopStep(s: Server, timer: bool)
    requires Copying(s) && s.d.pending == 0 && s.m.state == SAVING
    ensures var (s', r) := MigrationAccess(s, SetState(STOP), timer);
            r.Reply? && r.ret == 4 && s'.m.state == STOP && s'.d == s.d.(st := STOP)
  {
    TransitionTable(s.m.state, STOP);
  }

  // -------------------------------------------------------------- at the other end

  predicate Resuming(s: Server) {
    && DevOk(s.d) && s.m.state == RESUMING && s.d.st == RESUMING
    && REGISTERS <= s.m.dataOffset
    && s.m.dataOffset + |s.d.bar1| + BAR0_SIZE <= s.regionSize
  }

  lemma ResumeStep(s: Server, timer: bool)
    requires Fresh(s)
    ensures var (s', r) := MigrationAccess(s, SetState(RESUMING), timer);
            && r.Reply? && r.ret == 4 && Resuming(s')
            && |s'.d.bar1| == |s.d.bar1| && s'.m.dataOffset == s.m.dataOffset
  {
    TransitionTable(s.m.state, RESUMING);
  }

  lemma AskOffsetStep(s: Server, timer: bool)
    requires Resuming(s)
    ensures MigrationAccess(s, ReadDataOffset(), timer) == (s, Reply(8, s.m.dataOffset, []))
  {
  }

  /** A chunk is BAR1 alone, or BAR1 followed by BAR0. */
  predicate Chunk(bytes: seq<byte>, n: nat) {
    |bytes| == n || |bytes| == n + BAR0_SIZE
  }

  /** Writing a chunk restores the BARs it carries. */
  lemma RestoreStep(s: Server, bytes: seq<byte>, timer: bool)
    requires Resuming(s) && Chunk(bytes, |s.d.bar1|)
    ensures var n := |s.d.bar1|;
            var d := s.d.(bar1 := bytes[..n], bar0 := if |bytes| == n then s.d.bar0 else bytes[n..]);
            MigrationAccess(s, WriteBytes(s.m.dataOffset, bytes), timer) == (s.(d := d), Reply(|bytes|, 0, []))
    ensures var (s', _) := MigrationAccess(s, WriteBytes(s.m.dataOffset, bytes), timer);
            Resuming(s') && |s'.d.bar1| == |s.d.bar1|
  {
    assert |bytes| == |s.d.bar1| ==> bytes[..|s.d.bar1|] == bytes;
  }

  lemma WrittenStep(s: Server, n: nat, timer: bool)
    requires Resuming(s)
    ensures MigrationAccess(s, WriteSize(n), timer) == (s, Reply(8, 0, []))
  {
  }

  lemma RunStep(s: Server)
    requires Resuming(s)
    ensures var (s', r) := MigrationAccess(s, SetState(RUNNING), true);
            r.Reply? && r.ret == 4 && s'.m.state == RUNNING && s'.d == s.d.(st := RUNNING)
  {
    TransitionTable(s.m.state, RUNNING);
  }
}
