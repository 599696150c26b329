/**
 The client that migrates the sample device (samples/client.c), with a guest that writes to
 the source between any two of its accesses. No access in the run fails, and at the end the
 destination holds the BARs as they were when the source stopped.
 */
module MigrationClient {
  import opened Common
  import opened Migration
  import opened SampleServer
  import opened MigrationRegion
  import opened LiveMigration

  /** What happens before an access is served: writes of the guest, and whether a timer could be armed. */
  datatype Turn = Turn(guest: seq<GuestWrite>, timer: bool)

  /** The turn before the k-th access; any interleaving of guest and client is one such schedule. */
  type Schedule = nat -> Turn

  /** access_region(): the guest's writes that come first, then the client's access. */
  method Send(host: SampleHost, q: Req, t: Turn) returns (r: Reply)
    modifies host.Repr
    ensures r.Reply? ==> (host.State(), r) == MigrationAccess(Guests(old(host.State()), t.guest, t.timer), q, t.timer)
    ensures r.Abort? ==> MigrationAccess(Guests(old(host.State()), t.guest, t.timer), q, t.timer).1 == Abort
  {
    host.GuestAccess(t.guest, t.timer);
    r := host.ClientAccess(q, t.timer);
  }

  /** The guest's writes before accesses [lo, hi) of a schedule, in order. */
  ghost function Writes(sched: Schedule, lo: nat, hi: nat): seq<GuestWrite>
    decreases hi
  {
    if hi <= lo then [] else Writes(sched, lo, hi - 1) + sched(hi - 1).guest
  }

  /** The BARs of a copying device after writes of the guest: stored in pre-copy, refused in stop-and-copy. */
  ghost function After(s: Server, ws: seq<GuestWrite>): Bars {
    if s.m.state == PRE_COPY then StoreAll(BarsOf(s.d), ws, true) else BarsOf(s.d)
  }

  lemma AfterGuests(s: Server, t: Turn)
    requires Copying(s)
    ensures BarsOf(Guests(s, t.guest, t.timer).d) == After(s, t.guest)
  {
    hide Guests, StoreAll;
    if s.m.state == PRE_COPY {
      GuestsStore(s, t.guest, t.timer);
    } else {
      GuestsAreFrozen(s, t.guest, t.timer);
    }
  }

  lemma AfterMore(s: Server, s': Server, x: seq<GuestWrite>, y: seq<GuestWrite>)
    requires s'.m.state == s.m.state && BarsOf(s'.d) == After(s, x)
    ensures After(s', y) == After(s, x + y)
  {
    StoreAllAppend(BarsOf(s.d), x, y, true);
  }

  /** Nothing about the source but its BARs and the state of the iteration changes. */
  predicate SameSource(s: Server, s': Server) {
    && s'.m.state == s.m.state && s'.m.dataOffset == s.m.dataOffset && s'.regionSize == s.regionSize
    && |s'.d.bar1| == |s.d.bar1| && |Image(s'.d)| == |Image(s.d)|
  }

  /** The source is copying as before, and the guest's writes ws have been served. */
  ghost predicate Went(s: Server, s': Server, ws: seq<GuestWrite>) {
    Copying(s') && SameSource(s, s') && BarsOf(s'.d) == After(s, ws)
  }

  lemma WentMore(s: Server, s1: Server, s2: Server, x: seq<GuestWrite>, y: seq<GuestWrite>)
    requires Went(s, s1, x) && Went(s1, s2, y)
    ensures Went(s, s2, x + y)
  {
    hide Copying, Image, StoreAll;
    AfterMore(s, s1, x, y);
  }

  /** Reads pending_bytes: at the start, and after each iteration to say that its data was consumed. */
  method AskPending(host: SampleHost, t: Turn) returns (pending: nat)
    requires Copying(host.State()) && (host.State().m.iter.Initial? || host.State().m.iter.Prepared?)
    modifies host.Repr
    ensures Went(old(host.State()), host.State(), t.guest)
    ensures pending == host.State().d.pending
    ensures if pending == 0 then host.State().m.iter.Finished? else host.State().m.iter.Started?
    ensures old(host.State()).d.pending > 0 ==> pending == old(host.State()).d.pending
    ensures old(host.State()).m.state == SAVING ==> host.State().d == old(host.State()).d
  {
    hide MigrationAccess, Guests, After;
    ghost var s := host.State();
    ghost var s1 := Guests(s, t.guest, t.timer);
    GuestsKeepCopying(s, t.guest, t.timer);
    AfterGuests(s, t);
    PendingStep(s1, t.timer);
    var r := Send(host, ReadPending(), t);
    assert r.Reply? && r.ret == 8;
    pending := r.value;
  }

  /** Reads data_offset, which makes the device prepare its data. */
  method AskOffset(host: SampleHost, t: Turn) returns (dataOffset: nat)
    requires Copying(host.State()) && host.State().m.iter.Started? && host.State().d.pending > 0
    modifies host.Repr
    ensures Went(old(host.State()), host.State(), t.guest)
    ensures host.State().m.iter.Prepared? && dataOffset == host.State().m.dataOffset
    ensures host.State().d.pending == old(host.State()).d.pending == host.State().m.size
    ensures old(host.State()).m.state == SAVING ==> host.State().d == old(host.State()).d
  {
    hide MigrationAccess, Guests, After;
    ghost var s := host.State();
    GuestsKeepCopying(s, t.guest, t.timer);
    AfterGuests(s, t);
    OffsetStep(Guests(s, t.guest, t.timer), t.timer);
    var r := Send(host, ReadDataOffset(), t);
    assert r.Reply? && r.ret == 8;
    dataOffset := r.value;
  }

  /** Reads data_size. */
  method AskSize(host: SampleHost, t: Turn) returns (dataSize: nat)
    requires Copying(host.State()) && host.State().m.iter.Prepared?
    requires host.State().d.pending == host.State().m.size > 0
    modifies host.Repr
    ensures Went(old(host.State()), host.State(), t.guest)
    ensures host.State().m == old(host.State()).m && host.State().d.pending == old(host.State()).d.pending == dataSize
    ensures old(host.State()).m.state == SAVING ==> host.State().d == old(host.State()).d
  {
    hide MigrationAccess, Guests, After;
    ghost var s := host.State();
    GuestsKeepCopying(s, t.guest, t.timer);
    AfterGuests(s, t);
    SizeStep(Guests(s, t.guest, t.timer), t.timer);
    var r := Send(host, ReadSize(), t);
    assert r.Reply? && r.ret == 8;
    dataSize := r.value;
  }

  /** Reads the data itself: the image as it is at that moment. */
  method ReadChunk(host: SampleHost, pos: nat, size: nat, t: Turn) returns (chunk: seq<byte>)
    requires Copying(host.State()) && pos == host.State().m.dataOffset && size == host.State().d.pending > 0
    modifies host.Repr
    ensures Went(old(host.State()), host.State(), t.guest)
    ensures host.State().m == old(host.State()).m && host.State().d.pending == 0 && chunk == Image(host.State().d)
    ensures old(host.State()).m.state == SAVING ==> host.State().d == old(host.State()).d.(pending := 0)
  {
    hide MigrationAccess, Guests, After;
    ghost var s := host.State();
    GuestsKeepCopying(s, t.guest, t.timer);
    AfterGuests(s, t);
    DataStep(Guests(s, t.guest, t.timer), t.timer);
    var r := Send(host, ReadBytes(pos, size), t);
    assert r.Reply? && r.ret == size;
    chunk := r.data;
  }

  /** Reads data_offset, data_size and the data itself. */
  method FetchChunk(host: SampleHost, sched: Schedule, k: nat) returns (chunk: seq<byte>)
    requires Copying(host.State()) && host.State().m.iter.Started? && host.State().d.pending > 0
    modifies host.Repr
    ensures Went(old(host.State()), host.State(), Writes(sched, k, k + 3))
    ensures host.State().m.iter.Prepared? && host.State().d.pending == 0 && chunk == Image(host.State().d)
    ensures old(host.State()).m.state == SAVING ==> host.State().d == old(host.State()).d.(pending := 0)
  {
    hide Went, Image;
    ghost var s := host.State();
    WentCopying();
    var dataOffset := AskOffset(host, sched(k));
    ghost var s1 := host.State();
    var dataSize := AskSize(host, sched(k + 1));
    ghost var s2 := host.State();
    WentMore(s, s1, s2, sched(k).guest, sched(k + 1).guest);
    chunk := ReadChunk(host, dataOffset, dataSize, sched(k + 2));
    WentMore(s, s2, host.State(), sched(k).guest + sched(k + 1).guest, sched(k + 2).guest);
    ThreeWrites(sched, k);
  }

  lemma WentCopying()
    ensures forall s, s', ws :: Went(s, s', ws) ==> Copying(s') && s'.m.state == s.m.state
  {
  }

  lemma ThreeWrites(sched: Schedule, k: nat)
    ensures Writes(sched, k, k + 3) == sched(k).guest + sched(k + 1).guest + sched(k + 2).guest
  {
    assert Writes(sched, k, k + 1) == [] + sched(k).guest == sched(k).guest;
    assert Writes(sched, k, k + 2) == sched(k).guest + sched(k + 1).guest;
  }

  lemma {:induction false} WritesJoin(sched: Schedule, a: nat, b: nat, c: nat)
    requires a <= b <= c
    ensures Writes(sched, a, b) + Writes(sched, b, c) == Writes(sched, a, c)
    decreases c
  {
    if b == c {
      assert Writes(sched, a, b) + [] == Writes(sched, a, b);
    } else {
      WritesJoin(sched, a, b, c - 1);
      assert Writes(sched, a, b) + (Writes(sched, b, c - 1) + sched(c - 1).guest)
          == (Writes(sched, a, b) + Writes(sched, b, c - 1)) + sched(c - 1).guest;
    }
  }

  /** BAR1 as iteration i of a pre-copy found it: with all writes that were served before its data was read. */
  ghost function Seen(s: Server, sched: Schedule, i: nat): seq<byte> {
    After(s, Writes(sched, 0, 4 * i + 4)).bar1
  }

  /** One turn of the loop of do_migrate(): the data, and pending_bytes to say that it was consumed. */
  method Iterate(host: SampleHost, sched: Schedule, i: nat, ghost s: Server) returns (chunk: seq<byte>, pending: nat)
    requires Copying(s) && Went(s, host.State(), Writes(sched, 0, 4 * i + 1))
    requires host.State().m.iter.Started? && host.State().d.pending > 0
    modifies host.Repr
    ensures Went(s, host.State(), Writes(sched, 0, 4 * i + 5))
    ensures pending == host.State().d.pending && (pending > 0 ==> host.State().m.iter.Started?)
    ensures |chunk| == |Image(s.d)| && (s.m.state == PRE_COPY ==> chunk == Seen(s, sched, i))
    ensures s.m.state == SAVING ==>
              pending == 0 && chunk == Image(s.d) && host.State().d == old(host.State()).d.(pending := 0)
  {
    hide Went;
    WentCopying();
    ghost var s1 := host.State();
    chunk := FetchChunk(host, sched, 4 * i + 1);
    ghost var s2 := host.State();
    WentMore(s, s1, s2, Writes(sched, 0, 4 * i + 1), Writes(sched, 4 * i + 1, 4 * i + 4));
    WritesJoin(sched, 0, 4 * i + 1, 4 * i + 4);
    WentImage(s, s2, Writes(sched, 0, 4 * i + 4));
    pending := AskPending(host, sched(4 * i + 4));
    WentMore(s, s2, host.State(), Writes(sched, 0, 4 * i + 4), sched(4 * i + 4).guest);
  }

  lemma WentImage(s: Server, s': Server, ws: seq<GuestWrite>)
    requires Copying(s) && Went(s, s', ws)
    ensures |Image(s'.d)| == |Image(s.d)|
    ensures s.m.state == PRE_COPY ==> Image(s'.d) == After(s, ws).bar1
    ensures s.m.state == SAVING ==> Image(s'.d) == Image(s.d)
  {
    hide StoreAll;
  }

  /** do_migrate(): up to nrIters iterations, or until nothing is pending. */
  method DoMigrate(host: SampleHost, nrIters: nat, sched: Schedule) returns (chunks: seq<seq<byte>>)
    requires nrIters > 0
    requires Copying(host.State()) && host.State().m.iter.Initial?
    modifies host.Repr
    ensures Went(old(host.State()), host.State(), Writes(sched, 0, 4 * |chunks| + 1))
    ensures |chunks| <= nrIters && (|chunks| < nrIters ==> host.State().d.pending == 0)
    ensures old(host.State()).d.pending > 0 ==> chunks != []
    ensures forall i :: 0 <= i < |chunks| ==> |chunks[i]| == |Image(old(host.State()).d)|
    ensures old(host.State()).m.state == PRE_COPY ==>
              forall i :: 0 <= i < |chunks| ==> chunks[i] == Seen(old(host.State()), sched, i)
    ensures old(host.State().m.state == SAVING && host.State().d.pending > 0) ==>
              && host.State().d == old(host.State()).d.(pending := 0)
              && chunks == [Image(old(host.State()).d)]
  {
    hide Copying, Image, Went, Seen;
    ghost var s := host.State();
    var pending := AskPending(host, sched(0));
    assert Writes(sched, 0, 1) == [] + sched(0).guest == sched(0).guest;
    chunks := [];
    var i := 0;
    while i < nrIters && pending > 0
      invariant i == |chunks| <= nrIters && Went(s, host.State(), Writes(sched, 0, 4 * i + 1))
      invariant pending == host.State().d.pending
      invariant pending > 0 ==> host.State().m.iter.Started?
      invariant i == 0 && s.d.pending > 0 ==> pending > 0
      invariant forall c :: 0 <= c < i ==> |chunks[c]| == |Image(s.d)|
      invariant s.m.state == PRE_COPY ==> forall c :: 0 <= c < i ==> chunks[c] == Seen(s, sched, c)
      invariant s.m.state == SAVING && s.d.pending > 0 ==>
                  || (i == 0 && host.State().d == s.d)
                  || (i == 1 && host.State().d == s.d.(pending := 0) && chunks == [Image(s.d)])
    {
      var chunk;
      chunk, pending := Iterate(host, sched, i, s);
      chunks := chunks + [chunk];
      i := i + 1;
    }
  }

  /** The source before a migration: running, with room for its BARs in the migration region. */
  predicate Running(s: Server) {
    && DevOk(s.d) && s.m.state == RUNNING
    && REGISTERS <= s.m.dataOffset && s.m.dataOffset + |s.d.bar1| + BAR0_SIZE <= s.regionSize
  }

  /** Writes the device state that starts pre-copy or stop-and-copy. */
  method Enter(host: SampleHost, state: nat, t: Turn)
    requires (Running(host.State()) && state == PRE_COPY) ||
             (Copying(host.State()) && host.State().m.state == PRE_COPY && state == SAVING)
    modifies host.Repr
    ensures Copying(host.State()) && host.State().m.iter.Initial? && host.State().m.state == state
    ensures host.State().d.pending == |Image(host.State().d)| > 0
    ensures |host.State().d.bar1| == |old(host.State()).d.bar1|
    ensures BarsOf(host.State().d) ==
            StoreAll(BarsOf(old(host.State()).d), t.guest, t.timer || old(host.State()).d.st != RUNNING)
  {
    hide MigrationAccess, Guests, StoreAll;
    ghost var s := host.State();
    GuestsChangeBars(s, t.guest, t.timer);
    GuestsStore(s, t.guest, t.timer);
    EnterCopying(Guests(s, t.guest, t.timer), state, t.timer);
    var r := Send(host, SetState(state), t);
    assert r.Reply? && r.ret == 4;
  }

  /** Writes the device state that stops the source. */
  method StopSource(host: SampleHost, t: Turn)
    requires Copying(host.State()) && host.State().m.state == SAVING && host.State().d.pending == 0
    modifies host.Repr
    ensures host.State().m.state == STOP && host.State().d == old(host.State()).d.(st := STOP)
  {
    hide MigrationAccess, Guests;
    ghost var s := host.State();
    GuestsKeepCopying(s, t.guest, t.timer);
    StopStep(Guests(s, t.guest, t.timer), t.timer);
    var r := Send(host, SetState(STOP), t);
    assert r.Reply? && r.ret == 4;
  }

  /** The chunks of a migration: BAR1 any number of times, then BAR1 and BAR0 as they are on the device. */
  predicate Complete(chunks: seq<seq<byte>>, d: Dev) {
    && (forall c :: c in chunks ==> Chunk(c, |d.bar1|))
    && chunks != [] && chunks[|chunks| - 1] == d.bar1 + d.bar0
  }

  /**
   What the guest wrote in a migration with n pre-copy iterations: before pre-copy, where BAR0 takes
   a write only if its timer can be armed, then before each access of pre-copy, then before the freeze.
   */
  ghost function GuestLeft(s: Server, first: Turn, preCopy: Schedule, n: nat, freeze: Turn): Bars {
    StoreAll(StoreAll(BarsOf(s.d), first.guest, first.timer || s.d.st != RUNNING),
             Writes(preCopy, 0, 4 * n + 1) + freeze.guest, true)
  }

  /**
   migrate_from(): pre-copy for up to nrIters iterations while the guest goes on writing, then
   stop-and-copy, then stop. The source ends with what the guest left behind before the freeze.
   */
  method MigrateFrom(host: SampleHost, nrIters: nat, stopIters: nat,
                     first: Turn, preCopy: Schedule, freeze: Turn, stopCopy: Schedule, last: Turn)
    returns (chunks: seq<seq<byte>>)
    requires nrIters > 0 && stopIters > 0 && Running(host.State())
    modifies host.Repr
    ensures host.State().m.state == STOP && DevOk(host.State().d)
    ensures |host.State().d.bar1| == |old(host.State()).d.bar1|
    ensures 2 <= |chunks| <= nrIters + 1 && Complete(chunks, host.State().d)
    ensures BarsOf(host.State().d) == GuestLeft(old(host.State()), first, preCopy, |chunks| - 1, freeze)
  {
    hide StoreAll, Writes;
    ghost var s := host.State();
    Enter(host, PRE_COPY, first);
    ghost var s1 := host.State();
    chunks := DoMigrate(host, nrIters, preCopy);
    ghost var n := |chunks|;
    assert forall c :: c in chunks ==> Chunk(c, |s.d.bar1|);
    Enter(host, SAVING, freeze);
    StoreAllAppend(BarsOf(s1.d), Writes(preCopy, 0, 4 * n + 1), freeze.guest, true);
    ghost var stopped := host.State().d;
    var more := DoMigrate(host, stopIters, stopCopy);
    assert more == [stopped.bar1 + stopped.bar0];
    StopSource(host, last);
    chunks := chunks + more;
  }

  /** Sends one chunk to the destination: data_offset is read, the data written, its size announced. */
  method SendChunk(host: SampleHost, chunk: seq<byte>, timer: bool)
    requires Resuming(host.State()) && Chunk(chunk, |host.State().d.bar1|)
    modifies host.Repr
    ensures Resuming(host.State()) && |host.State().d.bar1| == |old(host.State()).d.bar1|
    ensures var n := |host.State().d.bar1|;
            && host.State().d.bar1 == chunk[..n]
            && (|chunk| > n ==> host.State().d.bar0 == chunk[n..])
  {
    hide MigrationAccess;
    AskOffsetStep(host.State(), timer);
    var r := host.ClientAccess(ReadDataOffset(), timer);
    assert r.Reply? && r.ret == 8;
    RestoreStep(host.State(), chunk, timer);
    r := host.ClientAccess(WriteBytes(r.value, chunk), timer);
    assert r.Reply? && r.ret == |chunk|;
    WrittenStep(host.State(), |chunk|, timer);
    r := host.ClientAccess(WriteSize(|chunk|), timer);
    assert r.Reply? && r.ret == 8;
  }

  /** migrate_to(): the destination resumes, takes the chunks in order, and runs. */
  method MigrateTo(host: SampleHost, chunks: seq<seq<byte>>, ghost d: Dev)
    requires Fresh(host.State()) && DevOk(d) && |d.bar1| == |host.State().d.bar1| && Complete(chunks, d)
    modifies host.Repr
    ensures host.State().m.state == RUNNING
    ensures host.State().d.bar0 == d.bar0 && host.State().d.bar1 == d.bar1
  {
    hide MigrationAccess;
    ResumeStep(host.State(), true);
    var r := host.ClientAccess(SetState(RESUMING), true);
    assert r.Reply? && r.ret == 4;
    var i := 0;
    while i < |chunks|
      invariant i <= |chunks| && Resuming(host.State()) && |host.State().d.bar1| == |d.bar1|
      invariant i == |chunks| ==> host.State().d.bar0 == d.bar0 && host.State().d.bar1 == d.bar1
    {
      assert chunks[i] in chunks;
      SendChunk(host, chunks[i], true);
      i := i + 1;
    }
    RunStep(host.State());
    r := host.ClientAccess(SetState(RUNNING), true);
    assert r.Reply? && r.ret == 4;
  }

  /**
   A whole migration, for every interleaving of guest and client and any number of pre-copy
   iterations: the destination ends up running with exactly the BARs at which the source stopped,
   which are those the guest left behind.
   */
  method Migrate(src: SampleHost, dst: SampleHost, nrIters: nat, stopIters: nat,
                 first: Turn, preCopy: Schedule, freeze: Turn, stopCopy: Schedule, last: Turn)
    returns (iters: nat)
    requires src.Repr !! dst.Repr
    requires nrIters > 0 && stopIters > 0 && Running(src.State()) && Fresh(dst.State())
    requires |src.State().d.bar1| == |dst.State().d.bar1|
    modifies src.Repr, dst.Repr
    ensures 1 <= iters <= nrIters
    ensures src.State().m.state == STOP && dst.State().m.state == RUNNING
    ensures BarsOf(dst.State().d) == BarsOf(src.State().d) == GuestLeft(old(src.State()), first, preCopy, iters, freeze)
  {
    hide Complete, Running, Fresh, GuestLeft;
    var chunks := MigrateFrom(src, nrIters, stopIters, first, preCopy, freeze, stopCopy, last);
    MigrateTo(dst, chunks, src.State().d);
    iters := |chunks| - 1;
  }

  /**
   The sample's own comparison: if the guest's last write in pre-copy fills BAR1, its bytes are in
   BAR1 of the destination.
   */
  lemma DestinationHasLastFill(s: Server, first: Turn, preCopy: Schedule, n: nat, freeze: Turn, bytes: seq<byte>)
    requires var ws := Writes(preCopy, 0, 4 * n + 1) + freeze.guest;
             ws != [] && ws[|ws| - 1] == ToBar1(0, bytes) && |bytes| == |s.d.bar1|
    ensures GuestLeft(s, first, preCopy, n, freeze).bar1 == bytes
  {
    hide Writes;
    var b := StoreAll(BarsOf(s.d), first.guest, first.timer || s.d.st != RUNNING);
    StoreKeepsSize(BarsOf(s.d), first.guest, first.timer || s.d.st != RUNNING);
    LastFillWins(b, Writes(preCopy, 0, 4 * n + 1) + freeze.guest, bytes, true);
  }
}
