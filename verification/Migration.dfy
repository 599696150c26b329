/**
 The migration region (lib/migration.c, lib/migration_priv.h): registers that drive the device
 state and the save iterations, and the data area. The device is reached through callbacks;
 at most one is made for each access, and what it answers is an input here.
 */
module Migration {
  import opened Common

  const STOP := 0
  const RUNNING := 1
  const SAVING := 2
  const PRE_COPY := 3
  const RESUMING := 4
  const ERROR := 6
  /** Device states are three bits wide. */
  const STATES := 8

  const EINVAL := 22

  // ------------------------------------------------------------- device states

  /**
   The table of valid transitions. In the pre-copy row the shift binds tighter than the
   inner or, so SAVING enters as the number 2.
   */
  function Row(from: nat): bv8 {
    if from == STOP then Mask(STOP)
    else if from == RUNNING then
      Mask(STOP) | Mask(RUNNING) | Mask(SAVING) | Mask(PRE_COPY) | Mask(RESUMING) | Mask(ERROR)
    else if from == SAVING then Mask(STOP) | Mask(SAVING) | Mask(ERROR)
    else if from == PRE_COPY then Mask(STOP) | Mask(SAVING) | (Mask(RUNNING) | 2) | Mask(ERROR)
    else if from == RESUMING then Mask(RUNNING) | Mask(RESUMING) | Mask(ERROR)
    else 0
  }

  /** vfio_migr_state_transition_is_valid() */
  predicate ValidTransition(from: nat, to: nat)
    requires to < STATES
  {
    Row(from) & Mask(to) != 0
  }

  /** The transitions the table allows, spelled out; pre-copy can go back to running but not to itself. */
  lemma TransitionTable(from: nat, to: nat)
    requires to < STATES
    ensures ValidTransition(from, to) <==>
            || (from == STOP && to == STOP)
            || (from == RUNNING && to in {STOP, RUNNING, SAVING, PRE_COPY, RESUMING, ERROR})
            || (from == SAVING && to in {STOP, SAVING, ERROR})
            || (from == PRE_COPY && to in {STOP, RUNNING, SAVING, ERROR})
            || (from == RESUMING && to in {RUNNING, RESUMING, ERROR})
  {
    assert to == 0 || to == 1 || to == 2 || to == 3 || to == 4 || to == 5 || to == 6 || to == 7;
  }

  // ------------------------------------------------------------------ the region

  datatype Iteration = Initial | Started | Prepared | Finished

  datatype Migr = Migr(state: nat, iter: Iteration, pending: nat, offset: nat, size: nat, dataOffset: nat)

  /** State after init_migration(). */
  function Init(dataOffset: nat): Migr {
    Migr(RUNNING, Initial, 0, 0, 0, dataOffset)
  }

  /** Offsets and widths of the registers. */
  const DEVICE_STATE := 0
  const PENDING_BYTES := 8
  const DATA_OFFSET := 16
  const DATA_SIZE := 24
  const REGISTERS := 32

  /** An access of count bytes at pos; value is what a register write carries, data the bytes of a data write. */
  datatype Req = Req(pos: nat, count: nat, isWrite: bool, value: nat, data: seq<byte>)

  /** A callback into the device. */
  datatype Call =
    | Transition(to: nat)
    | GetPending
    | PrepareSaving
    | PrepareResuming
    | ReadData(size: nat, pos: nat)
    | WriteData(bytes: seq<byte>, pos: nat)
    | DataWritten(size: nat)

  /** What the device answers: a return value, and numbers or bytes where the callback has them. */
  datatype Answer = Answer(ret: int, pending: nat, offset: nat, size: nat, data: seq<byte>)

  /** What the client gets: the count on success or a negative error; Abort stops the server. */
  datatype Reply = Reply(ret: int, value: nat, data: seq<byte>) | Abort

  function Fail(errno: int): Reply {
    Reply(-errno, 0, [])
  }

  /** A handler's return value of zero means that the whole access was handled. */
  function Done(q: Req, ret: int, value: nat, data: seq<byte>): Reply {
    Reply(if ret == 0 then q.count else ret, value, data)
  }

  predicate Saving(m: Migr) {
    m.state == SAVING || m.state == PRE_COPY
  }

  /** The callback that an access makes, if any. */
  function CallOf(m: Migr, q: Req): Option<Call> {
    if q.pos + q.count <= REGISTERS then
      if q.pos == DEVICE_STATE && q.count == 4 then
        if q.isWrite && q.value < STATES && ValidTransition(m.state, q.value) && q.value != ERROR
        then Some(Transition(q.value)) else None
      else if q.pos == PENDING_BYTES && q.count == 8 then
        if !q.isWrite && (m.iter.Initial? || m.iter.Prepared?) then Some(GetPending) else None
      else if q.pos == DATA_OFFSET && q.count == 8 then
        if q.isWrite then None
        else if Saving(m) && m.iter.Started? then Some(PrepareSaving)
        else if m.state == RESUMING then Some(PrepareResuming)
        else None
      else if q.pos == DATA_SIZE && q.count == 8 then
        if q.isWrite && m.state == RESUMING then Some(DataWritten(q.value)) else None
      else None
    else if q.pos < m.dataOffset then None
    else if q.isWrite then Some(WriteData(q.data, q.pos - m.dataOffset))
    else Some(ReadData(q.count, q.pos - m.dataOffset))
  }

  /** handle_device_state() */
  function DeviceState(m: Migr, q: Req, a: Answer): (Migr, Reply) {
    if !q.isWrite then (m, Done(q, 0, m.state, []))
    else if q.value >= STATES || !ValidTransition(m.state, q.value) then (m, Fail(EINVAL))
    else if q.value == ERROR then (m, Abort)
    else if a.ret == 0 then (m.(state := q.value, iter := Initial), Done(q, 0, 0, []))
    else (m, Done(q, a.ret, 0, []))
  }

  /** handle_pending_bytes(): the device is asked once for each iteration. */
  function PendingBytes(m: Migr, q: Req, a: Answer): (Migr, Reply) {
    if q.isWrite then (m, Fail(EINVAL))
    else match m.iter
      case Finished => (m, Done(q, 0, 0, []))
      case Started => (m, Done(q, 0, m.pending, []))
      case _ =>
        (m.(pending := a.pending, iter := if a.pending == 0 then Finished else Started),
         Done(q, 0, a.pending, []))
  }

  /** handle_data_offset() */
  function DataOffset(m: Migr, q: Req, a: Answer): (Migr, Reply) {
    if q.isWrite then (m, Fail(EINVAL))
    else if Saving(m) then
      match m.iter
      case Started =>
        if a.ret < 0 then (m, Done(q, a.ret, 0, []))
        else (m.(offset := a.offset, size := a.size, iter := Prepared),
              Done(q, 0, a.offset + m.dataOffset, []))
      case Prepared => (m, Done(q, 0, m.offset + m.dataOffset, []))
      case _ => (m, Fail(EINVAL))
    else if m.state == RESUMING then
      (m, if a.ret < 0 then Done(q, a.ret, 0, []) else Done(q, 0, a.offset + m.dataOffset, []))
    else (m, Fail(EINVAL))
  }

  /** handle_data_size() */
  function DataSize(m: Migr, q: Req, a: Answer): (Migr, Reply) {
    if Saving(m) then
      if q.isWrite || !(m.iter.Started? || m.iter.Prepared?) then (m, Fail(EINVAL))
      else (m, Done(q, 0, m.size, []))
    else if m.state == RESUMING then
      if q.isWrite then (m, Done(q, a.ret, 0, [])) else (m, Done(q, 0, q.value, []))
    else (m, Fail(EINVAL))
  }

  /** migration_region_access(); the answer matters only if the access makes a callback. */
  function Access(m: Migr, q: Req, a: Answer): (Migr, Reply) {
    if q.pos + q.count <= REGISTERS then
      if q.pos == DEVICE_STATE && q.count == 4 then DeviceState(m, q, a)
      else if q.pos == PENDING_BYTES && q.count == 8 then PendingBytes(m, q, a)
      else if q.pos == DATA_OFFSET && q.count == 8 then DataOffset(m, q, a)
      else if q.pos == DATA_SIZE && q.count == 8 then DataSize(m, q, a)
      else (m, Fail(EINVAL))
    else if q.pos < m.dataOffset then (m, Fail(EINVAL))
    else (m, Done(q, a.ret, 0, if q.isWrite then [] else a.data))
  }

  // ------------------------------------------------------------ which callback

  function Returns(ret: int, n: nat): Answer {
    Answer(ret, n, n, n, [])
  }

  /** What the device answers matters to an access if and only if the access makes a callback. */
  lemma AnswerMattersIff(m: Migr, q: Req)
    ensures CallOf(m, q).Some? <==> exists a, b :: Access(m, q, a) != Access(m, q, b)
  {
    hide ValidTransition;
    if CallOf(m, q).None? {
      assert forall a, b :: Access(m, q, a) == Access(m, q, b);
    } else {
      assert Access(m, q, Returns(-1, 0)) != Access(m, q, Returns(0, 0))
          || Access(m, q, Returns(0, 0)) != Access(m, q, Returns(0, 1));
    }
  }

  /** The library stops the server exactly when the error state is written in a state whose row of the table has it. */
  lemma AbortsIff(m: Migr, q: Req, a: Answer)
    ensures Access(m, q, a).1.Abort? <==>
            && q.pos == DEVICE_STATE && q.count == 4 && q.isWrite && q.value == ERROR
            && m.state in {RUNNING, SAVING, PRE_COPY, RESUMING}
  {
    hide ValidTransition;
    TransitionTable(m.state, ERROR);
  }

  // ------------------------------------------------- single accesses, back to back

  function ReadPending(): Req {
    Req(PENDING_BYTES, 8, false, 0, [])
  }

  function ReadDataOffset(): Req {
    Req(DATA_OFFSET, 8, false, 0, [])
  }

  function ReadState(): Req {
    Req(DEVICE_STATE, 4, false, 0, [])
  }

  /** Two reads of pending_bytes in a row give the same number, and the device is asked at most once. */
  lemma PendingIsStable(m: Migr, a: Answer, b: Answer)
    ensures var (m1, r1) := Access(m, ReadPending(), a);
            var (m2, r2) := Access(m1, ReadPending(), b);
            r1 == r2 && m2 == m1 && CallOf(m1, ReadPending()).None?
  {
  }

  // ------------------------------------------------ what each access is answered

  /** The device state may change from one value to the other. */
  predicate Allowed(from: nat, to: nat) {
    || (from == 0 && to == 0) || (from == 1 && to in {0, 1, 2, 3, 4, 6}) || (from == 2 && to in {0, 2, 6})
    || (from == 3 && to in {0, 1, 2, 6}) || (from == 4 && to in {1, 4, 6})
  }

  /** Save data has been announced or prepared. */
  predicate Underway(m: Migr) {
    m.state in {2, 3} && (m.iter.Started? || m.iter.Prepared?)
  }

  /**
   Accesses that are refused whatever the device would say: a state that cannot be set, a register
   that cannot be written or has no value now, a wrong width, and the gap in front of the data.
   */
  predicate RefusedAccess(m: Migr, q: Req) {
    if q.pos + q.count > 32 then q.pos < m.dataOffset
    else if (q.pos, q.count) == (0, 4) then q.isWrite && !Allowed(m.state, q.value)
    else if (q.pos, q.count) == (8, 8) then q.isWrite
    else if (q.pos, q.count) == (16, 8) then q.isWrite || !(Underway(m) || m.state == 4)
    else if (q.pos, q.count) == (24, 8) then !(m.state == 4 || (!q.isWrite && Underway(m)))
    else true
  }

  /**
   These are answered with EINVAL, make no callback and change nothing; all others that make no callback
   succeed. A read of data_size while resuming leaves the client's value as it is.
   */
  lemma RefusedAccessIff(m: Migr, q: Req, a: Answer)
    ensures RefusedAccess(m, q) ==> CallOf(m, q).None? && Access(m, q, a) == (m, Reply(-22, 0, []))
    ensures !RefusedAccess(m, q) && CallOf(m, q).None? ==> Access(m, q, a).1.Abort? || Access(m, q, a).1.ret == q.count
    ensures m.state == 4 && (q.pos, q.count) == (24, 8) && !q.isWrite ==> Access(m, q, a).1.value == q.value
  {
    hide ValidTransition;
    if q.value < STATES {
      TransitionTable(m.state, q.value);
    }
  }

  /** The callbacks, register by register: each is made exactly then, and with these arguments. */
  lemma CallsMade(m: Migr, q: Req)
    ensures q.pos == 0 && q.count == 4 ==>
              CallOf(m, q) == if q.isWrite && Allowed(m.state, q.value) && q.value != 6 then Some(Transition(q.value))
                              else None
    ensures q.pos == 8 && q.count == 8 && !q.isWrite ==>
              CallOf(m, q) == if m.iter.Initial? || m.iter.Prepared? then Some(GetPending) else None
    ensures q.pos == 16 && q.count == 8 && !q.isWrite ==>
              CallOf(m, q) == if m.state in {2, 3} && m.iter.Started? then Some(PrepareSaving)
                              else if m.state == 4 then Some(PrepareResuming) else None
    ensures q.pos == 24 && q.count == 8 ==>
              CallOf(m, q) == if q.isWrite && m.state == 4 then Some(DataWritten(q.value)) else None
    ensures q.pos + q.count > 32 && q.pos >= m.dataOffset ==>
              CallOf(m, q) == Some(if q.isWrite then WriteData(q.data, q.pos - m.dataOffset)
                                   else ReadData(q.count, q.pos - m.dataOffset))
  {
    hide ValidTransition;
    if q.value < STATES {
      TransitionTable(m.state, q.value);
    }
  }

  // -------------------------------------------------------------- whole runs

  /** What the order of callbacks is about; other accesses leave no event. */
  datatype Event = StateSet | Pending(n: nat) | PrepareOk | PrepareFailed

  function EventOf(m: Migr, q: Req, a: Answer): Option<Event> {
    match CallOf(m, q)
    case Some(Transition(_)) => if a.ret == 0 then Some(StateSet) else None
    case Some(GetPending) => Some(Pending(a.pending))
    case Some(PrepareSaving) => Some(if a.ret < 0 then PrepareFailed else PrepareOk)
    case _ => None
  }

  /** An access together with what the device would answer. */
  datatype Input = Input(q: Req, a: Answer)

  function Run(m: Migr, ins: seq<Input>): Migr {
    if ins == [] then m
    else Access(Run(m, ins[..|ins| - 1]), ins[|ins| - 1].q, ins[|ins| - 1].a).0
  }

  /** The events of a run, in order. */
  function Log(m: Migr, ins: seq<Input>): seq<Event> {
    if ins == [] then []
    else
      var n := |ins| - 1;
      var e := EventOf(Run(m, ins[..n]), ins[n].q, ins[n].a);
      Log(m, ins[..n]) + if e.Some? then [e.value] else []
  }

  /** The iteration state that a log leaves behind. */
  function Phase(log: seq<Event>): Iteration {
    if log == [] then Initial
    else
      match log[|log| - 1]
      case StateSet => Initial
      case Pending(n) => if n == 0 then Finished else Started
      case PrepareOk => Prepared
      case PrepareFailed => Phase(log[..|log| - 1])
  }

  /** Each event came when its callback was due. */
  predicate Orderly(log: seq<Event>) {
    forall i :: 0 <= i < |log| ==> Due(Phase(log[..i]), log[i])
  }

  predicate Due(p: Iteration, e: Event) {
    match e
    case StateSet => true
    case Pending(_) => p.Initial? || p.Prepared?
    case _ => p.Started?
  }

  lemma PhaseAppend(log: seq<Event>, e: Event)
    ensures Phase(log + [e]) == match e
                                case StateSet => Initial
                                case Pending(n) => if n == 0 then Finished else Started
                                case PrepareOk => Prepared
                                case PrepareFailed => Phase(log)
  {
    assert (log + [e])[..|log|] == log;
  }

  lemma OrderlyAppend(log: seq<Event>, e: Event)
    requires Orderly(log) && Due(Phase(log), e)
    ensures Orderly(log + [e])
  {
    hide Phase;
    var l := log + [e];
    forall i | 0 <= i < |l|
      ensures Due(Phase(l[..i]), l[i])
    {
      assert l[..i] == log[..i];
      if i < |log| {
        assert l[i] == log[i];
      } else {
        assert log[..i] == log;
      }
    }
  }

  /** One access: its event was due, and moves the phase as it moves the iteration. */
  lemma AccessFollowsPhase(m: Migr, q: Req, a: Answer)
    ensures var m' := Access(m, q, a).0;
            var e := EventOf(m, q, a);
            && (e.Some? ==> Due(m.iter, e.value))
            && m'.iter == match e
                          case None => m.iter
                          case Some(StateSet) => Initial
                          case Some(Pending(n)) => if n == 0 then Finished else Started
                          case Some(PrepareOk) => Prepared
                          case Some(PrepareFailed) => m.iter
  {
    hide ValidTransition;
  }

  lemma {:induction false} RunIsOrderly(m: Migr, ins: seq<Input>)
    requires m.iter.Initial?
    ensures Orderly(Log(m, ins)) && Run(m, ins).iter == Phase(Log(m, ins))
  {
    hide Access, EventOf, Orderly, Due, Phase;
    if ins == [] {
      NoEvents();
    } else {
      var n := |ins| - 1;
      RunIsOrderly(m, ins[..n]);
      var before := Run(m, ins[..n]);
      AccessFollowsPhase(before, ins[n].q, ins[n].a);
      var log, e := Log(m, ins[..n]), EventOf(before, ins[n].q, ins[n].a);
      if e.Some? {
        PhaseAppend(log, e.value);
        OrderlyAppend(log, e.value);
      } else {
        assert log + [] == log;
      }
    }
  }

  lemma NoEvents()
    ensures Orderly([]) && Phase([]) == Initial
  {
  }

  /** A region starts out running, with no iteration begun; every run from there is orderly. */
  lemma OrderlyFromStart(dataOffset: nat, ins: seq<Input>)
    ensures Init(dataOffset).state == 1 && Init(dataOffset).dataOffset == dataOffset
    ensures Orderly(Log(Init(dataOffset), ins)) && Run(Init(dataOffset), ins).iter == Phase(Log(Init(dataOffset), ins))
  {
    hide Orderly, Phase, Log, Run;
    RunIsOrderly(Init(dataOffset), ins);
  }

  /** No device state was set in the log from i to j. */
  predicate SameState(log: seq<Event>, i: nat, j: nat) {
    forall k :: i <= k < j && k < |log| ==> !log[k].StateSet?
  }

  lemma PhaseAfter(log: seq<Event>, i: nat)
    requires i < |log|
    ensures log[i] == PrepareOk ==> Phase(log[..i + 1]) == Prepared
    ensures log[i] == Pending(0) ==> Phase(log[..i + 1]) == Finished
  {
    assert log[..i + 1][i] == log[i];
  }

  /** Once the device has reported zero, it is neither asked nor told to prepare until a state is set. */
  lemma NothingAfterZero(m: Migr, ins: seq<Input>, i: nat, j: nat)
    requires m.iter.Initial?
    requires i < j < |Log(m, ins)| && Log(m, ins)[i] == Pending(0) && SameState(Log(m, ins), i, j)
    ensures Log(m, ins)[j] == StateSet
  {
    hide Log, Run, Phase;
    RunIsOrderly(m, ins);
    var log := Log(m, ins);
    PhaseAfter(log, i);
    assert Due(Phase(log[..i + 1]), log[i + 1]);
  }

  ghost predicate PendingBetween(log: seq<Event>, i: nat, j: nat) {
    exists k :: i < k < j && k < |log| && log[k].Pending? && log[k].n > 0
  }

  /**
   In any run, from any answers of the device: between two successful preparations of save
   data without a state change in between, the device has reported a nonzero pending count.
   */
  lemma PreparationsAlternate(m: Migr, ins: seq<Input>, i: nat, j: nat)
    requires m.iter.Initial?
    requires i < j < |Log(m, ins)| && Log(m, ins)[i] == PrepareOk && Log(m, ins)[j] == PrepareOk
    requires SameState(Log(m, ins), i, j)
    ensures PendingBetween(Log(m, ins), i, j)
  {
    hide Log, Run, Phase;
    RunIsOrderly(m, ins);
    var log := Log(m, ins);
    PhaseAfter(log, i);
    assert Due(Phase(log[..i + 1]), log[i + 1]);
    PhaseAfter(log, i + 1);
    assert i + 2 < |log| ==> Due(Phase(log[..i + 2]), log[i + 2]);
  }

  /** Access k of a run writes device_state, the device goes along, and the client is told that it was written. */
  predicate Sets(m: Migr, ins: seq<Input>, k: nat)
    requires k < |ins|
  {
    var q := ins[k].q;
    && q.pos == 0 && q.count == 4 && q.isWrite && ins[k].a.ret == 0
    && Access(Run(m, ins[..k]), q, ins[k].a).1 == Reply(4, 0, [])
  }

  /** The value of the last write to device_state that succeeded, or the state before the run. */
  function LastState(m: Migr, ins: seq<Input>, n: nat): nat
    requires n <= |ins|
  {
    if n == 0 then m.state else if Sets(m, ins, n - 1) then ins[n - 1].q.value else LastState(m, ins, n - 1)
  }

  /** After any run, whatever the device answered, device_state reads as the last state that was set. */
  lemma {:induction false} StateIsLastSet(m: Migr, ins: seq<Input>, n: nat, a: Answer)
    requires n <= |ins|
    ensures var m' := Run(m, ins[..n]);
            m'.state == LastState(m, ins, n) && Access(m', ReadState(), a) == (m', Reply(4, m'.state, []))
  {
    hide ValidTransition;
    if n > 0 {
      StateIsLastSet(m, ins, n - 1, a);
      assert ins[..n][..n - 1] == ins[..n - 1];
      assert ins[..n][n - 1] == ins[n - 1];
    }
  }

  /** An access that neither asks for pending bytes nor sets the state. */
  predicate Quiet(m: Migr, input: Input) {
    match EventOf(m, input.q, input.a)
    case Some(StateSet) => false
    case Some(Pending(_)) => false
    case _ => true
  }

  predicate AllQuiet(m: Migr, ins: seq<Input>) {
    forall k :: 0 <= k < |ins| ==> Quiet(Run(m, ins[..k]), ins[k])
  }

  lemma {:induction false} QuietKeepsIteration(m: Migr, ins: seq<Input>)
    requires m.iter.Prepared? && AllQuiet(m, ins)
    ensures Run(m, ins) == m
  {
    hide Access, Quiet;
    if ins != [] {
      var n := |ins| - 1;
      var before := ins[..n];
      assert forall k :: 0 <= k < n ==> before[..k] == ins[..k] && before[k] == ins[k];
      QuietKeepsIteration(m, before);
      assert Quiet(Run(m, ins[..n]), ins[n]);
      QuietStep(m, ins[n]);
    }
  }

  lemma QuietStep(m: Migr, input: Input)
    requires m.iter.Prepared? && Quiet(m, input)
    ensures Access(m, input.q, input.a).0 == m
  {
    hide ValidTransition;
  }

  /** Within one iteration every read of data_offset returns what the first one returned. */
  lemma DataOffsetIsStable(m: Migr, a: Answer, ins: seq<Input>, b: Answer)
    requires Saving(m) && m.iter.Started? && a.ret >= 0
    requires AllQuiet(Access(m, ReadDataOffset(), a).0, ins)
    ensures var (m1, r1) := Access(m, ReadDataOffset(), a);
            Access(Run(m1, ins), ReadDataOffset(), b).1 == r1
  {
    QuietKeepsIteration(Access(m, ReadDataOffset(), a).0, ins);
  }
}
