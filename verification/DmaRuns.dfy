/**
 Runs of the DMA controller: any sequence of operations on the region table, with the hint
 cache of dma_addr_to_sg() (lib/dma.h) or without it.
 */
module DmaRuns {
  import opened Common
  import opened DirtyBitmap
  import opened DmaTable
  import opened DmaTranslate
  import opened DmaMapping
  import opened DmaLogging
  import opened DmaSearch

  /** lost tells that an assertion failed or memory outside table and bitmaps was written: nothing is known then. */
  datatype Dma = Dma(rs: seq<Region>, max: nat, pgsize: nat, hint: nat, lost: bool)

  function Fresh(max: nat): Dma {
    Dma([], max, 0, 0, false)
  }

  datatype Op =
    | AddOp(q: Request, env: AddEnv)
    | RemoveOp(base: nat, len: nat, unregErr: int)
    | RemoveAllOp
    | TranslateOp(t: Transfer)
    | MapOp(es: seq<Sg>)
    | UnmapOp(es: seq<Sg>)
    | StartOp(pgsize: nat, failAt: nat)
    | StopOp

  /** What the caller sees of an operation. */
  datatype Reply = Reply(ret: int, closed: multiset<int>, errno: Errno, sg: Option<Sg>, iovs: seq<Iov>)

  function Plain(ret: int, closed: multiset<int>): Reply {
    Reply(ret, closed, NoError, None, [])
  }

  predicate FastHit(d: Dma, t: Transfer) {
    && t.maxSg > 0 && t.len > 0
    && d.hint < |d.rs|
    && d.rs[d.hint].base <= t.addr && t.addr + t.len <= d.rs[d.hint].End()
  }

  /** Translating the span marks a page outside its bitmap. */
  predicate Strays(d: Dma, t: Transfer) {
    !AllMarksSafe(d.pgsize, t.prot, d.rs, Entries(Pieces(d.rs, t.addr, t.len), t.maxSg))
  }

  /** dma_addr_to_sg(): one region is looked at if the hint fits, otherwise the table is searched. */
  function Translate(d: Dma, t: Transfer, cached: bool): (Dma, Split) {
    if cached && FastHit(d, t) then
      var p := Piece(d.hint, t.addr, t.len);
      if d.rs[d.hint].Grants(t.prot) then
        var o := Split(MarkAll(d.pgsize, t.prot, d.rs, [p]), 1, NoError, SgOf(d.rs, p));
        (d.(rs := o.rs), o)
      else (d, Split(d.rs, -1, ProtectionDenied, t.sg))
    else
      var o := Result(d.rs, d.pgsize, t);
      (d.(rs := o.rs, hint := if o.ret > 0 then o.sg.region else d.hint), o)
  }

  /**
   The operation removes a region that is still in use, which fails an assertion, or writes outside
   the table or a bitmap.
   */
  predicate Breaks(d: Dma, op: Op) {
    match op
    case RemoveOp(base, len, unregErr) =>
      var i := FindSpan(d.rs, base, len);
      i < |d.rs| && unregErr == 0 && d.rs[i].refcnt != 0
    case TranslateOp(t) => Strays(d, t)
    case UnmapOp(es) => |d.rs| == d.max && exists k :: 0 <= k < |es| && !HasBase(d.rs, es[k].base)
    case _ => false
  }

  /** One operation; cached says whether the hint is used. */
  function Step(d: Dma, op: Op, cached: bool): (Dma, Reply)
    requires d.lost || |d.rs| <= d.max
  {
    if d.lost || Breaks(d, op) then (d.(lost := true), Plain(0, multiset{}))
    else match op
    case AddOp(q, env) =>
      var o := Add(d.rs, d.max, q, env);
      (d.(rs := o.rs), Plain(o.ret, o.closed))
    case RemoveOp(base, len, unregErr) =>
      var o := Remove(d.rs, base, len, unregErr);
      (d.(rs := o.rs), Plain(o.ret, o.closed))
    case RemoveAllOp =>
      var o := RemoveAll(d.rs);
      (d.(rs := o.rs), Plain(o.ret, o.closed))
    case TranslateOp(t) =>
      var (d', o) := Translate(d, t, cached);
      (d', Reply(o.ret, multiset{}, o.errno, Some(o.sg), []))
    case MapOp(es) =>
      var m := Map(d.rs, es);
      (d.(rs := m.rs), Plain(m.ret, multiset{}).(iovs := m.iovs))
    case UnmapOp(es) =>
      (d.(rs := Unmap(d.rs, es)), Plain(0, multiset{}))
    case StartOp(pgsize, failAt) =>
      var l := Start(d.rs, d.pgsize, pgsize, failAt);
      (d.(rs := l.rs, pgsize := l.pgsize), Plain(l.ret, multiset{}))
    case StopOp =>
      var l := Stop(d.rs, d.pgsize);
      (d.(rs := l.rs, pgsize := l.pgsize), Plain(l.ret, multiset{}))
  }

  /** What the operations that change the whole table leave behind, if the controller is not lost. */
  lemma StepLeaves(d: Dma, op: Op, cached: bool)
    requires !d.lost && |d.rs| <= d.max && !Breaks(d, op)
    ensures var (d', r) := Step(d, op, cached);
            && (op.RemoveAllOp? ==> d'.rs == [] && r.closed == Fds(d.rs))
            && (op.StopOp? ==> d'.pgsize == 0 && (d.pgsize > 0 ==> NoBitmaps(d'.rs)))
            && (op.StartOp? && d.pgsize == 0 ==>
                  && (r.ret == 0 <==> op.pgsize > 0 && AtLeastAPage(d.rs, op.pgsize) && op.failAt >= |d.rs|)
                  && d'.pgsize == if r.ret == 0 then op.pgsize else 0)
            && (op.MapOp? ==> |r.iovs| <= |op.es| && (r.ret == 0 <==> |r.iovs| == |op.es|))
            && (op.TranslateOp? && !cached ==>
                  var o := Result(d.rs, d.pgsize, op.t);
                  r.ret == o.ret && r.errno == o.errno && r.sg == Some(o.sg) && d'.rs == o.rs)
  {
    hide Start, Stop, Map;
    match op
    case StartOp(pgsize, failAt) => StartOutcome(d.rs, d.pgsize, pgsize, failAt);
    case StopOp => StopOutcome(d.rs, d.pgsize);
    case MapOp(es) => MapAnswers(d.rs, es);
    case _ =>
  }

  predicate NoBitmaps(rs: seq<Region>) {
    forall i :: 0 <= i < |rs| ==> rs[i].bitmap.None?
  }

  predicate Valid(d: Dma) {
    d.lost || (|d.rs| <= d.max && WellFormed(d.rs))
  }

  lemma TranslateMarks(d: Dma, t: Transfer, cached: bool)
    ensures SameButBitmaps(d.rs, Translate(d, t, cached).0.rs)
    ensures Translate(d, t, cached).0 == d.(rs := Translate(d, t, cached).0.rs, hint := Translate(d, t, cached).0.hint)
  {
  }

  lemma BitmapsKeepWellFormed(rs: seq<Region>, rs': seq<Region>)
    requires WellFormed(rs) && SameButBitmaps(rs, rs')
    ensures WellFormed(rs')
  {
  }

  /**
   Unless it breaks something, every operation keeps the table within its capacity, its regions
   apart, and mapped exactly when they have a descriptor.
   */
  lemma StepKeepsValid(d: Dma, op: Op, cached: bool)
    requires Valid(d)
    ensures Valid(Step(d, op, cached).0) && Step(d, op, cached).0.max == d.max
  {
    hide WellFormed, Add, Translate, Map, Unmap, Start, Stop;
    if d.lost || Breaks(d, op) {
      return;
    }
    match op
    case AddOp(q, env) => AddKeepsWellFormed(d.rs, d.max, q, env);
    case RemoveOp(base, len, _) =>
      var i := FindSpan(d.rs, base, len);
      if i < |d.rs| {
        WithoutKeepsWellFormed(d.rs, i);
      }
    case RemoveAllOp => EmptyIsWellFormed();
    case TranslateOp(t) =>
      TranslateMarks(d, t, cached);
      BitmapsKeepWellFormed(d.rs, Translate(d, t, cached).0.rs);
    case MapOp(es) => MapKeepsWellFormed(d.rs, es);
    case UnmapOp(es) => UnmapKeepsWellFormed(d.rs, es);
    case StartOp(pgsize, failAt) =>
      LoggingChangesBitmaps(d.rs, d.pgsize, pgsize, failAt);
      BitmapsKeepWellFormed(d.rs, Start(d.rs, d.pgsize, pgsize, failAt).rs);
    case StopOp =>
      LoggingChangesBitmaps(d.rs, d.pgsize, 0, 0);
      BitmapsKeepWellFormed(d.rs, Stop(d.rs, d.pgsize).rs);
  }

  lemma EmptyIsWellFormed()
    ensures WellFormed([])
  {
  }

  lemma MapKeepsWellFormed(rs: seq<Region>, es: seq<Sg>)
    requires WellFormed(rs)
    ensures |Map(rs, es).rs| == |rs| && WellFormed(Map(rs, es).rs)
  {
    TakenKeepsWellFormed(rs, es[..MappablePrefix(rs, es)]);
  }

  lemma LoggingChangesBitmaps(rs: seq<Region>, cur: nat, pgsize: nat, failAt: nat)
    ensures SameButBitmaps(rs, Start(rs, cur, pgsize, failAt).rs)
    ensures SameButBitmaps(rs, Stop(rs, cur).rs)
  {
  }

  // --------------------------------------------------------------- whole runs

  function Run(d: Dma, ops: seq<Op>, cached: bool): (r: (Dma, seq<Reply>))
    requires Valid(d)
    ensures Valid(r.0) && r.0.max == d.max
  {
    if ops == [] then (d, [])
    else
      var (d', replies) := Run(d, ops[..|ops| - 1], cached);
      StepKeepsValid(d', ops[|ops| - 1], cached);
      var (d'', reply) := Step(d', ops[|ops| - 1], cached);
      (d'', replies + [reply])
  }

  /** After any run that has broken nothing the bases are distinct, the ranges disjoint, and the table within bounds. */
  lemma TableAfterAnyRun(max: nat, ops: seq<Op>, cached: bool, i: nat, j: nat)
    requires !Run(Fresh(max), ops, cached).0.lost
    ensures var rs := Run(Fresh(max), ops, cached).0.rs;
            && |rs| <= max
            && (i < j < |rs| ==>
                  && rs[i].base != rs[j].base
                  && (rs[i].End() <= rs[j].base || rs[j].End() <= rs[i].base)
                  && forall a: nat :: !(rs[i].Contains(a) && rs[j].Contains(a)))
            && (i < |rs| ==> (rs[i].vaddr.Some? <==> rs[i].fd != -1))
  {
    var rs := Run(Fresh(max), ops, cached).0.rs;
    if i < j < |rs| {
      assert Apart(rs[i], rs[j]);
      forall a: nat
        ensures !(rs[i].Contains(a) && rs[j].Contains(a))
      {
        if rs[i].Contains(a) && rs[j].Contains(a) {
          NoAddressTwice(rs, i, j, a);
        }
      }
    }
  }

  lemma StepLosesIff(d: Dma, op: Op, cached: bool)
    requires Valid(d)
    ensures Step(d, op, cached).0.lost <==> d.lost || Breaks(d, op)
  {
    hide WellFormed, Add, Remove, Translate, Map, Unmap, Start, Stop, Breaks;
    if op.TranslateOp? {
      TranslateMarks(d, op.t, cached);
    }
  }

  // ----------------------------------------------------- when a run is lost

  /** What the operations keep to: regions end within the address space and pages have more than one byte. */
  predicate OpFits(op: Op) {
    match op
    case AddOp(q, _) => q.base + q.len <= U64
    case StartOp(pgsize, _) => pgsize != 1
    case _ => true
  }

  /** A bitmap, if there is one, has as many bytes as logging start gives a region of this length. */
  predicate Sized(r: Region, pgsize: nat) {
    pgsize > 0 && r.bitmap.Some? ==> BitmapSize(r.len, pgsize) == Some(|r.bitmap.value|)
  }

  predicate AllSized(rs: seq<Region>, pgsize: nat) {
    forall i :: 0 <= i < |rs| ==> rs[i].End() <= U64 && Sized(rs[i], pgsize)
  }

  predicate Logged(d: Dma) {
    d.lost || (d.pgsize != 1 && AllSized(d.rs, d.pgsize))
  }

  lemma {:induction false} MarkAllKeepsSized(pgsize: nat, cur: nat, prot: nat, rs: seq<Region>, ps: seq<Piece>)
    requires AllSized(rs, pgsize)
    ensures AllSized(MarkAll(cur, prot, rs, ps), pgsize)
  {
    if ps != [] && Logs(cur, prot) {
      MarkAllKeepsSized(pgsize, cur, prot, rs, ps[..|ps| - 1]);
    }
  }

  lemma TranslateKeepsSized(d: Dma, t: Transfer, cached: bool)
    requires AllSized(d.rs, d.pgsize)
    ensures AllSized(Translate(d, t, cached).0.rs, d.pgsize)
  {
    hide AllSized, MarkAll;
    PiecesTile(d.rs, t.addr, t.len);
    var es := Entries(Pieces(d.rs, t.addr, t.len), t.maxSg);
    MarkAllKeepsSized(d.pgsize, d.pgsize, t.prot, d.rs, es[..Granted(d.rs, es, t.prot)]);
    MarkAllKeepsSized(d.pgsize, d.pgsize, t.prot, d.rs, [Piece(d.hint, t.addr, t.len)]);
  }

  lemma CountsKeepSized(rs: seq<Region>, rs': seq<Region>, pgsize: nat)
    requires AllSized(rs, pgsize) && |rs'| == |rs|
    requires forall i :: 0 <= i < |rs| ==> rs'[i] == rs[i].(refcnt := rs'[i].refcnt)
    ensures AllSized(rs', pgsize)
  {
  }

  lemma StartKeepsSized(rs: seq<Region>, cur: nat, pgsize: nat, failAt: nat)
    requires AllSized(rs, cur)
    ensures var l := Start(rs, cur, pgsize, failAt);
            AllSized(l.rs, l.pgsize) && (l.pgsize == cur || l.pgsize == pgsize || l.pgsize == 0)
    ensures AllSized(Stop(rs, cur).rs, Stop(rs, cur).pgsize) && Stop(rs, cur).pgsize == 0
  {
    hide BitmapSize;
  }

  /** Whatever happens, as long as logging is on every bitmap in the table has the size that its region needs. */
  lemma StepKeepsLogged(d: Dma, op: Op, cached: bool)
    requires Valid(d) && Logged(d) && OpFits(op)
    ensures Logged(Step(d, op, cached).0)
  {
    hide WellFormed, AllSized, Add, Translate, Start, Stop, Breaks, Map, Unmap;
    if d.lost || Breaks(d, op) {
      return;
    }
    match op
    case AddOp(q, env) => AddKeepsSized(d.rs, d.max, q, env, d.pgsize);
    case RemoveOp(base, len, _) =>
      var i := FindSpan(d.rs, base, len);
      if i < |d.rs| {
        WithoutKeepsSized(d.rs, i, d.pgsize);
      }
    case RemoveAllOp => assert AllSized([], d.pgsize) by { NothingSized(d.pgsize); }
    case TranslateOp(t) =>
      TranslateMarks(d, t, cached);
      TranslateKeepsSized(d, t, cached);
    case MapOp(es) =>
      MapChangesCounts(d.rs, es);
      CountsKeepSized(d.rs, Map(d.rs, es).rs, d.pgsize);
    case UnmapOp(es) => CountsKeepSized(d.rs, Unmap(d.rs, es), d.pgsize);
    case StartOp(pgsize, failAt) => StartKeepsSized(d.rs, d.pgsize, pgsize, failAt);
    case StopOp => StartKeepsSized(d.rs, d.pgsize, 0, 0);
  }

  lemma AddKeepsSized(rs: seq<Region>, max: nat, q: Request, env: AddEnv, pgsize: nat)
    requires AllSized(rs, pgsize) && |rs| <= max && q.base + q.len <= U64
    ensures AllSized(Add(rs, max, q, env).rs, pgsize)
  {
  }

  lemma WithoutKeepsSized(rs: seq<Region>, i: nat, pgsize: nat)
    requires AllSized(rs, pgsize) && i < |rs|
    ensures AllSized(Without(rs, i), pgsize)
  {
  }

  lemma NothingSized(pgsize: nat)
    ensures AllSized([], pgsize)
  {
  }

  lemma MapChangesCounts(rs: seq<Region>, es: seq<Sg>)
    ensures var r := Map(rs, es).rs;
            |r| == |rs| && forall i :: 0 <= i < |rs| ==> r[i] == rs[i].(refcnt := r[i].refcnt)
  {
  }

  lemma {:induction false} RunKeepsLogged(max: nat, ops: seq<Op>, cached: bool)
    requires forall k :: 0 <= k < |ops| ==> OpFits(ops[k])
    ensures Logged(Run(Fresh(max), ops, cached).0)
  {
    hide WellFormed, Step, OpFits;
    EmptyIsWellFormed();
    if ops != [] {
      RunKeepsLogged(max, ops[..|ops| - 1], cached);
      StepKeepsLogged(Run(Fresh(max), ops[..|ops| - 1], cached).0, ops[|ops| - 1], cached);
    }
  }

  /**
   Whatever came before, a bitmap that is read is that of the region at the address: it is as large
   as logging start made it, and what is sent back fits into it.
   */
  lemma ReadFitsAfterRun(max: nat, ops: seq<Op>, cached: bool, addr: nat, len: nat, pgsize: nat, size: nat)
    requires forall k :: 0 <= k < |ops| ==> OpFits(ops[k])
    requires !Run(Fresh(max), ops, cached).0.lost
    ensures var d := Run(Fresh(max), ops, cached).0;
            var b := Get(d.rs, d.pgsize, addr, len, pgsize, size);
            b.ret == 0 ==>
              exists i :: 0 <= i < |d.rs| && Serves(d.rs[i], addr, len) && b.data == d.rs[i].bitmap
                          && (b.data.Some? ==>
                                && size <= |b.data.value|
                                && BitmapSize(d.rs[i].len, d.pgsize) == Some(|b.data.value|))
  {
    hide WellFormed, Run, Get, OpFits;
    EmptyIsWellFormed();
    var d := Run(Fresh(max), ops, cached).0;
    RunKeepsLogged(max, ops, cached);
    GetSucceedsIff(d.rs, d.pgsize, addr, len, pgsize, size);
    if Get(d.rs, d.pgsize, addr, len, pgsize, size).ret == 0 {
      var i :| 0 <= i < |d.rs| && Serves(d.rs[i], addr, len);
      BitmapSizeMonotone(len, d.rs[i].len, pgsize);
    }
  }

  /** Some piece that a logged write marks lies in a region without a bitmap, or is not inside its bitmap. */
  predicate LeavesBitmap(rs: seq<Region>, pgsize: nat, ps: seq<Piece>)
    requires pgsize > 0
  {
    exists k :: 0 <= k < |ps| && (NoBitmap(rs, ps[k]) || !PieceInside(rs, pgsize, ps[k]))
  }

  predicate NoBitmap(rs: seq<Region>, p: Piece) {
    p.idx < |rs| && rs[p.idx].bitmap.None?
  }

  lemma MarkSafeIff(rs: seq<Region>, pgsize: nat, p: Piece)
    requires AllSized(rs, pgsize) && pgsize > 1 && Fits(rs, p)
    ensures MarkSafe(pgsize, rs, p) <==> !NoBitmap(rs, p) && PieceInside(rs, pgsize, p)
  {
    var r := rs[p.idx];
    assert Sized(r, pgsize);
    if r.bitmap.Some? {
      MarkInsideIff(pgsize, r.base, r.len, p.addr - r.base, p.len);
    }
  }

  /**
   While the controller is in order, a translation marks a page outside its bitmap if and only if it
   is a write under logging and some piece it marks lies in a region that was added later, or has an
   offset below its region's base and no page left to wrap around to.
   */
  lemma StraysIff(d: Dma, t: Transfer)
    requires Logged(d) && !d.lost
    ensures Strays(d, t) <==>
            Logs(d.pgsize, t.prot) && LeavesBitmap(d.rs, d.pgsize, Marked(d.rs, d.pgsize, t))
  {
    hide AllSized, MarkSafe, NoBitmap, PieceInside;
    PiecesTile(d.rs, t.addr, t.len);
    var es := Entries(Pieces(d.rs, t.addr, t.len), t.maxSg);
    if Logs(d.pgsize, t.prot) {
      forall k | 0 <= k < Granted(d.rs, es, t.prot)
        ensures MarkSafe(d.pgsize, d.rs, es[k]) <==>
                !NoBitmap(d.rs, es[k]) && PieceInside(d.rs, d.pgsize, es[k])
      {
        MarkSafeIff(d.rs, d.pgsize, es[k]);
      }
      assert forall k :: 0 <= k < Granted(d.rs, es, t.prot) ==> Marked(d.rs, d.pgsize, t)[k] == es[k];
    }
  }

  /** What the caller of an operation can see beforehand: a region in use, a piece outside, a region that is gone. */
  predicate Fatal(d: Dma, op: Op) {
    match op
    case TranslateOp(t) => Logs(d.pgsize, t.prot) && LeavesBitmap(d.rs, d.pgsize, Marked(d.rs, d.pgsize, t))
    case _ => Breaks(d, op)
  }

  predicate FatalAt(max: nat, ops: seq<Op>, k: nat, cached: bool)
    requires k < |ops|
  {
    var before := Run(Fresh(max), ops[..k], cached).0;
    !before.lost && Fatal(before, ops[k])
  }

  predicate FatalSomewhere(max: nat, ops: seq<Op>, cached: bool) {
    exists k :: 0 <= k < |ops| && FatalAt(max, ops, k, cached)
  }

  /**
   A run is lost if and only if one of its operations removes a region in use, unmaps an entry of no
   region on a full table, or is a logged write with a piece in a region added later or not inside.
   */
  lemma {:induction false} LostIff(max: nat, ops: seq<Op>, cached: bool)
    requires forall k :: 0 <= k < |ops| ==> OpFits(ops[k])
    ensures Run(Fresh(max), ops, cached).0.lost <==> FatalSomewhere(max, ops, cached)
  {
    hide WellFormed, Step, Fatal, Logged, OpFits;
    EmptyIsWellFormed();
    if ops != [] {
      var n := |ops| - 1;
      LostIff(max, ops[..n], cached);
      var before := Run(Fresh(max), ops[..n], cached).0;
      RunKeepsLogged(max, ops[..n], cached);
      StepLosesIff(before, ops[n], cached);
      if !before.lost {
        FatalIff(before, ops[n]);
      }
      forall k | 0 <= k < n
        ensures FatalAt(max, ops[..n], k, cached) == FatalAt(max, ops, k, cached)
      {
        assert ops[..n][..k] == ops[..k] && ops[..n][k] == ops[k];
      }
      assert FatalSomewhere(max, ops, cached) <==>
             FatalSomewhere(max, ops[..n], cached) || FatalAt(max, ops, n, cached);
    }
  }

  lemma FatalIff(d: Dma, op: Op)
    requires Logged(d) && !d.lost
    ensures Breaks(d, op) <==> Fatal(d, op)
  {
    hide Strays, LeavesBitmap;
    if op.TranslateOp? {
      StraysIff(d, op.t);
    }
  }

  /** A page at address 0x100000 is logged and its first byte written: the mark leaves the bitmap. */
  lemma LoggedWriteBreaks(d: Dma, sg: Sg, cached: bool)
    requires Valid(d) && !d.lost && d.pgsize == 0
    requires |d.rs| == 1 && d.rs[0].base == 0x100000 && d.rs[0].len == 4096 && Writes(d.rs[0].prot)
    ensures Run(d, [StartOp(4096, 1), TranslateOp(Transfer(0x100000, 1, 1, PROT_WRITE, sg))], cached).0.lost
  {
    hide WellFormed, Step, MarkSafe;
    var ops := [StartOp(4096, 1), TranslateOp(Transfer(0x100000, 1, 1, PROT_WRITE, sg))];
    var logging := Step(d, ops[0], cached).0;
    assert ops[..1] == [ops[0]] && [ops[0]][..0] == [];
    assert Run(d, ops[..1], cached).0 == logging;
    StartedOnePage(d, cached);
    FirstLoggedWriteStrays(d.rs[0], sg);
    assert d.rs == [d.rs[0]];
    OnePieceMarked(logging, sg);
    StepLosesIff(logging, ops[1], cached);
  }

  /** On a full table an entry of a region that is gone makes unmapping write behind the array. */
  lemma UnmapBreaksFullTable(d: Dma, e: Sg, cached: bool)
    requires !d.lost && |d.rs| == d.max && !HasBase(d.rs, e.base)
    ensures FindBase(Unmap(d.rs, [e][..0]), e.base) == d.max
    ensures Step(d, UnmapOp([e]), cached).0.lost
  {
    assert [e][0] == e;
  }

  lemma StartedOnePage(d: Dma, cached: bool)
    requires Valid(d) && !d.lost && d.pgsize == 0
    requires |d.rs| == 1 && d.rs[0].base == 0x100000 && d.rs[0].len == 4096
    ensures var d' := Step(d, StartOp(4096, 1), cached).0;
            d'.rs == WithBitmaps(d.rs, 4096, 1) && d'.pgsize == 4096 && !d'.lost
  {
    assert AllLoggable(d.rs, 4096);
    StartSucceeds(d.rs, 4096);
  }

  lemma OnePieceMarked(d: Dma, sg: Sg)
    requires d.pgsize == 4096 && |d.rs| == 1 && !MarkSafe(4096, d.rs, Piece(0, 0x100000, 1))
    requires d.rs[0].base == 0x100000 && d.rs[0].len == 4096 && Writes(d.rs[0].prot)
    ensures Strays(d, Transfer(0x100000, 1, 1, PROT_WRITE, sg))
  {
    hide MarkSafe;
    assert Pieces(d.rs, 0x100000, 1) == [Piece(0, 0x100000, 1)];
    assert Entries([Piece(0, 0x100000, 1)], 1)[0] == Piece(0, 0x100000, 1);
  }

  // ------------------------------------------------------- the hint is invisible

  lemma TranslateIgnoresHint(d: Dma, e: Dma, t: Transfer)
    requires Valid(d) && !d.lost && e == d.(hint := e.hint)
    ensures Translate(d, t, true).1 == Translate(e, t, false).1
    ensures Translate(d, t, true).0.rs == Translate(e, t, false).0.rs
  {
    hide WellFormed, SplitSpan, MarkAll;
    if FastHit(d, t) {
      SpanInsideRegion(d.rs, d.pgsize, t.addr, t.len, t.maxSg, t.prot, t.sg, d.hint);
    }
  }

  /** On the fast path too, what may stray is the one piece that it marks. */
  lemma FastPathStraysIff(d: Dma, t: Transfer)
    requires Valid(d) && !d.lost && FastHit(d, t)
    ensures Strays(d, t) <==>
            && Logs(d.pgsize, t.prot) && d.rs[d.hint].Grants(t.prot)
            && !MarkSafe(d.pgsize, d.rs, Piece(d.hint, t.addr, t.len))
  {
    hide WellFormed, SplitSpan, MarkAll, MarkSafe;
    SpanInsideRegion(d.rs, d.pgsize, t.addr, t.len, t.maxSg, t.prot, t.sg, d.hint);
    var p := Piece(d.hint, t.addr, t.len);
    assert Entries(Pieces(d.rs, t.addr, t.len), t.maxSg) == [p];
    assert [p][0] == p;
  }

  lemma StepIgnoresHint(d: Dma, e: Dma, op: Op)
    requires Valid(d) && e == d.(hint := e.hint)
    ensures Step(d, op, true).1 == Step(e, op, false).1
    ensures Step(e, op, false).0 == Step(d, op, true).0.(hint := Step(e, op, false).0.hint)
  {
    hide WellFormed, Add, Remove, Translate, Map, Unmap, Start, Stop;
    assert Breaks(d, op) == Breaks(e, op);
    if op.TranslateOp? && !d.lost {
      TranslateIgnoresHint(d, e, op.t);
      TranslateMarks(d, op.t, true);
      TranslateMarks(e, op.t, false);
    }
  }

  predicate InsideRegion(r: Region, t: Transfer) {
    t.maxSg > 0 && t.len > 0 && r.base <= t.addr && t.addr + t.len <= r.End()
  }

  /** After a translation inside a region has succeeded, any other one inside it finds that region through the hint. */
  lemma HintFollows(d: Dma, t: Transfer, i: nat, u: Transfer)
    requires WellFormed(d.rs) && i < |d.rs| && InsideRegion(d.rs[i], t) && d.rs[i].Grants(t.prot)
    requires InsideRegion(d.rs[i], u)
    ensures var d' := Translate(d, t, true).0; d'.hint == i && FastHit(d', u)
  {
    hide WellFormed;
    SpanInsideRegion(d.rs, d.pgsize, t.addr, t.len, t.maxSg, t.prot, t.sg, i);
    if FastHit(d, t) {
      NoAddressTwice(d.rs, i, d.hint, t.addr);
    }
  }

  /**
   Over any run, from any hint whatsoever, the cached translations return the same counts,
   entries, errors and dirty marks as a search of the whole table every time.
   */
  lemma {:induction false} HintIsInvisible(d: Dma, e: Dma, ops: seq<Op>)
    requires Valid(d) && e == d.(hint := e.hint)
    ensures Run(d, ops, true).1 == Run(e, ops, false).1
    ensures Run(e, ops, false).0 == Run(d, ops, true).0.(hint := Run(e, ops, false).0.hint)
  {
    hide WellFormed, Step;
    if ops != [] {
      var n := |ops| - 1;
      HintIsInvisible(d, e, ops[..n]);
      StepIgnoresHint(Run(d, ops[..n], true).0, Run(e, ops[..n], false).0, ops[n]);
    }
  }

  // ------------------------------------------------------------ reference counts

  /** What the device must respect: see the comment on each case. */
  predicate Legal(d: Dma, outstanding: multiset<nat>, op: Op) {
    match op
    // the device has released the region by the time its unregister callback succeeds
    case RemoveOp(_, _, _) => !Breaks(d, op)
    case RemoveAllOp => outstanding == multiset{}
    // entries are mapped while their region is still at their index, and the call succeeds
    case MapOp(es) => Map(d.rs, es).ret == 0 && forall k :: 0 <= k < |es| ==> Current(d.rs, es[k])
    // logged writes stay inside the bitmaps
    case TranslateOp(_) => !Breaks(d, op)
    // only mapped entries are unmapped
    case UnmapOp(es) => Bases(es) <= outstanding
    case _ => true
  }

  function OutstandingAfter(outstanding: multiset<nat>, op: Op): multiset<nat> {
    match op
    case MapOp(es) => outstanding + Bases(es)
    case UnmapOp(es) => outstanding - Bases(es)
    case _ => outstanding
  }

  lemma BitmapsKeepCounts(rs: seq<Region>, rs': seq<Region>, outstanding: multiset<nat>)
    requires Counted(rs, outstanding) && SameButBitmaps(rs, rs')
    ensures Counted(rs', outstanding)
  {
    forall b | b in outstanding
      ensures HasBase(rs', b)
    {
      var i :| 0 <= i < |rs| && rs[i].base == b;
      HasBaseAt(rs', i);
    }
  }

  lemma LegalDoesNotBreak(d: Dma, outstanding: multiset<nat>, op: Op)
    requires Counted(d.rs, outstanding) && Legal(d, outstanding, op)
    ensures !Breaks(d, op)
  {
    hide Strays;
    if op.UnmapOp? {
      forall k | 0 <= k < |op.es|
        ensures HasBase(d.rs, op.es[k].base)
      {
        BasesHas(op.es, k);
      }
    }
  }

  lemma StepConserves(d: Dma, outstanding: multiset<nat>, op: Op, cached: bool)
    requires Valid(d) && !d.lost && Counted(d.rs, outstanding) && Legal(d, outstanding, op)
    ensures Counted(Step(d, op, cached).0.rs, OutstandingAfter(outstanding, op)) && !Step(d, op, cached).0.lost
  {
    hide WellFormed, Counted, Add, Translate, Map, Unmap, Start, Stop, Strays;
    LegalDoesNotBreak(d, outstanding, op);
    StepLosesIff(d, op, cached);
    match op
    case AddOp(q, env) => AddConserves(d.rs, d.max, q, env, outstanding);
    case RemoveOp(base, len, unregErr) =>
      var i := FindSpan(d.rs, base, len);
      if i < |d.rs| && unregErr == 0 {
        RemoveConserves(d.rs, i, outstanding);
      }
    case RemoveAllOp => NothingCounted();
    case TranslateOp(t) =>
      TranslateMarks(d, t, cached);
      BitmapsKeepCounts(d.rs, Translate(d, t, cached).0.rs, outstanding);
    case MapOp(es) => MapConserves(d.rs, es, outstanding);
    case UnmapOp(es) =>
      WellFormedDistinct(d.rs);
      UnmapConserves(d.rs, es, outstanding);
    case StartOp(pgsize, failAt) =>
      LoggingChangesBitmaps(d.rs, d.pgsize, pgsize, failAt);
      BitmapsKeepCounts(d.rs, Start(d.rs, d.pgsize, pgsize, failAt).rs, outstanding);
    case StopOp =>
      LoggingChangesBitmaps(d.rs, d.pgsize, 0, 0);
      BitmapsKeepCounts(d.rs, Stop(d.rs, d.pgsize).rs, outstanding);
  }

  lemma NothingCounted()
    ensures Counted([], multiset{})
  {
  }

  function OutstandingAfterAll(ops: seq<Op>): multiset<nat> {
    if ops == [] then multiset{} else OutstandingAfter(OutstandingAfterAll(ops[..|ops| - 1]), ops[|ops| - 1])
  }

  predicate AllLegal(max: nat, ops: seq<Op>) {
    forall n :: 0 <= n < |ops| ==>
      Legal(Run(Fresh(max), ops[..n], true).0, OutstandingAfterAll(ops[..n]), ops[n])
  }

  /**
   After any run in which the device keeps to its side, every region's reference count is the
   number of its entries that are mapped, although regions move when others are removed.
   */
  lemma {:induction false} CountsAfterAnyRun(max: nat, ops: seq<Op>)
    requires AllLegal(max, ops)
    ensures Counted(Run(Fresh(max), ops, true).0.rs, OutstandingAfterAll(ops)) && !Run(Fresh(max), ops, true).0.lost
  {
    hide WellFormed, Counted, Step, Legal, OutstandingAfter;
    EmptyIsWellFormed();
    if ops == [] {
      NothingCounted();
    } else {
      var n := |ops| - 1;
      var before := ops[..n];
      assert AllLegal(max, before) by {
        assert forall k :: 0 <= k < n ==> before[..k] == ops[..k] && before[k] == ops[k];
      }
      CountsAfterAnyRun(max, before);
      StepConserves(Run(Fresh(max), before, true).0, OutstandingAfterAll(before), ops[n], true);
    }
  }
}
