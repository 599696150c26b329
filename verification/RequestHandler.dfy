/**
 The code that moves descriptors (lib/libvfio-user.c, lib/irq.c): slots and the array of received
 descriptors are changed in place. closed records the calls of close(), in any order.
 */
module RequestHandler {
  import opened Common
  import opened DmaTable
  import opened DmaController
  import opened Descriptors
  import opened DescriptorRuns

  /** Entry i of a DMA_UNMAP message, if it is reached, removes no region that the device still uses. */
  predicate IdleAt(rs: seq<Region>, ss: seq<Span>, i: nat)
    requires i < |ss|
  {
    var o := UnmapMany(rs, ss, i);
    var k := FindSpan(o.rs, ss[i].base, ss[i].len);
    o.ret >= 0 && ss[i].unregErr == 0 && k < |o.rs| ==> o.rs[k].refcnt == 0
  }

  /** The assertion about users of a removed region holds throughout the message. */
  predicate Idle(rs: seq<Region>, ss: seq<Span>) {
    forall i :: 0 <= i < |ss| ==> IdleAt(rs, ss, i)
  }

  /** An array of received descriptors of which the first taken ones were consumed. */
  predicate Consumed(now: seq<int>, fds: seq<nat>, taken: nat) {
    && |now| == |fds| && taken <= |fds|
    && forall i :: 0 <= i < |fds| ==> now[i] == if i < taken then -1 else fds[i]
  }

  class Context {
    const efds: array<int>
    var errFd: int
    var reqFd: int
    const counts: seq<nat>
    const dma: Controller
    ghost var closed: multiset<int>

    ghost predicate Valid()
      reads this, efds, dma, dma.regions
    {
      && CountsOk(counts, efds.Length) && dma.Valid()
    }

    ghost function Slots(): Irqs
      reads this, efds
    {
      Irqs(efds[..], errFd, reqFd)
    }

    ghost function State(): Holders
      requires dma.Valid()
      reads this, efds, dma, dma.regions
    {
      Holders(Slots(), dma.Live())
    }

    constructor (counts: seq<nat>, ivs: nat, dma: Controller)
      requires CountsOk(counts, ivs) && dma.Valid()
      ensures Valid() && fresh(efds) && this.dma == dma && this.counts == counts
      ensures Slots() == Irqs(seq(ivs, _ => -1), -1, -1) && closed == multiset{}
    {
      this.counts := counts;
      this.dma := dma;
      efds := new int[ivs](_ => -1);
      errFd, reqFd, closed := -1, -1, multiset{};
    }

    method CloseSlot(i: nat)
      requires i < efds.Length
      modifies this`closed, efds
      ensures efds[..] == old(efds[..])[i := EmptySlot(old(efds[i]))]
      ensures closed == old(closed) + One(old(efds[i]))
    {
      if efds[i] >= 0 {
        closed := closed + multiset{efds[i]};
        efds[i] := -1;
      }
    }

    /** The loop shared by irqs_disable() and irqs_reset(). */
    method CloseSlots(lo: nat, hi: nat)
      requires hi <= efds.Length
      modifies this`closed, efds
      ensures efds[..] == Clear(old(efds[..]), lo, hi).efds
      ensures closed == old(closed) + Clear(old(efds[..]), lo, hi).closed
    {
      ghost var was := efds[..];
      var i := lo;
      while i < hi
        invariant lo <= i && (i <= hi || i == lo)
        invariant efds[..] == Clear(was, lo, Min(i, hi)).efds
        invariant closed == old(closed) + Clear(was, lo, Min(i, hi)).closed
      {
        CloseOne(was, old(closed), lo, i);
        i := i + 1;
      }
    }

    method CloseOne(ghost was: seq<int>, ghost c0: multiset<int>, lo: nat, i: nat)
      requires lo <= i < efds.Length == |was|
      requires efds[..] == Clear(was, lo, i).efds && closed == c0 + Clear(was, lo, i).closed
      modifies this`closed, efds
      ensures efds[..] == Clear(was, lo, i + 1).efds && closed == c0 + Clear(was, lo, i + 1).closed
    {
      hide Clear, EmptySlot, One;
      ClearStep(was, lo, i);
      CloseSlot(i);
      assert closed == c0 + Clear(was, lo, i + 1).closed;
    }

    /** irqs_disable() */
    method IrqsDisable(index: nat, start: nat, count: nat)
      requires CountsOk(counts, efds.Length) && index < NUM_IRQS && start + count <= counts[index]
      modifies this`errFd, this`reqFd, this`closed, efds
      ensures Slots() == Disable(old(Slots()), counts, index, start, count).irqs
      ensures closed == old(closed) + Disable(old(Slots()), counts, index, start, count).closed
    {
      hide Clear;
      var hi := if count == 0 then counts[index] else count;
      if index == ERR {
        if start < hi && errFd >= 0 {
          closed := closed + multiset{errFd};
          errFd := -1;
        }
      } else if index == REQ {
        if start < hi && reqFd >= 0 {
          closed := closed + multiset{reqFd};
          reqFd := -1;
        }
      } else {
        CloseSlots(start, hi);
      }
    }

    /** irqs_reset() */
    method IrqsReset()
      requires CountsOk(counts, efds.Length)
      modifies this`errFd, this`reqFd, this`closed, efds
      ensures Slots() == ResetIrqs(old(Slots()), counts).irqs
      ensures closed == old(closed) + ResetIrqs(old(Slots()), counts).closed
    {
      hide Clear, Disable;
      IrqsDisable(REQ, 0, 0);
      IrqsDisable(ERR, 0, 0);
      CloseSlots(0, efds.Length);
    }

    /** irqs_set_data_eventfd() */
    method SetDataEventfd(start: nat, data: array<int>, ghost fds: seq<nat>)
      requires data != efds && Consumed(data[..], fds, 0) && start + data.Length <= efds.Length
      modifies this`closed, efds, data
      ensures efds[..] == Assign(old(efds[..]), start, fds, |fds|).efds
      ensures closed == old(closed) + Assign(old(efds[..]), start, fds, |fds|).closed
      ensures Consumed(data[..], fds, |fds|)
    {
      ghost var was := efds[..];
      var j := 0;
      while j < data.Length
        invariant j <= data.Length
        invariant efds[..] == Assign(was, start, fds, j).efds
        invariant closed == old(closed) + Assign(was, start, fds, j).closed
        invariant Consumed(data[..], fds, j)
      {
        AssignOne(was, old(closed), start, data, fds, j);
        j := j + 1;
      }
    }

    method AssignOne(ghost was: seq<int>, ghost c0: multiset<int>, start: nat, data: array<int>,
                     ghost fds: seq<nat>, j: nat)
      requires data != efds && efds.Length == |was| && j < data.Length && start + j < efds.Length
      requires Consumed(data[..], fds, j)
      requires efds[..] == Assign(was, start, fds, j).efds && closed == c0 + Assign(was, start, fds, j).closed
      modifies this`closed, efds, data
      ensures Consumed(data[..], fds, j + 1)
      ensures efds[..] == Assign(was, start, fds, j + 1).efds
      ensures closed == c0 + Assign(was, start, fds, j + 1).closed
    {
      hide Assign, EmptySlot, One;
      AssignStep(was, start, fds, j);
      CloseSlot(start + j);
      efds[start + j] := data[j];
      data[j] := -1;
      assert closed == c0 + Assign(was, start, fds, j + 1).closed;
    }

    /** handle_device_set_irqs() */
    method HandleSetIrqs(s: IrqSet, sizeOk: bool, fds: array<int>, trigger: int, ghost orig: seq<nat>)
      returns (ret: int)
      requires CountsOk(counts, efds.Length) && fds != efds && Consumed(fds[..], orig, 0)
      modifies this`errFd, this`reqFd, this`closed, efds, fds
      ensures var r := SetIrqs(old(Slots()), counts, s, sizeOk, orig, trigger);
              && Slots() == r.irqs && ret == r.ret
              && closed == old(closed) + r.closed && Consumed(fds[..], orig, r.taken)
    {
      hide Clear, Disable, Assign;
      if !sizeOk || !ValidSet(counts, s, fds.Length) {
        return -EINVAL;
      }
      if s.action != ACTION_TRIGGER {
        return 0;
      }
      if (s.data == DATA_NONE && s.count == 0) || (s.data == DATA_EVENTFD && fds.Length == 0) {
        IrqsDisable(s.index, s.start, s.count);
        return 0;
      }
      if s.data == DATA_EVENTFD {
        SetDataEventfd(s.start, fds, orig);
        return 0;
      }
      return trigger;
    }

    // ------------------------------------------------------ DMA messages

    /** One turn of the loop of handle_dma_map_or_unmap() that adds a region with its descriptor. */
    method MapEntry(fd: int, e: Entry) returns (ret: int)
      requires Valid() && fd >= -1
      modifies this`closed, dma`nregions, dma.regions
      ensures Valid()
      ensures var d := MapOne(old(dma.Live()), dma.maxRegions, fd, e);
              dma.Live() == d.rs && ret == d.ret && closed == old(closed) + d.closed
    {
      hide Add, IdenticalReAdd, MmapFails, WellFormed;
      var c;
      ret, c := dma.AddRegion(RequestOf(e, fd), e.env);
      closed := closed + c;
      if ret < 0 {
        if fd != -1 {
          closed := closed + multiset{fd};
        }
        return;
      }
      ret := 0;
    }

    /** consume_fd(), within the array */
    static method ConsumeFd(fds: array<int>, index: nat, ghost orig: seq<nat>) returns (fd: int)
      requires Consumed(fds[..], orig, index) && index < fds.Length
      modifies fds
      ensures fd == orig[index] && Consumed(fds[..], orig, index + 1)
    {
      fd := fds[index];
      fds[index] := -1;
    }

    /** handle_dma_map_or_unmap(), mapping */
    method HandleDmaMap(es: seq<Entry>, fds: array<int>, ghost orig: seq<nat>) returns (ret: int)
      requires Valid() && fds != efds && Consumed(fds[..], orig, 0)
      modifies this`closed, dma`nregions, dma.regions, fds
      ensures Valid()
      ensures var m := MapMany(old(dma.Live()), dma.maxRegions, orig, es, |es|);
              && dma.Live() == m.rs && ret == m.ret
              && closed == old(closed) + m.closed && Consumed(fds[..], orig, m.taken)
    {
      hide MapMany, MapOne, WellFormed, Consumed;
      ghost var rs := dma.Live();
      MapNothing(rs, dma.maxRegions, orig, es);
      ret := 0;
      var i, fdi := 0, 0;
      while i < |es|
        invariant i <= |es| && Valid()
        invariant var m := MapMany(rs, dma.maxRegions, orig, es, i);
                  && dma.Live() == m.rs && ret == m.ret >= 0
                  && closed == old(closed) + m.closed && fdi == m.taken && Consumed(fds[..], orig, m.taken)
      {
        var fd := -1;
        MapNext(rs, dma.maxRegions, orig, es, i);
        if es[i].mappable {
          assert fds.Length == |orig| by { ConsumedLength(fds[..], orig, fdi); }
          if fdi >= fds.Length {
            MapManyStopped(rs, dma.maxRegions, orig, es, i + 1, |es|);
            return -EINVAL;
          }
          fd := ConsumeFd(fds, fdi, orig);
          fdi := fdi + 1;
        }
        ret := MapEntry(fd, es[i]);
        i := i + 1;
        if ret < 0 {
          MapManyStopped(rs, dma.maxRegions, orig, es, i, |es|);
          return;
        }
      }
    }

    /** handle_dma_map_or_unmap(), unmapping; the device has released what is removed. */
    method HandleDmaUnmap(ss: seq<Span>) returns (ret: int)
      requires Valid() && Idle(dma.Live(), ss)
      modifies this`closed, dma`nregions, dma.regions
      ensures Valid()
      ensures var o := UnmapMany(old(dma.Live()), ss, |ss|);
              dma.Live() == o.rs && ret == o.ret && closed == old(closed) + o.closed
    {
      hide UnmapMany, Remove, WellFormed, Idle, FindSpan;
      ghost var rs := dma.Live();
      assert UnmapMany(rs, ss, 0) == Outcome(rs, 0, multiset{}) by { NothingUnmapped(rs, ss); }
      ret := 0;
      var i := 0;
      while i < |ss|
        invariant i <= |ss| && Valid()
        invariant var o := UnmapMany(rs, ss, i);
                  dma.Live() == o.rs && ret == o.ret >= 0 && closed == old(closed) + o.closed
      {
        MayRemove(rs, ss, i);
        UnmapNext(rs, ss, i);
        var c;
        ret, c := dma.RemoveRegion(ss[i].base, ss[i].len, ss[i].unregErr);
        closed := closed + c;
        i := i + 1;
        if ret < 0 {
          UnmapManyStopped(rs, ss, i, |ss|);
          return;
        }
      }
    }

    /** The end of process_request(): received descriptors that nobody took are closed. */
    method CloseLeftovers(fds: array<int>, ghost orig: seq<nat>, ghost taken: nat)
      requires Consumed(fds[..], orig, taken)
      modifies this`closed
      ensures closed == old(closed) + multiset(orig[taken..])
    {
      var i := 0;
      while i < fds.Length
        invariant i <= fds.Length
        invariant closed == old(closed) + multiset(orig[taken..Max(i, taken)])
      {
        LeftoverStep(orig, taken, i);
        if fds[i] != -1 {
          closed := closed + multiset{fds[i]};
        }
        i := i + 1;
      }
      assert orig[taken..|orig|] == orig[taken..];
    }

    /** process_request(), for the descriptors that came with the message. */
    method ProcessRequest(msg: Message, fds: array<int>, ghost orig: seq<nat>)
      requires Valid() && fds != efds && Consumed(fds[..], orig, 0)
      requires msg.DmaUnmap? ==> Idle(dma.Live(), msg.ss)
      modifies this`errFd, this`reqFd, this`closed, efds, dma`nregions, dma.regions, fds
      ensures Valid()
      ensures var r := Handle(old(State()), counts, dma.maxRegions, msg, orig);
              State() == r.holders && closed == old(closed) + r.ledger.closed
    {
      hide SetIrqs, MapMany, UnmapMany, WellFormed, Consumed;
      ghost var taken := 0;
      var ret;
      match msg {
        case SetInterrupts(s, sizeOk, trigger) =>
          taken := SetIrqs(Slots(), counts, s, sizeOk, orig, trigger).taken;
          ret := HandleSetIrqs(s, sizeOk, fds, trigger, orig);
        case DmaMap(es) =>
          taken := MapMany(dma.Live(), dma.maxRegions, orig, es, |es|).taken;
          ret := HandleDmaMap(es, fds, orig);
        case DmaUnmap(ss) =>
          ret := HandleDmaUnmap(ss);
        case Other =>
      }
      CloseLeftovers(fds, orig, taken);
      assert orig[0..] == orig;
    }

    /** vfu_reset_ctx() */
    method ResetCtx()
      requires Valid()
      modifies this`errFd, this`reqFd, this`closed, efds, dma`nregions, dma.regions
      ensures Valid()
      ensures var r := Reset(old(State()), counts);
              State() == r.holders && closed == old(closed) + r.ledger.closed
    {
      hide ResetIrqs, WellFormed, Fds;
      var c := dma.RemoveRegions();
      closed := closed + c;
      IrqsReset();
    }
  }

  lemma ConsumedLength(now: seq<int>, fds: seq<nat>, taken: nat)
    requires Consumed(now, fds, taken)
    ensures |now| == |fds|
  {
  }

  lemma LeftoverStep(fds: seq<nat>, taken: nat, i: nat)
    requires taken <= |fds| && i < |fds|
    ensures multiset(fds[taken..Max(i + 1, taken)])
         == multiset(fds[taken..Max(i, taken)]) + if i < taken then multiset{} else multiset{fds[i]}
  {
    if taken <= i {
      assert fds[taken..i + 1] == fds[taken..i] + [fds[i]];
    }
  }

  lemma NothingUnmapped(rs: seq<Region>, ss: seq<Span>)
    ensures UnmapMany(rs, ss, 0) == Outcome(rs, 0, multiset{})
  {
  }

  /** The region that entry i names, if any, may be removed. */
  lemma MayRemove(rs: seq<Region>, ss: seq<Span>, i: nat)
    requires Idle(rs, ss) && i < |ss| && UnmapMany(rs, ss, i).ret >= 0 && WellFormed(UnmapMany(rs, ss, i).rs)
    ensures var t, s := UnmapMany(rs, ss, i).rs, ss[i];
            s.unregErr == 0 ==>
              forall k :: 0 <= k < |t| && t[k].base == s.base && t[k].len == s.len ==> t[k].refcnt == 0
  {
    hide UnmapMany;
    assert IdleAt(rs, ss, i);
    var t, s := UnmapMany(rs, ss, i).rs, ss[i];
    forall k | 0 <= k < |t| && t[k].base == s.base && t[k].len == s.len
      ensures k == FindSpan(t, s.base, s.len)
    {
    }
  }
}
