/**
 The state of the slow search part way through a span (lib/dma.c, _dma_addr_sg_split),
 and how each kind of step and each exit relates it to SplitSpan.
 */
module DmaSearch {
  import opened Common
  import opened DmaTable
  import opened DmaTranslate
  import DmaLogging

  /** The arguments of a translation. */
  function Result(rs: seq<Region>, pgsize: nat, t: Transfer): Split {
    SplitSpan(rs, pgsize, t.addr, t.len, t.maxSg, t.prot, t.sg)
  }

  /** The pieces in done have been cut off the span and [addr, addr + len) is left of it. */
  ghost predicate Cursor(rs: seq<Region>, t: Transfer, done: seq<Piece>, addr: nat, len: nat) {
    && Pieces(rs, t.addr, t.len) == done + Pieces(rs, addr, len)
    && (forall k :: 0 <= k < |done| ==> Fits(rs, done[k]))
    && Total(done) + len == t.len
  }

  /** Entries have been made for the pieces es; cur is the table and sg the caller's entry as they are now. */
  ghost predicate Effects(rs: seq<Region>, pgsize: nat, t: Transfer, es: seq<Piece>, cur: seq<Region>, sg: Sg) {
    && (forall k :: 0 <= k < |es| ==> Fits(rs, es[k]))
    && Granted(rs, es, t.prot) == |es|
    && cur == MarkAll(pgsize, t.prot, rs, es)
    && sg == LastSg(rs, es, t.sg)
  }

  ghost predicate Progress(rs: seq<Region>, pgsize: nat, t: Transfer, done: seq<Piece>,
                           addr: nat, len: nat, cur: seq<Region>, sg: Sg)
  {
    Cursor(rs, t, done, addr, len) && Effects(rs, pgsize, t, Entries(done, t.maxSg), cur, sg)
  }

  lemma ProgressStart(rs: seq<Region>, pgsize: nat, t: Transfer)
    ensures Progress(rs, pgsize, t, [], t.addr, t.len, rs, t.sg)
  {
    assert [] + Pieces(rs, t.addr, t.len) == Pieces(rs, t.addr, t.len);
    assert Entries([], t.maxSg) == [];
  }

  /** p is the piece that comes next: its region holds the address. */
  predicate Next(rs: seq<Region>, p: Piece, addr: nat, len: nat) {
    && len > 0 && p.idx < |rs| && rs[p.idx].Contains(addr)
    && p.addr == addr && p.len == Min(rs[p.idx].End() - addr, len)
  }

  lemma NextIsHead(rs: seq<Region>, p: Piece, addr: nat, len: nat)
    requires WellFormed(rs) && Next(rs, p, addr, len)
    ensures Fits(rs, p) && p.addr == addr && p.len <= len
    ensures Pieces(rs, addr, len) == [p] + Pieces(rs, addr + p.len, len - p.len)
  {
    NoAddressTwice(rs, p.idx, Find(rs, addr), addr);
  }

  lemma {:induction false} TotalAppend(ps: seq<Piece>, p: Piece)
    ensures Total(ps + [p]) == Total(ps) + p.len
  {
    if ps == [] {
      assert ps + [p] == [p];
      assert [p][1..] == [];
    } else {
      assert (ps + [p])[1..] == ps[1..] + [p];
      TotalAppend(ps[1..], p);
    }
  }

  lemma GrantedAppend(rs: seq<Region>, ps: seq<Piece>, p: Piece, prot: nat)
    requires Granted(rs, ps, prot) == |ps| && p.idx < |rs| && rs[p.idx].Grants(prot)
    ensures Granted(rs, ps + [p], prot) == |ps| + 1
  {
  }

  lemma EntriesAppend(ps: seq<Piece>, p: Piece, maxSg: int)
    ensures Entries(ps + [p], maxSg) == if |ps| < maxSg then Entries(ps, maxSg) + [p] else Entries(ps, maxSg)
    ensures |ps| < maxSg ==> Entries(ps, maxSg) == ps
  {
  }

  lemma CursorStep(rs: seq<Region>, t: Transfer, done: seq<Piece>, p: Piece, addr: nat, len: nat)
    requires Cursor(rs, t, done, addr, len) && Fits(rs, p) && p.len <= len
    requires Pieces(rs, addr, len) == [p] + Pieces(rs, addr + p.len, len - p.len)
    ensures Cursor(rs, t, done + [p], addr + p.len, len - p.len)
  {
    var rest := Pieces(rs, addr + p.len, len - p.len);
    assert done + ([p] + rest) == (done + [p]) + rest;
    TotalAppend(done, p);
  }

  lemma EffectsStep(rs: seq<Region>, pgsize: nat, t: Transfer, es: seq<Piece>, p: Piece, cur: seq<Region>, sg: Sg)
    requires Effects(rs, pgsize, t, es, cur, sg) && Fits(rs, p) && rs[p.idx].Grants(t.prot)
    ensures Effects(rs, pgsize, t, es + [p],
                    if Logs(pgsize, t.prot) then Mark(pgsize, cur, p) else cur, SgOf(rs, p))
  {
    GrantedAppend(rs, es, p, t.prot);
    assert (es + [p])[..|es|] == es;
  }

  /** One more piece, for which there is room and permission. */
  lemma StepWithEntry(rs: seq<Region>, pgsize: nat, t: Transfer, done: seq<Piece>, p: Piece,
                      addr: nat, len: nat, cur: seq<Region>, sg: Sg)
    requires WellFormed(rs) && Progress(rs, pgsize, t, done, addr, len, cur, sg) && Next(rs, p, addr, len)
    requires |done| < t.maxSg && rs[p.idx].Grants(t.prot)
    ensures p.len <= len && rs[p.idx].base <= p.addr
    ensures Progress(rs, pgsize, t, done + [p], addr + p.len, len - p.len,
                     if Logs(pgsize, t.prot) then Mark(pgsize, cur, p) else cur, SgOf(rs, p))
  {
    NextIsHead(rs, p, addr, len);
    CursorStep(rs, t, done, p, addr, len);
    EntriesAppend(done, p, t.maxSg);
    EffectsStep(rs, pgsize, t, Entries(done, t.maxSg), p, cur, sg);
  }

  /** One more piece that is only counted. */
  lemma StepWithoutEntry(rs: seq<Region>, pgsize: nat, t: Transfer, done: seq<Piece>, p: Piece,
                         addr: nat, len: nat, cur: seq<Region>, sg: Sg)
    requires WellFormed(rs) && Progress(rs, pgsize, t, done, addr, len, cur, sg) && Next(rs, p, addr, len)
    requires |done| >= t.maxSg
    ensures p.len <= len
    ensures Progress(rs, pgsize, t, done + [p], addr + p.len, len - p.len, cur, sg)
  {
    NextIsHead(rs, p, addr, len);
    CursorStep(rs, t, done, p, addr, len);
    EntriesAppend(done, p, t.maxSg);
  }

  /** If the first n pieces are granted and the next one is, it is among the granted ones. */
  lemma GrantedReaches(rs: seq<Region>, es: seq<Piece>, n: nat, prot: nat)
    requires n < |es| && Granted(rs, es[..n], prot) == n
    requires es[n].idx < |rs| && rs[es[n].idx].Grants(prot)
    ensures n < Granted(rs, es, prot)
  {
    assert forall k :: 0 <= k < n ==> es[k] == es[..n][k];
  }

  /** The marks of the next piece are safe in the table as it is now. */
  lemma NextMarkSafe(rs: seq<Region>, pgsize: nat, t: Transfer, done: seq<Piece>, p: Piece,
                     addr: nat, len: nat, cur: seq<Region>, sg: Sg)
    requires WellFormed(rs) && Progress(rs, pgsize, t, done, addr, len, cur, sg) && Next(rs, p, addr, len)
    requires AllMarksSafe(pgsize, t.prot, rs, Entries(Pieces(rs, t.addr, t.len), t.maxSg))
    requires |done| < t.maxSg && Logs(pgsize, t.prot) && rs[p.idx].Grants(t.prot)
    ensures MarkSafe(pgsize, cur, p)
  {
    hide WellFormed, Pieces, MarkSafe, MarkAll;
    NextIsHead(rs, p, addr, len);
    var es := Entries(Pieces(rs, t.addr, t.len), t.maxSg);
    assert es[|done|] == p && Entries(done, t.maxSg) == done && es[..|done|] == done;
    GrantedReaches(rs, es, |done|, t.prot);
    DmaLogging.MarkAllIgnoresProt(pgsize, t.prot, rs, Entries(done, t.maxSg));
    DmaLogging.MarkAllKeepsSafe(pgsize, rs, Entries(done, t.maxSg), p);
  }

  /** Nothing is left: the count is reported. */
  lemma ProgressDone(rs: seq<Region>, pgsize: nat, t: Transfer, done: seq<Piece>, addr: nat, cur: seq<Region>, sg: Sg)
    requires Progress(rs, pgsize, t, done, addr, 0, cur, sg)
    ensures Result(rs, pgsize, t) ==
            Split(cur, if |done| > t.maxSg then -1 - |done| else |done|, NoError, sg)
  {
    assert done + Pieces(rs, addr, 0) == done;
    WholePrefix(Entries(done, t.maxSg));
  }

  lemma WholePrefix(ps: seq<Piece>)
    ensures ps[..|ps|] == ps
  {
  }

  /** The next address is in no region. */
  lemma ProgressStuck(rs: seq<Region>, pgsize: nat, t: Transfer, done: seq<Piece>,
                      addr: nat, len: nat, cur: seq<Region>, sg: Sg)
    requires Progress(rs, pgsize, t, done, addr, len, cur, sg) && len > 0
    requires forall j :: 0 <= j < |rs| ==> !rs[j].Contains(addr)
    ensures Result(rs, pgsize, t) == Split(cur, -1, NotFound, sg)
  {
    assert Find(rs, addr) == |rs|;
    assert done + Pieces(rs, addr, len) == done;
    WholePrefix(Entries(done, t.maxSg));
  }

  /** The next piece gets an entry but its region does not grant the protection. */
  lemma ProgressDenied(rs: seq<Region>, pgsize: nat, t: Transfer, done: seq<Piece>, p: Piece,
                       addr: nat, len: nat, cur: seq<Region>, sg: Sg)
    requires WellFormed(rs) && Progress(rs, pgsize, t, done, addr, len, cur, sg) && Next(rs, p, addr, len)
    requires |done| < t.maxSg && !rs[p.idx].Grants(t.prot)
    ensures Result(rs, pgsize, t) == Split(cur, -1, ProtectionDenied, sg)
  {
    hide WellFormed, MarkAll;
    NextIsHead(rs, p, addr, len);
    var es := Entries(Pieces(rs, t.addr, t.len), t.maxSg);
    assert es[..|done|] == done && es[|done|] == p;
    assert Entries(done, t.maxSg) == done;
    assert Granted(rs, es, t.prot) == |done|;
  }

  /** A successful translation leaves an entry for a region of the table. */
  lemma LastEntryInTable(rs: seq<Region>, pgsize: nat, t: Transfer)
    requires Result(rs, pgsize, t).ret > 0
    ensures Result(rs, pgsize, t).sg.region < |rs|
  {
    PiecesTile(rs, t.addr, t.len);
  }
}
