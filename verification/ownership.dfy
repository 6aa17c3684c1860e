/** Buffer ownership across the progress engine's outcomes. Each lemma takes
    as hypotheses the state change that the corresponding Endpoint method
    ensures, written over the values of the fields it changes, and concludes
    that the inject buffers, the unexpected-message entries and the receive
    entries are still each owned exactly once (InjectPool, UnexpPool,
    RecvPool), and on the response side that every inject buffer of a peer
    is free or still owned by a queued response. */
module Ownership {
  import opened Types
  import opened Accounting
  import opened Matching
  import opened Responses
  import opened Progress

  lemma InjectSwap(q: seq<Slot>, u: seq<UnexpMsg>, o: seq<UnexpMsg>, free: set<nat>,
                   held: multiset<nat>, all: set<nat>)
    requires InjectPool(q, u, o, free, held, all)
    ensures InjectPool(q, o, u, free, held, all)
  {
    var bq, bu, bo := Bag(q, SlotInjectRef), Bag(u, UnexpInjectRef), Bag(o, UnexpInjectRef);
    assert bq + bu + bo == bq + bo + bu;
  }

  lemma UnexpSwap(u: seq<UnexpMsg>, o: seq<UnexpMsg>, free: set<nat>, all: set<nat>)
    requires UnexpPool(u, o, free, all)
    ensures UnexpPool(o, u, free, all)
  {
    assert Bag(u, UnexpSlot) + Bag(o, UnexpSlot) == Bag(o, UnexpSlot) + Bag(u, UnexpSlot);
  }

  lemma RecvSwap(a: seq<RxEntry>, b: seq<RxEntry>, free: set<nat>, all: set<nat>)
    requires RecvPool(a, b, free, all)
    ensures RecvPool(b, a, free, all)
  {
    assert Bag(a, RecvSlot) + Bag(b, RecvSlot) == Bag(b, RecvSlot) + Bag(a, RecvSlot);
  }

  /** The pools seen from one kind of traffic are the pools of the endpoint. */
  lemma PickPools(tagged: bool, q: seq<Slot>, um: seq<UnexpMsg>, ut: seq<UnexpMsg>, inj: set<nat>,
                  held: multiset<nat>, bufs: set<nat>, uf: set<nat>, uslots: set<nat>,
                  rq: seq<RxEntry>, tq: seq<RxEntry>, rf: set<nat>, rslots: set<nat>)
    ensures InjectPool(q, um, ut, inj, held, bufs) <==>
            InjectPool(q, Pick(tagged, um, ut), Pick(!tagged, um, ut), inj, held, bufs)
    ensures UnexpPool(um, ut, uf, uslots) <==> UnexpPool(Pick(tagged, um, ut), Pick(!tagged, um, ut), uf, uslots)
    ensures RecvPool(rq, tq, rf, rslots) <==> RecvPool(Pick(tagged, rq, tq), Pick(!tagged, rq, tq), rf, rslots)
  {
    if tagged {
      if InjectPool(q, um, ut, inj, held, bufs) { InjectSwap(q, um, ut, inj, held, bufs); }
      if InjectPool(q, ut, um, inj, held, bufs) { InjectSwap(q, ut, um, inj, held, bufs); }
      if UnexpPool(um, ut, uf, uslots) { UnexpSwap(um, ut, uf, uslots); }
      if UnexpPool(ut, um, uf, uslots) { UnexpSwap(ut, um, uf, uslots); }
      if RecvPool(rq, tq, rf, rslots) { RecvSwap(rq, tq, rf, rslots); }
      if RecvPool(tq, rq, rf, rslots) { RecvSwap(tq, rq, rf, rslots); }
    }
  }

  /** The no-match outcome of smr_progress_cmd_msg (Endpoint.CmdMsg with
      out.Queued?): the command's inject buffer moves with it from the
      command queue to the unexpected list, and the unexpected entry it
      took leaves the free pool. */
  lemma QueuedKeepsPools(h: Hdr, s: nat, held: multiset<nat>, bufs: set<nat>, uslots: set<nat>,
                         q: seq<Slot>, um: seq<UnexpMsg>, ut: seq<UnexpMsg>, inj: set<nat>, uf: set<nat>,
                         q': seq<Slot>, um': seq<UnexpMsg>, ut': seq<UnexpMsg>, uf': set<nat>)
    requires InjectPool(q, um, ut, inj, held, bufs) && UnexpPool(um, ut, uf, uslots)
    requires |q| >= 1 && q[0] == CmdSlot(h)
    requires q' == q[1..] && s in uf && uf' == uf - {s}
    requires Pick(h.op == OpTagged, um', ut') == Pick(h.op == OpTagged, um, ut) + [UnexpMsg(s, h)]
    requires Pick(h.op != OpTagged, um', ut') == Pick(h.op != OpTagged, um, ut)
    ensures InjectPool(q', um', ut', inj, held, bufs) && UnexpPool(um', ut', uf', uslots)
  {
    var t := h.op == OpTagged;
    var rq: seq<RxEntry> := [];
    PickPools(t, q, um, ut, inj, held, bufs, uf, uslots, rq, rq, {}, {});
    PickPools(t, q', um', ut', inj, held, bufs, uf', uslots, rq, rq, {}, {});
    InjectEnqueue(q, Pick(t, um, ut), Pick(!t, um, ut), inj, held, bufs, s, h);
    UnexpEnqueue(Pick(t, um, ut), Pick(!t, um, ut), uf, uslots, s, h);
  }

  /** The match outcome of smr_progress_cmd_msg (Endpoint.CmdMsg with
      out.Delivered?, as DeliveredInto states it): the command leaves the
      queue and its inject buffer goes back to the pool, and the i-th posted
      entry is freed or kept with a new first iov `v`. */
  lemma DeliveredKeepsPools(h: Hdr, i: nat, freed: bool, v: Iov, held: multiset<nat>, bufs: set<nat>,
                            rslots: set<nat>, q: seq<Slot>, um: seq<UnexpMsg>, ut: seq<UnexpMsg>,
                            inj: set<nat>, rq: seq<RxEntry>, tq: seq<RxEntry>, rf: set<nat>,
                            q': seq<Slot>, inj': set<nat>, rq': seq<RxEntry>, tq': seq<RxEntry>, rf': set<nat>)
    requires InjectPool(q, um, ut, inj, held, bufs) && RecvPool(rq, tq, rf, rslots)
    requires |q| >= 1 && q[0] == CmdSlot(h) && (h.op == OpMsg || h.op == OpTagged)
    requires i < |Pick(h.op == OpTagged, rq, tq)|
    requires q' == q[1..] && inj' == inj + InjectOf(h)
    requires Pick(h.op != OpTagged, rq', tq') == Pick(h.op != OpTagged, rq, tq)
    requires var p, e := Pick(h.op == OpTagged, rq, tq), Pick(h.op == OpTagged, rq, tq)[i];
      && (freed ==> Pick(h.op == OpTagged, rq', tq') == RemoveAt(p, i) && rf' == rf + {e.slot})
      && (!freed ==> Pick(h.op == OpTagged, rq', tq') == p[i := e.(iov := e.iov[0 := v])] && rf' == rf)
    ensures InjectPool(q', um, ut, inj', held, bufs) && RecvPool(rq', tq', rf', rslots)
  {
    var t := h.op == OpTagged;
    InjectConsume(q, um, ut, inj, held, bufs, h);
    PickPools(t, q, um, ut, inj, held, bufs, {}, {}, rq, tq, rf, rslots);
    PickPools(t, q, um, ut, inj, held, bufs, {}, {}, rq', tq', rf', rslots);
    if freed {
      PoolRetire(Pick(t, rq, tq), Pick(!t, rq, tq), rf, rslots, i);
    } else {
      PoolShrink(Pick(t, rq, tq), Pick(!t, rq, tq), rf, rslots, i, v);
    }
  }

  /** smr_progress_cmd_rma once it consumed both slots (Endpoint.CmdRma
      outside the full-CQ retry): a rejected command keeps its inject buffer
      out of the pool; a delivered write returns it; a delivered read
      request leaves it with the initiator, which copies the data out and
      frees it when it handles the response. */
  lemma RmaKeepsPools(h: Hdr, d: seq<RmaIov>, rejected: bool, held: multiset<nat>, bufs: set<nat>,
                      q: seq<Slot>, um: seq<UnexpMsg>, ut: seq<UnexpMsg>, inj: set<nat>,
                      q': seq<Slot>, inj': set<nat>)
    requires InjectPool(q, um, ut, inj, held, bufs)
    requires |q| >= 2 && q[0] == CmdSlot(h) && q[1] == RmaSlot(d) && (h.op == OpWrite || h.op == OpReadReq)
    requires q' == q[2..]
    requires rejected ==> inj' == inj
    requires !rejected ==> inj' == inj + (if h.opSrc == SrcInject && h.op != OpReadReq then {h.srcData} else {})
    ensures InjectPool(q', um, ut, inj',
                       held + (if !rejected && h.op != OpReadReq then multiset{} else HdrInjectRef(h)), bufs)
  {
    InjectRma(q, um, ut, inj, held, bufs, h, !rejected && h.op != OpReadReq);
  }

  /** smr_progress_cmd_atomic (Endpoint.CmdAtomic): a rejected command
      keeps its inject buffer out of the pool; a delivered one returns it
      unless the initiator asked for a result (SMR_RMA_REQ) and reads it
      back from that buffer. */
  lemma AtomicKeepsPools(h: Hdr, d: seq<RmaIov>, rejected: bool, held: multiset<nat>, bufs: set<nat>,
                         q: seq<Slot>, um: seq<UnexpMsg>, ut: seq<UnexpMsg>, inj: set<nat>,
                         q': seq<Slot>, inj': set<nat>)
    requires InjectPool(q, um, ut, inj, held, bufs)
    requires |q| >= 2 && q[0] == CmdSlot(h) && q[1] == RmaSlot(d)
    requires h.op == OpAtomic || h.op == OpAtomicFetch || h.op == OpAtomicCompare
    requires q' == q[2..]
    requires rejected ==> inj' == inj
    requires !rejected ==> inj' == inj + (if h.opSrc == SrcInject && RmaReq !in h.opFlags then {h.srcData} else {})
    ensures InjectPool(q', um, ut, inj',
                       held + (if !rejected && RmaReq !in h.opFlags then multiset{} else HdrInjectRef(h)), bufs)
  {
    InjectRma(q, um, ut, inj, held, bufs, h, !rejected && RmaReq !in h.opFlags);
  }

  /** An async completion notice (Endpoint.HeadAsync) owns no buffer:
      consuming it leaves every pool as it was. */
  lemma AsyncKeepsPools(h: Hdr, held: multiset<nat>, bufs: set<nat>,
                        q: seq<Slot>, um: seq<UnexpMsg>, ut: seq<UnexpMsg>, inj: set<nat>)
    requires InjectPool(q, um, ut, inj, held, bufs)
    requires |q| >= 1 && q[0] == CmdSlot(h) && (h.op == OpWriteAsync || h.op == OpReadAsync)
    ensures InjectPool(q[1..], um, ut, inj, held, bufs)
  {
    InjectKeep(q, um, ut, inj, held, bufs, 1);
    BagFirst(q, SlotInjectRef);
  }

  /** smr_progress_unexp_queue (Endpoint.ProgressUnexpQueue, as Drain
      states it): the messages it delivered give back their inject buffers
      and their unexpected entries, and the posted entry is freed or stays
      with a shrunk buffer. */
  lemma DrainKeepsPools(s0: RecvState, s: RecvState, tagged: bool, i: nat, n: nat, lens: seq<nat>,
                        minSize: nat, retired: bool, q: seq<Slot>, held: multiset<nat>, bufs: set<nat>,
                        uslots: set<nat>, rslots: set<nat>)
    requires Drain(s0, s, tagged, i, n, lens, minSize, retired)
    requires InjectPool(q, s0.unexp, s0.otherUnexp, s0.injectFree, held, bufs)
    requires UnexpPool(s0.unexp, s0.otherUnexp, s0.unexpFree, uslots)
    requires RecvPool(s0.posted, s0.otherPosted, s0.recvFree, rslots)
    ensures InjectPool(q, s.unexp, s.otherUnexp, s.injectFree, held, bufs)
    ensures UnexpPool(s.unexp, s.otherUnexp, s.unexpFree, uslots)
    ensures RecvPool(s.posted, s.otherPosted, s.recvFree, rslots)
  {
    var a := AttrOf(s0.posted[i]);
    InjectDrain(q, s0.unexp, s0.otherUnexp, s0.injectFree, held, bufs, a, tagged, n);
    UnexpDrain(s0.unexp, s0.otherUnexp, s0.unexpFree, uslots, a, tagged, n);
    if retired {
      PoolRetire(s0.posted, s0.otherPosted, s0.recvFree, rslots, i);
    } else {
      var e := s0.posted[i];
      PoolShrink(s0.posted, s0.otherPosted, s0.recvFree, rslots, i,
                 ShrinkAll(e.iov[0], lens, minSize).value);
    }
  }

  /** The inject buffer of peer `a` that a queued response owns: the one
      its pending send used, when that send went to `a` through an inject
      buffer. */
  function RespInjectRef(pend: map<nat, TxEntry>, a: nat): Resp -> multiset<nat>
  {
    (r: Resp) => if r.msgId in pend && pend[r.msgId].addr == a && pend[r.msgId].hdr.opSrc == SrcInject
         then multiset{pend[r.msgId].hdr.srcData} else multiset{}
  }

  /** Every inject buffer `all` of peer `a` is free in its pool, owned by
      one of the responses `q`, or held elsewhere. */
  ghost predicate PeerInjectPool(pend: map<nat, TxEntry>, a: nat, free: set<nat>, q: seq<Resp>,
                                 held: multiset<nat>, all: set<nat>)
  {
    multiset(free) + Bag(q, RespInjectRef(pend, a)) + held == multiset(all)
  }

  /** The buffers the responses `rs` hand back to peer `a` are the ones
      they own. */
  lemma {:induction false} ReturnedBag(pend: map<nat, TxEntry>, rs: seq<Resp>, a: nat)
    requires forall i :: 0 <= i < |rs| ==> rs[i].msgId in pend
    ensures Returned(pend, rs, a) == Support(Bag(rs, RespInjectRef(pend, a)))
  {
    if rs != [] {
      var init, r := rs[..|rs| - 1], rs[|rs| - 1];
      assert rs == init + [r];
      ReturnedBag(pend, init, a);
      BagSnoc(init, r, RespInjectRef(pend, a));
    }
  }

  /** smr_progress_resp (Endpoint.ProgressResp and EpProgress, as Handled
      states it): handling the first `k` responses puts back into each
      peer's inject pool exactly the buffers those responses owned, so
      every buffer of the peer is still free or owned once. */
  lemma HandledKeepsPeerPool(pend: map<nat, TxEntry>, s0: RespState, k: nat, a: nat,
                             held: multiset<nat>, all: set<nat>)
    requires k <= |s0.q| && Known(s0.peers, pend, s0.q) && a in s0.peers
    requires PeerInjectPool(pend, a, s0.peers[a].injectFree, s0.q, held, all)
    ensures a in Handled(pend, s0, k).peers
    ensures PeerInjectPool(pend, a, Handled(pend, s0, k).peers[a].injectFree, Handled(pend, s0, k).q, held, all)
  {
    var f := RespInjectRef(pend, a);
    HandledPeers(pend, s0, k);
    HandledLog(pend, s0, k);
    assert s0.q == s0.q[..k] + s0.q[k..];
    BagAppend(s0.q[..k], s0.q[k..], f);
    ReturnedBag(pend, s0.q[..k], a);
    PushAll(s0.peers[a].injectFree, Bag(s0.q[..k], f), Bag(s0.q[k..], f) + held, all);
  }
}
