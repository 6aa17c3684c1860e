/** The response side: what smr_progress_resp_entry does to the peer that
    served an operation, the status it reports, and the effect of a run of
    responses taken in queue order. */
module Responses {
  import opened Types
  import opened Accounting

  /** The status smr_progress_resp_entry leaves in the response slot. A
      direct-copy (iov) send keeps the peer's status. An mmap read request
      and an inject send whose result comes back through the inject buffer
      keep a nonzero status; a zero status turns into an error when the
      pending send's buffers cannot hold the `size` bytes to copy back.
      The two paths use opposite signs: the mmap path stores -FI_EIO and
      the inject path FI_EIO. */
  function RespStatus(p: TxEntry, status: int): (s: int)
    ensures status != 0 ==> s == status
    ensures p.hdr.opSrc == SrcIov ==> s == status
    ensures p.hdr.opSrc == SrcMmap && p.hdr.op != OpReadReq ==> s == status
    ensures s == 0 <==>
      status == 0 &&
      !((p.hdr.opSrc == SrcInject || (p.hdr.opSrc == SrcMmap && p.hdr.op == OpReadReq)) &&
        p.hdr.size > p.iovCap)
    ensures s != status ==> s == (if p.hdr.opSrc == SrcInject then FI_EIO else -FI_EIO)
  {
    match p.hdr.opSrc
    case SrcMmap =>
      if p.hdr.op == OpReadReq && status == 0 && CopyLen(p.hdr.size, p.iovCap) != p.hdr.size
      then -FI_EIO else status
    case SrcInject =>
      if status == 0 && CopyLen(p.hdr.size, p.iovCap) != p.hdr.size then FI_EIO else status
    case _ => status
  }

  /** The peer region after smr_progress_resp_entry handled a response for
      pending send `p`: one command credit more, and the inject buffer back
      in the peer's inject pool when the send used one. */
  function PeerAfterResp(r: PeerRegion, p: TxEntry): (r': PeerRegion)
    ensures r'.cmdCnt == r.cmdCnt + 1
    ensures p.hdr.opSrc == SrcInject ==> r'.injectFree == r.injectFree + {p.hdr.srcData}
    ensures p.hdr.opSrc != SrcInject ==> r'.injectFree == r.injectFree
  {
    PeerRegion(r.cmdCnt + 1,
               if p.hdr.opSrc == SrcInject then r.injectFree + {p.hdr.srcData} else r.injectFree)
  }

  /** Every response names a pending send whose peer is known. */
  ghost predicate Known(peers: map<nat, PeerRegion>, pend: map<nat, TxEntry>, rs: seq<Resp>)
  {
    forall i :: 0 <= i < |rs| ==> rs[i].msgId in pend && pend[rs[i].msgId].addr in peers
  }

  /** The peer regions after the responses `rs` were handled in order. */
  function ApplyResps(peers: map<nat, PeerRegion>, pend: map<nat, TxEntry>, rs: seq<Resp>)
    : (r: map<nat, PeerRegion>)
    requires Known(peers, pend, rs)
    ensures r.Keys == peers.Keys
  {
    if rs == [] then peers
    else
      var before := ApplyResps(peers, pend, rs[..|rs| - 1]);
      var p := pend[rs[|rs| - 1].msgId];
      before[p.addr := PeerAfterResp(before[p.addr], p)]
  }

  /** The transmit completion smr_progress_resp writes for one response. */
  function TxCompOf(p: TxEntry, status: int): TxComp
  {
    TxComp(p.context, p.hdr.op, p.hdr.opFlags, -RespStatus(p, status))
  }

  /** The transmit completions written for the responses `rs`, one per
      response and in queue order. */
  function TxComps(pend: map<nat, TxEntry>, rs: seq<Resp>): (cs: seq<TxComp>)
    requires forall i :: 0 <= i < |rs| ==> rs[i].msgId in pend
    ensures |cs| == |rs|
  {
    if rs == [] then []
    else TxComps(pend, rs[..|rs| - 1]) + [TxCompOf(pend[rs[|rs| - 1].msgId], rs[|rs| - 1].status)]
  }

  /** The i-th completion is the one for the i-th response. */
  lemma {:induction false} TxCompsAt(pend: map<nat, TxEntry>, rs: seq<Resp>)
    requires forall i :: 0 <= i < |rs| ==> rs[i].msgId in pend
    ensures forall i :: 0 <= i < |rs| ==> TxComps(pend, rs)[i] == TxCompOf(pend[rs[i].msgId], rs[i].status)
  {
    if rs != [] {
      var init := rs[..|rs| - 1];
      TxCompsAt(pend, init);
      forall i | 0 <= i < |init| ensures rs[i] == init[i] { }
    }
  }

  /** How many of the responses `rs` belong to sends to peer `a`. */
  function Credits(pend: map<nat, TxEntry>, rs: seq<Resp>, a: nat): nat
    requires forall i :: 0 <= i < |rs| ==> rs[i].msgId in pend
  {
    if rs == [] then 0
    else Credits(pend, rs[..|rs| - 1], a) + (if pend[rs[|rs| - 1].msgId].addr == a then 1 else 0)
  }

  /** The inject buffers of peer `a` that the responses `rs` hand back. */
  function Returned(pend: map<nat, TxEntry>, rs: seq<Resp>, a: nat): set<nat>
    requires forall i :: 0 <= i < |rs| ==> rs[i].msgId in pend
  {
    if rs == [] then {}
    else
      var p := pend[rs[|rs| - 1].msgId];
      Returned(pend, rs[..|rs| - 1], a) + (if p.addr == a && p.hdr.opSrc == SrcInject then {p.hdr.srcData} else {})
  }

  /** The pending sends the responses `rs` retire. */
  function IdSet(rs: seq<Resp>): set<nat>
  {
    set i | 0 <= i < |rs| :: rs[i].msgId
  }

  /** The pending sends among `rs` that used an mmapped file. */
  function MmapIds(pend: map<nat, TxEntry>, rs: seq<Resp>): set<nat>
    requires forall i :: 0 <= i < |rs| ==> rs[i].msgId in pend
  {
    set i | 0 <= i < |rs| && pend[rs[i].msgId].hdr.opSrc == SrcMmap :: rs[i].msgId
  }

  /** Handling a run of responses gives each peer exactly one command credit
      per response for one of its sends, and puts back into its inject pool
      exactly the inject buffers those sends used; nothing else changes. */
  lemma {:induction false} ApplyRespsPeer(peers: map<nat, PeerRegion>, pend: map<nat, TxEntry>,
                                         rs: seq<Resp>, a: nat)
    requires Known(peers, pend, rs) && a in peers
    ensures ApplyResps(peers, pend, rs)[a] ==
      PeerRegion(peers[a].cmdCnt + Credits(pend, rs, a), peers[a].injectFree + Returned(pend, rs, a))
  {
    if rs != [] {
      var init := rs[..|rs| - 1];
      assert Known(peers, pend, init);
      ApplyRespsPeer(peers, pend, init, a);
    }
  }

  /** A peer none of whose sends answered is left as it was. */
  lemma {:induction false} CreditsNone(pend: map<nat, TxEntry>, rs: seq<Resp>, a: nat)
    requires forall i :: 0 <= i < |rs| ==> rs[i].msgId in pend && pend[rs[i].msgId].addr != a
    ensures Credits(pend, rs, a) == 0 && Returned(pend, rs, a) == {}
  {
    if rs != [] {
      CreditsNone(pend, rs[..|rs| - 1], a);
    }
  }

  lemma IdSetSnoc(rs: seq<Resp>, r: Resp)
    ensures IdSet(rs + [r]) == IdSet(rs) + {r.msgId}
  {
    var t := rs + [r];
    assert t[|rs|] == r;
    forall i | 0 <= i < |rs| ensures t[i] == rs[i] { }
  }

  lemma MmapIdsSnoc(pend: map<nat, TxEntry>, rs: seq<Resp>, r: Resp)
    requires forall i :: 0 <= i < |rs| ==> rs[i].msgId in pend
    requires r.msgId in pend
    ensures MmapIds(pend, rs + [r]) ==
      MmapIds(pend, rs) + (if pend[r.msgId].hdr.opSrc == SrcMmap then {r.msgId} else {})
  {
    var t := rs + [r];
    assert t[|rs|] == r;
    forall i | 0 <= i < |rs| ensures t[i] == rs[i] { }
  }

  /** Each queued response names a distinct pending send that is in use
      and whose peer is mapped. */
  ghost predicate RespOk(peers: map<nat, PeerRegion>, pend: map<nat, TxEntry>, q: seq<Resp>, pf: set<nat>)
  {
    && Known(peers, pend, q)
    && (forall j :: 0 <= j < |q| ==> q[j].msgId !in pf)
    && (forall j, k :: 0 <= j < k < |q| ==> q[j].msgId != q[k].msgId)
  }

  /** Retiring the head response and freeing its pending send keeps the
      rest of the queue well formed. */
  lemma RespOkStep(peers: map<nat, PeerRegion>, peers': map<nat, PeerRegion>, pend: map<nat, TxEntry>,
                   q: seq<Resp>, pf: set<nat>)
    requires RespOk(peers, pend, q, pf) && q != [] && peers'.Keys == peers.Keys
    ensures RespOk(peers', pend, q[1..], pf + {q[0].msgId})
  {
    forall j | 0 <= j < |q| - 1
      ensures q[1..][j].msgId != q[0].msgId
    {
      assert q[1..][j] == q[j + 1];
    }
  }

  /** The state smr_progress_resp works on: the response queue, the peer
      regions, the transmit CQ, the free pending-send ids and the ids whose
      mmapped file is still listed. */
  datatype RespState = RespState(q: seq<Resp>, peers: map<nat, PeerRegion>, tx: seq<TxComp>,
                                 pendFree: set<nat>, mapNames: set<nat>)

  /** Handling the head response: it leaves the queue, its peer gets its
      credit and inject buffer back, one transmit completion is written,
      the pending send is freed, and its mmapped file, if any, unlinked. */
  function HandleHead(s: RespState, pend: map<nat, TxEntry>): (r: RespState)
    requires s.q != [] && s.q[0].msgId in pend && pend[s.q[0].msgId].addr in s.peers
    ensures r.q == s.q[1..] && s.tx <= r.tx && |r.tx| == |s.tx| + 1
    ensures r.peers.Keys == s.peers.Keys
    ensures var a := pend[s.q[0].msgId].addr;
      && r.peers[a].cmdCnt == s.peers[a].cmdCnt + 1
      && (forall b :: b in s.peers && b != a ==> r.peers[b] == s.peers[b])
    ensures r.pendFree == s.pendFree + {s.q[0].msgId}
    ensures r.mapNames <= s.mapNames && s.mapNames - r.mapNames <= {s.q[0].msgId}
  {
    var r := s.q[0];
    var p := pend[r.msgId];
    RespState(s.q[1..], s.peers[p.addr := PeerAfterResp(s.peers[p.addr], p)],
              s.tx + [TxCompOf(p, r.status)], s.pendFree + {r.msgId},
              s.mapNames - (if p.hdr.opSrc == SrcMmap then {r.msgId} else {}))
  }

  /** The state after the first `k` responses of `s0` were handled, stated
      over the whole run rather than one response at a time. */
  function Handled(pend: map<nat, TxEntry>, s0: RespState, k: nat): (s: RespState)
    requires k <= |s0.q| && Known(s0.peers, pend, s0.q)
    ensures |s.tx| == |s0.tx| + k && |s.q| == |s0.q| - k
  {
    var rs := s0.q[..k];
    assert Known(s0.peers, pend, rs);
    RespState(s0.q[k..], ApplyResps(s0.peers, pend, rs), s0.tx + TxComps(pend, rs),
              s0.pendFree + IdSet(rs), s0.mapNames - MmapIds(pend, rs))
  }

  lemma HandledNone(pend: map<nat, TxEntry>, s0: RespState)
    requires Known(s0.peers, pend, s0.q)
    ensures Handled(pend, s0, 0) == s0
  {
    assert s0.q[..0] == [] && s0.q[0..] == s0.q;
  }

  /** Handling the first `k` responses of `s0` takes exactly those
      responses off the queue and appends one transmit completion per
      response, in queue order. */
  lemma HandledLog(pend: map<nat, TxEntry>, s0: RespState, k: nat)
    requires k <= |s0.q| && Known(s0.peers, pend, s0.q)
    ensures var s := Handled(pend, s0, k);
      && s.q == s0.q[k..]
      && |s.tx| == |s0.tx| + k && s.tx[..|s0.tx|] == s0.tx
      && forall i :: 0 <= i < k ==> s.tx[|s0.tx| + i] == TxCompOf(pend[s0.q[i].msgId], s0.q[i].status)
  {
    var rs := s0.q[..k];
    assert Known(s0.peers, pend, rs);
    TxCompsAt(pend, rs);
  }

  /** Handling the first `k` responses of `s0` frees exactly their pending
      sends and unlinks exactly the files of the mmap sends among them. */
  lemma HandledIds(pend: map<nat, TxEntry>, s0: RespState, k: nat)
    requires k <= |s0.q| && Known(s0.peers, pend, s0.q)
    ensures var s := Handled(pend, s0, k);
      && (forall id :: id in s.pendFree <==> id in s0.pendFree || exists i :: 0 <= i < k && s0.q[i].msgId == id)
      && (forall id :: id in s.mapNames <==>
            id in s0.mapNames && !exists i :: 0 <= i < k && s0.q[i].msgId == id && pend[id].hdr.opSrc == SrcMmap)
  {
    var rs := s0.q[..k];
    assert Known(s0.peers, pend, rs);
  }

  /** Handling the first `k` responses of `s0` gives each peer one command
      credit per response for one of its sends, and back the inject buffers
      those sends used; the set of peers is unchanged. */
  lemma HandledPeers(pend: map<nat, TxEntry>, s0: RespState, k: nat)
    requires k <= |s0.q| && Known(s0.peers, pend, s0.q)
    ensures var s := Handled(pend, s0, k);
      && s.peers.Keys == s0.peers.Keys
      && forall a :: a in s0.peers ==>
           s.peers[a] == PeerRegion(s0.peers[a].cmdCnt + Credits(pend, s0.q[..k], a),
                                    s0.peers[a].injectFree + Returned(pend, s0.q[..k], a))
  {
    var rs := s0.q[..k];
    assert Known(s0.peers, pend, rs);
    forall a | a in s0.peers
      ensures ApplyResps(s0.peers, pend, rs)[a] ==
        PeerRegion(s0.peers[a].cmdCnt + Credits(pend, rs, a), s0.peers[a].injectFree + Returned(pend, rs, a))
    {
      ApplyRespsPeer(s0.peers, pend, rs, a);
    }
  }

  /** smr_progress_resp handles response `r`: it is no longer FI_EBUSY and
      the lock of its peer's region could be taken. */
  predicate Passes(r: Resp, pend: map<nat, TxEntry>, locked: set<nat>)
  {
    r.status != FI_EBUSY && r.msgId in pend && pend[r.msgId].addr !in locked
  }

  lemma PassesSnoc(q: seq<Resp>, pend: map<nat, TxEntry>, locked: set<nat>, k: nat)
    requires k < |q| && Passes(q[k], pend, locked)
    requires forall j :: 0 <= j < k ==> Passes(q[j], pend, locked)
    ensures forall j :: 0 <= j < k + 1 ==> Passes(q[j], pend, locked)
  {
  }

  lemma ApplyRespsSnoc(peers: map<nat, PeerRegion>, pend: map<nat, TxEntry>, rs: seq<Resp>, r: Resp)
    requires Known(peers, pend, rs) && r.msgId in pend && pend[r.msgId].addr in peers
    ensures Known(peers, pend, rs + [r])
    ensures var b := ApplyResps(peers, pend, rs);
      var p := pend[r.msgId];
      ApplyResps(peers, pend, rs + [r]) == b[p.addr := PeerAfterResp(b[p.addr], p)]
  {
    var t := rs + [r];
    assert t[..|t| - 1] == rs;
  }

  lemma TxCompsSnoc(pend: map<nat, TxEntry>, rs: seq<Resp>, r: Resp)
    requires forall i :: 0 <= i < |rs| ==> rs[i].msgId in pend
    requires r.msgId in pend
    ensures TxComps(pend, rs + [r]) == TxComps(pend, rs) + [TxCompOf(pend[r.msgId], r.status)]
  {
    var t := rs + [r];
    assert t[..|t| - 1] == rs;
  }

  /** Handling the responses one at a time, head first, is handling the
      run: one more response is the head of what the first `k` left. */
  lemma HandledNext(pend: map<nat, TxEntry>, s0: RespState, k: nat)
    requires k < |s0.q| && Known(s0.peers, pend, s0.q)
    requires var s := Handled(pend, s0, k);
      s.q != [] && s.q[0].msgId in pend && pend[s.q[0].msgId].addr in s.peers
    ensures Handled(pend, s0, k + 1) == HandleHead(Handled(pend, s0, k), pend)
  {
    var r := s0.q[k];
    var init := s0.q[..k];
    TakeNext(s0.q, k);
    assert Known(s0.peers, pend, init);
    var s, s1 := Handled(pend, s0, k), Handled(pend, s0, k + 1);
    var p := pend[r.msgId];
    assert s.q[0] == r;
    assert s1.q == s.q[1..];
    assert s1.peers == s.peers[p.addr := PeerAfterResp(s.peers[p.addr], p)] by {
      ApplyRespsSnoc(s0.peers, pend, init, r);
    }
    assert s1.tx == s.tx + [TxCompOf(p, r.status)] by {
      TxCompsSnoc(pend, init, r);
      Assoc(s0.tx, TxComps(pend, init), [TxCompOf(p, r.status)]);
    }
    assert s1.pendFree == s.pendFree + {r.msgId} by {
      IdSetSnoc(init, r);
    }
    assert s1.mapNames == s.mapNames - (if p.hdr.opSrc == SrcMmap then {r.msgId} else {}) by {
      MmapIdsSnoc(pend, init, r);
    }
  }
}
