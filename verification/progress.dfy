/** The receive-side progress engine of the shared-memory provider: one
    endpoint together with its own shared region, drained by smr_ep_progress.

    The endpoint's region holds the command queue that peers write commands
    into, the response queue that peers write statuses of this endpoint's
    sends into, the inject-buffer pool, and the command credit counter
    cmd_cnt. The endpoint itself holds the posted-receive lists, the
    unexpected-message lists, their free pools, the pending sends, and the
    receive and transmit completion queues. */
module Progress {
  import opened Types
  import opened Accounting
  import opened Matching
  import opened Transfer
  import opened Atomic
  import opened Responses

  /** The arguments of one ofi_mr_verify call: the byte length, address and
      key of a target range, and the access the operation needs (from the
      op and, for atomics, the atomic operator). */
  datatype MrQuery = MrQuery(len: nat, addr: nat, key: nat, op: Op, atomicOp: nat)

  function Query(v: RmaIov, unit: nat, op: Op, atomicOp: nat): MrQuery
  {
    MrQuery(v.len * unit, v.addr, v.key, op, atomicOp)
  }

  /** The address smr_complete_rx reports for an RMA or atomic: that of the
      first target range, or NULL when the descriptor is empty. */
  function FirstAddr(d: seq<RmaIov>): nat
  {
    if d == [] then 0 else d[0].addr
  }

  /** The status a transfer handler stores into the initiator's response
      slot: smr_progress_iov stores the negated result, smr_progress_mmap
      the result itself; the other handlers store nothing. */
  function HandlerWrites(h: Hdr, x: Xfer): seq<StatusWrite>
  {
    if h.opSrc == SrcIov then [StatusWrite(h.addr, h.srcData, -x.err)]
    else if h.opSrc == SrcMmap then [StatusWrite(h.addr, h.srcData, x.err)]
    else []
  }

  /** A read request with a response offset (h.data) gets its result in
      the initiator's response slot rather than as a command credit. */
  predicate RmaReplyDue(h: Hdr)
  {
    h.op == OpReadReq && h.data != 0
  }

  /** The negated result stored into the response slot at h.data, when due. */
  function ReplyWrite(due: bool, h: Hdr, err: int): seq<StatusWrite>
  {
    if due then [StatusWrite(h.addr, h.data, -err)] else []
  }

  /** The async-completion notice a consumed slot raises, if any. */
  function NoticeOf(s: Slot): seq<Op>
  {
    match s
    case CmdSlot(h) => if h.op == OpWriteAsync || h.op == OpReadAsync then [h.op] else []
    case RmaSlot(_) => []
  }

  /** The async-completion notices among the consumed slots `q`, in order. */
  function Notices(q: seq<Slot>): seq<Op>
  {
    if q == [] then [] else Notices(q[..|q| - 1]) + NoticeOf(q[|q| - 1])
  }

  lemma {:induction false} NoticesAppend(a: seq<Slot>, b: seq<Slot>)
    ensures Notices(a + b) == Notices(a) + Notices(b)
  {
    if b != [] {
      assert (a + b)[..|a + b| - 1] == a + b[..|b| - 1];
      NoticesAppend(a, b[..|b| - 1]);
    } else {
      assert a + b == a;
    }
  }

  /** Slots that raise no notice add none. */
  lemma {:induction false} NoticesQuiet(q: seq<Slot>, n: nat)
    requires n <= |q|
    requires forall j :: 0 <= j < n ==> NoticeOf(q[j]) == []
    ensures Notices(q[..n]) == []
  {
    if n > 0 {
      assert q[..n][..n - 1] == q[..n - 1];
      NoticesQuiet(q, n - 1);
    }
  }

  /** Whether the command `h` carries its data with it, inline in the
      command or in an inject buffer, so that the inline and inject
      handlers are the ones that run. */
  predicate DataInCommand(h: Hdr)
  {
    h.opSrc == SrcInline || h.opSrc == SrcInject
  }

  /** Whether delivering the message `h` returns its command credit at
      once: the sender needs no response for a message whose data came
      with the command. */
  predicate CreditOnDelivery(h: Hdr)
  {
    DataInCommand(h)
  }

  /** How many of the delivered unexpected messages return a command credit
      as they are delivered. */
  function DeliveryCredits(ms: seq<UnexpMsg>): nat
  {
    if ms == [] then 0
    else DeliveryCredits(ms[..|ms| - 1]) + (if CreditOnDelivery(ms[|ms| - 1].cmd) then 1 else 0)
  }

  /** The inject buffers a delivered message hands back. */
  function InjectOf(h: Hdr): set<nat>
  {
    if h.opSrc == SrcInject then {h.srcData} else {}
  }

  /** The list of one kind out of the untagged list `um` and the tagged list `ut`. */
  function Pick<T>(tagged: bool, um: T, ut: T): T
  {
    if tagged then ut else um
  }

  /** After consuming a prefix of the queue `q0` the queue `q` is left, the
      receive counter went from `rx0` to `rx` by the async notices of the
      consumed prefix, and the command credits grew from `cc0` to `cc` by at
      most one per consumed slot. */
  ghost predicate DrainedFrom(q0: seq<Slot>, rx0: seq<Op>, cc0: int, q: seq<Slot>, rx: seq<Op>, cc: int)
  {
    && |q| <= |q0| && q == q0[|q0| - |q|..]
    && rx == rx0 + Notices(q0[..|q0| - |q|])
    && cc0 <= cc <= cc0 + (|q0| - |q|)
  }

  lemma SliceSplit<T>(q0: seq<T>, q: seq<T>, c: nat, n: nat)
    requires c + n <= |q0| && q == q0[c..]
    ensures q0[..c + n] == q0[..c] + q[..n]
    ensures q[n..] == q0[c + n..]
  {
  }

  lemma NoticesSplit(q0: seq<Slot>, q: seq<Slot>, c: nat, n: nat)
    requires c + n <= |q0| && q == q0[c..]
    ensures Notices(q0[..c + n]) == Notices(q0[..c]) + Notices(q[..n])
  {
    SliceSplit(q0, q, c, n);
    NoticesAppend(q0[..c], q[..n]);
  }

  /** Consuming `n` more slots extends the account. */
  lemma DrainMore(q0: seq<Slot>, rx0: seq<Op>, cc0: int, q: seq<Slot>, rx: seq<Op>, cc: int,
                  n: nat, q': seq<Slot>, rx': seq<Op>, cc': int)
    requires DrainedFrom(q0, rx0, cc0, q, rx, cc)
    requires n <= |q| && q' == q[n..] && rx' == rx + Notices(q[..n]) && cc <= cc' <= cc + n
    ensures DrainedFrom(q0, rx0, cc0, q', rx', cc')
  {
    var c := |q0| - |q|;
    assert |q0| - |q'| == c + n;
    SliceSplit(q0, q, c, n);
    assert rx' == rx0 + Notices(q0[..c + n]) by {
      NoticesSplit(q0, q, c, n);
      Assoc(rx0, Notices(q0[..c]), Notices(q[..n]));
    }
  }

  /** One round of the loop of smr_progress_cmd as the loop sees it: the
      dispatch switch consumed `n` head slots and returned `ret`. */
  datatype Round = Round(n: nat, ret: int)

  /** The slots the rounds `rs` consumed together. */
  function Spent(rs: seq<Round>): nat
  {
    if rs == [] then 0 else Spent(rs[..|rs| - 1]) + rs[|rs| - 1].n
  }

  /** What one round can do on the queue `q`, by the op of the command at
      its head: a message is consumed exactly when it returns 0 and
      otherwise is retried for a full CQ or a missing unexpected entry; an
      RMA command is consumed with its descriptor slot unless the CQ check
      for remote CQ data sends it back; an async notice is consumed and
      succeeds; an atomic is always consumed with its descriptor slot; an
      unknown op fails with -FI_EINVAL and consumes nothing. */
  ghost predicate Fits(q: seq<Slot>, r: Round)
  {
    && q != [] && q[0].CmdSlot? && r.n <= |q| && (r.ret == 0 ==> r.n > 0)
    && match q[0].hdr.op
       case OpMsg | OpTagged =>
         r.n <= 1 && (r.n == 1 <==> r.ret == 0) && (r.n == 0 ==> r.ret == -FI_ENOSPC || r.ret == -FI_EAGAIN)
       case OpWrite | OpReadReq => (r.n == 0 || r.n == 2) && (r.n == 0 ==> r.ret == -FI_ENOSPC)
       case OpWriteAsync | OpReadAsync => r == Round(1, 0)
       case OpAtomic | OpAtomicFetch | OpAtomicCompare => r.n == 2
       case OpUnknown(_) => r == Round(0, -FI_EINVAL)
  }

  /** Running one more round adds the slots it consumed. */
  lemma SpentMore(rs: seq<Round>, r: Round)
    ensures Spent(rs + [r]) == Spent(rs) + r.n
  {
    assert (rs + [r])[..|rs|] == rs;
  }

  /** The loop stops at the first round that returns nonzero, and `ret` is
      what the last round returned (0 when there was none). */
  predicate StopsAtFailure(rs: seq<Round>, ret: int)
  {
    && (forall j :: 0 <= j < |rs| - 1 ==> rs[j].ret == 0)
    && ret == (if rs == [] then 0 else rs[|rs| - 1].ret)
  }

  /** The j-th of the rounds `rs` fits the queue `q` as the rounds before
      it left it: it ran on `q` without the slots the first j consumed. */
  ghost predicate FitsAt(q: seq<Slot>, rs: seq<Round>, j: nat)
  {
    j < |rs| && Spent(rs[..j]) < |q| && Fits(q[Spent(rs[..j])..], rs[j])
  }

  /** Every one of the rounds `rs` fits the queue `q` as the rounds before
      it left it. */
  ghost predicate AllFit(q: seq<Slot>, rs: seq<Round>)
  {
    forall j: nat :: j < |rs| ==> FitsAt(q, rs, j)
  }

  /** A round that fits what the earlier rounds left extends the record. */
  lemma AllFitMore(q: seq<Slot>, rs: seq<Round>, r: Round)
    requires AllFit(q, rs) && Spent(rs) < |q| && Fits(q[Spent(rs)..], r)
    ensures AllFit(q, rs + [r])
  {
    forall j: nat | j < |rs| + 1
      ensures FitsAt(q, rs + [r], j)
    {
      assert (rs + [r])[..j] == rs[..j];
      if j < |rs| {
        assert FitsAt(q, rs, j);
      }
    }
  }

  /** After the first `n` messages of `u0` that the attributes `a` accept
      were delivered, the list left is `u`, and the unexpected entries, the
      command credits and the inject buffers those messages held went back:
      the free entries grew from `uf0` to `uf`, the credit counter from
      `cc0` to `cc`, and the free inject buffers from `inj0` to `inj`. */
  ghost predicate UnexpDrained(u0: seq<UnexpMsg>, a: MatchAttr, tagged: bool, n: nat,
                               u: seq<UnexpMsg>, uf0: set<nat>, uf: set<nat>,
                               cc0: int, cc: int, inj0: set<nat>, inj: set<nat>)
  {
    && n <= |Matches(u0, a, tagged)|
    && u == DropMatches(u0, a, tagged, n)
    && HandedBack(Matches(u0, a, tagged)[..n], uf0, uf, cc0, cc, inj0, inj)
  }

  /** The delivered messages `ms` handed back their unexpected entries,
      their command credits and their inject buffers. */
  ghost predicate HandedBack(ms: seq<UnexpMsg>, uf0: set<nat>, uf: set<nat>,
                             cc0: int, cc: int, inj0: set<nat>, inj: set<nat>)
  {
    && uf == uf0 + UnexpSlotSet(ms)
    && cc == cc0 + DeliveryCredits(ms)
    && inj == inj0 + InjectSet(ms)
  }

  /** Delivering the first accepted message of what is left extends the
      account by the next accepted message. */
  lemma UnexpDrainMore(u0: seq<UnexpMsg>, a: MatchAttr, tagged: bool, n: nat,
                       u: seq<UnexpMsg>, uf0: set<nat>, uf: set<nat>,
                       cc0: int, cc: int, inj0: set<nat>, inj: set<nat>, j: nat,
                       u': seq<UnexpMsg>, uf': set<nat>, cc': int, inj': set<nat>)
    requires UnexpDrained(u0, a, tagged, n, u, uf0, uf, cc0, cc, inj0, inj)
    requires FirstUnexp(u, a, tagged) == Some(j) && CarriesPayload(u[j].cmd.op)
    requires u' == RemoveAt(u, j) && uf' == uf + {u[j].slot}
    requires cc' == cc + (if CreditOnDelivery(u[j].cmd) then 1 else 0)
    requires inj' == inj + InjectOf(u[j].cmd)
    ensures UnexpDrained(u0, a, tagged, n + 1, u', uf0, uf', cc0, cc', inj0, inj')
  {
    var ms := Matches(u0, a, tagged);
    DrainNext(u0, a, tagged, n);
    assert u' == DropMatches(u0, a, tagged, n + 1);
    TakeNext(ms, n);
    DeliveredSnoc(ms[..n], ms[n], uf0, uf, cc0, cc, inj0, inj);
  }

  /** What one more delivered message hands back. */
  lemma DeliveredSnoc(ms: seq<UnexpMsg>, m: UnexpMsg, uf0: set<nat>, uf: set<nat>,
                      cc0: int, cc: int, inj0: set<nat>, inj: set<nat>)
    requires HandedBack(ms, uf0, uf, cc0, cc, inj0, inj) && CarriesPayload(m.cmd.op)
    ensures HandedBack(ms + [m], uf0, uf + {m.slot}, cc0, cc + (if CreditOnDelivery(m.cmd) then 1 else 0),
                       inj0, inj + InjectOf(m.cmd))
  {
    assert (ms + [m])[..|ms|] == ms;
    SlotSetSnoc(ms, m);
    InjectSetSnoc(ms, m);
    assert Support(UnexpInjectRef(m)) == InjectOf(m.cmd);
  }

  /** The first iov `v` of a multi-receive buffer after deliveries of
      `lens` bytes, in order, each shrinking it as smr_progress_multi_recv
      does; None once one of them retired the buffer. */
  function ShrinkAll(v: Iov, lens: seq<nat>, minSize: nat): (r: Option<Iov>)
    ensures lens == [] ==> r == Some(v)
    ensures lens != [] && r.Some? ==> minSize <= r.value.len < WORD
    decreases |lens|
  {
    if lens == [] then Some(v)
    else match ShrinkAll(v, lens[..|lens| - 1], minSize)
      case None => None
      case Some(w) => MultiRecvStep(w, lens[|lens| - 1], minSize)
  }

  /** The posted list `q` is `q0` with the first iov of its i-th entry
      shrunk by deliveries of `lens` bytes: the entry is the same receive,
      in the same place, and nothing else changed. */
  ghost predicate Kept(q0: seq<RxEntry>, q: seq<RxEntry>, i: nat, lens: seq<nat>, minSize: nat)
  {
    && i < |q0| && q0[i].iov != [] && ShrinkAll(q0[i].iov[0], lens, minSize).Some?
    && q == q0[i := q0[i].(iov := q0[i].iov[0 := ShrinkAll(q0[i].iov[0], lens, minSize).value])]
  }

  lemma KeptRemove(q0: seq<RxEntry>, q: seq<RxEntry>, i: nat, lens: seq<nat>, minSize: nat)
    requires Kept(q0, q, i, lens, minSize)
    ensures RemoveAt(q, i) == RemoveAt(q0, i)
  {
    var r, r0 := RemoveAt(q, i), RemoveAt(q0, i);
    forall k | 0 <= k < |r| ensures r[k] == r0[k] {
      if k < i { assert r[k] == q[k]; } else { assert r[k] == q[k + 1]; }
    }
  }

  /** One more delivery of `len` bytes that does not retire the entry
      extends the shrink by that delivery. */
  lemma KeptMore(q0: seq<RxEntry>, q: seq<RxEntry>, i: nat, lens: seq<nat>, minSize: nat, len: nat)
    requires Kept(q0, q, i, lens, minSize)
    requires MultiRecvStep(q[i].iov[0], len, minSize).Some?
    ensures Kept(q0, q[i := q[i].(iov := q[i].iov[0 := MultiRecvStep(q[i].iov[0], len, minSize).value])],
                 i, lens + [len], minSize)
  {
    assert (lens + [len])[..|lens|] == lens;
    var w := MultiRecvStep(q[i].iov[0], len, minSize).value;
    assert q[i].iov[0 := w] == q0[i].iov[0 := w];
  }

  /** Before any delivery the entry is as posted. */
  lemma KeptNone(q0: seq<RxEntry>, q: seq<RxEntry>, i: nat, minSize: nat)
    requires i < |q0| && q0[i].iov != []
    ensures Kept(q0, q, i, [], minSize) <==> q == q0
  {
    assert q0[i].iov[0 := q0[i].iov[0]] == q0[i].iov;
    assert q0[i := q0[i]] == q0;
  }

  /** The receive-side state smr_progress_unexp_queue works on, seen from
      one kind of traffic: the posted and unexpected lists of that kind and
      of the other kind, the free receive and unexpected entries, the
      command credits, the free inject buffers, the receive CQ and the log
      of response statuses written. */
  datatype RecvState = RecvState(posted: seq<RxEntry>, unexp: seq<UnexpMsg>,
                                 otherPosted: seq<RxEntry>, otherUnexp: seq<UnexpMsg>,
                                 recvFree: set<nat>, unexpFree: set<nat>, cmdCnt: int,
                                 injectFree: set<nat>, rxCq: seq<RxComp>, statusWrites: seq<StatusWrite>)

  /** State `s` is what `n` rounds of smr_progress_unexp_queue for the i-th
      posted entry leave of state `s0`: the first `n` accepted messages were
      taken off the unexpected list and handed back what they held; the
      lists of the other kind are as they were; the entry was freed
      (`retired`) or is still in place with its first iov shrunk by the
      `lens` bytes delivered; and at most one receive completion per
      delivery and some response statuses were written, none when nothing
      was delivered. A multi-receive buffer is freed by the first delivery
      after which the room left is below `minSize`, and not before. */
  ghost predicate Drain(s0: RecvState, s: RecvState, tagged: bool, i: nat, n: nat, lens: seq<nat>,
                        minSize: nat, retired: bool)
  {
    && i < |s0.posted| && s0.posted[i].iov != [] && |lens| == n
    && UnexpDrained(s0.unexp, AttrOf(s0.posted[i]), tagged, n, s.unexp,
                    s0.unexpFree, s.unexpFree, s0.cmdCnt, s.cmdCnt, s0.injectFree, s.injectFree)
    && s.otherUnexp == s0.otherUnexp && s.otherPosted == s0.otherPosted
    && (retired ==> n > 0 && ShrinkAll(s0.posted[i].iov[0], lens[..n - 1], minSize).Some?)
    && (retired && MultiRecv in s0.posted[i].flags ==> ShrinkAll(s0.posted[i].iov[0], lens, minSize).None?)
    && (retired ==> s.posted == RemoveAt(s0.posted, i) && s.recvFree == s0.recvFree + {s0.posted[i].slot})
    && (!retired ==> Kept(s0.posted, s.posted, i, lens, minSize) && s.recvFree == s0.recvFree)
    && s0.rxCq <= s.rxCq && |s.rxCq| <= |s0.rxCq| + n && s0.statusWrites <= s.statusWrites
    && (n == 0 ==> s.statusWrites == s0.statusWrites)
  }

  /** A drain that delivered nothing changed nothing. */
  lemma DrainNone(s0: RecvState, s: RecvState, tagged: bool, i: nat, lens: seq<nat>, minSize: nat, retired: bool)
    requires Drain(s0, s, tagged, i, 0, lens, minSize, retired)
    ensures s == s0
  {
    assert Matches(s0.unexp, AttrOf(s0.posted[i]), tagged)[..0] == [];
    KeptNone(s0.posted, s.posted, i, minSize);
  }

  /** One round of smr_progress_unexp_queue on state `s`: the first
      unexpected message that the i-th posted entry accepts is taken off its
      list and its unexpected entry freed, and it is delivered into the
      entry as smr_progress_msg_common does, moving `x`: the command credit
      and the inject buffer go back, a receive completion is written when
      the CQ has room, and the entry is freed or, as a multi-receive buffer
      with room left, shrunk past the delivered bytes. */
  function DeliverFirst(s: RecvState, tagged: bool, i: nat, x: Xfer, minSize: nat, cqSize: nat): (r: RecvState)
    requires i < |s.posted| && |s.posted[i].iov| > 0
    requires FirstUnexp(s.unexp, AttrOf(s.posted[i]), tagged).Some?
    ensures var m := s.unexp[FirstUnexp(s.unexp, AttrOf(s.posted[i]), tagged).value];
      && |r.unexp| == |s.unexp| - 1 && r.unexpFree == s.unexpFree + {m.slot}
      && r.injectFree == s.injectFree + InjectOf(m.cmd)
      && r.cmdCnt == s.cmdCnt + (if CreditOnDelivery(m.cmd) then 1 else 0)
    ensures r.otherPosted == s.otherPosted && r.otherUnexp == s.otherUnexp
    ensures |r.posted| == |s.posted| - (if Retires(s.posted[i], x.len, minSize) then 1 else 0)
    ensures s.rxCq <= r.rxCq && |r.rxCq| == |s.rxCq| + (if |s.rxCq| < cqSize then 1 else 0)
    ensures s.statusWrites <= r.statusWrites
  {
    var e := s.posted[i];
    var m := s.unexp[FirstUnexp(s.unexp, AttrOf(e), tagged).value];
    var freed := Retires(e, x.len, minSize);
    s.(posted := if freed then RemoveAt(s.posted, i)
                 else s.posted[i := e.(iov := e.iov[0 := MultiRecvStep(e.iov[0], x.len, minSize).value])],
       unexp := RemoveAt(s.unexp, FirstUnexp(s.unexp, AttrOf(e), tagged).value),
       recvFree := if freed then s.recvFree + {e.slot} else s.recvFree,
       unexpFree := s.unexpFree + {m.slot},
       cmdCnt := s.cmdCnt + (if CreditOnDelivery(m.cmd) then 1 else 0),
       injectFree := s.injectFree + InjectOf(m.cmd),
       rxCq := s.rxCq + (if |s.rxCq| < cqSize then [RxComp(e.context, m.cmd.op,
                 CompFlags(m.cmd.opFlags, e.flags, freed), x.len, e.iov[0].base, m.cmd.addr, m.cmd.tag,
                 m.cmd.data, x.err)] else []),
       statusWrites := s.statusWrites + HandlerWrites(m.cmd, x))
  }

  /** The state reached by taking the message off its list (`s1`) and then
      delivering it (`s2`) is DeliverFirst of the state before. */
  lemma DeliverFirstIs(s: RecvState, s1: RecvState, s2: RecvState, tagged: bool, i: nat, j: nat,
                       x: Xfer, freed: bool, minSize: nat, cqSize: nat)
    requires i < |s.posted| && |s.posted[i].iov| > 0 && FirstUnexp(s.unexp, AttrOf(s.posted[i]), tagged) == Some(j)
    requires s1 == s.(unexp := RemoveAt(s.unexp, j), unexpFree := s.unexpFree + {s.unexp[j].slot})
    requires freed == Retires(s.posted[i], x.len, minSize)
    requires var e, h := s.posted[i], s.unexp[j].cmd;
      s2 == s1.(posted := if freed then RemoveAt(s.posted, i)
                          else s.posted[i := e.(iov := e.iov[0 := MultiRecvStep(e.iov[0], x.len, minSize).value])],
                recvFree := if freed then s.recvFree + {e.slot} else s.recvFree,
                cmdCnt := s.cmdCnt + (if CreditOnDelivery(h) then 1 else 0),
                injectFree := s.injectFree + InjectOf(h),
                rxCq := s.rxCq + (if |s.rxCq| < cqSize then [RxComp(e.context, h.op,
                  CompFlags(h.opFlags, e.flags, freed), x.len, e.iov[0].base, h.addr, h.tag, h.data, x.err)] else []),
                statusWrites := s.statusWrites + HandlerWrites(h, x))
    ensures s2 == DeliverFirst(s, tagged, i, x, minSize, cqSize)
  {
  }

  /** One more delivery extends the drain by one round; a plain receive is
      always retired by its first delivery. */
  lemma DrainStep(s0: RecvState, s: RecvState, tagged: bool, i: nat, n: nat, lens: seq<nat>,
                  x: Xfer, minSize: nat, cqSize: nat)
    requires Drain(s0, s, tagged, i, n, lens, minSize, false) && |s.posted[i].iov| > 0
    requires FirstUnexp(s.unexp, AttrOf(s.posted[i]), tagged).Some?
    requires CarriesPayload(s.unexp[FirstUnexp(s.unexp, AttrOf(s.posted[i]), tagged).value].cmd.op)
    ensures Drain(s0, DeliverFirst(s, tagged, i, x, minSize, cqSize), tagged, i, n + 1, lens + [x.len],
                  minSize, Retires(s.posted[i], x.len, minSize))
    ensures |DeliverFirst(s, tagged, i, x, minSize, cqSize).unexp| < |s.unexp|
    ensures MultiRecv !in s0.posted[i].flags ==> Retires(s.posted[i], x.len, minSize)
  {
    var s' := DeliverFirst(s, tagged, i, x, minSize, cqSize);
    var j := FirstUnexp(s.unexp, AttrOf(s.posted[i]), tagged).value;
    UnexpDrainMore(s0.unexp, AttrOf(s0.posted[i]), tagged, n, s.unexp, s0.unexpFree, s.unexpFree,
                   s0.cmdCnt, s.cmdCnt, s0.injectFree, s.injectFree, j,
                   s'.unexp, s'.unexpFree, s'.cmdCnt, s'.injectFree);
    assert (lens + [x.len])[..n] == lens;
    if Retires(s.posted[i], x.len, minSize) {
      KeptRemove(s0.posted, s.posted, i, lens, minSize);
    } else {
      KeptMore(s0.posted, s.posted, i, lens, minSize, x.len);
    }
  }

  /** Before the first round nothing has been drained. */
  lemma DrainStart(s0: RecvState, tagged: bool, i: nat, minSize: nat)
    requires i < |s0.posted| && s0.posted[i].iov != []
    ensures Drain(s0, s0, tagged, i, 0, [], minSize, false)
  {
    assert Matches(s0.unexp, AttrOf(s0.posted[i]), tagged)[..0] == [];
    KeptNone(s0.posted, s0.posted, i, minSize);
  }

  /** How smr_progress_cmd_msg disposed of a message: left it at the head
      of the queue for a retry, queued it as unexpected in entry `slot`, or
      delivered `x` into the `entry`-th posted receive. */
  datatype MsgOutcome = Retry | Queued(slot: nat) | Delivered(entry: nat, x: Xfer)

  /** Which handler one round of the dispatch switch of smr_progress_cmd
      ran, with what it reported besides its return value. */
  datatype Dispatch =
    | MsgRan(out: MsgOutcome)
    | RmaRan(d: seq<RmaIov>, x: Xfer)
    | AtomicRan(d: seq<RmaIov>, len: nat, err: int, apps: seq<AtomicApp>)
    | AsyncRan
    | UnknownOp

  class Endpoint {
    // The endpoint's shared region.
    var cmdQueue: seq<Slot>
    var respQueue: seq<Resp>
    var injectFree: set<nat>
    var cmdCnt: int

    // Posted receives (recv_queue, trecv_queue) and the free entries of recv_fs.
    var recvQueue: seq<RxEntry>
    var trecvQueue: seq<RxEntry>
    var recvFree: set<nat>

    // Unexpected messages and the free entries of unexp_fs.
    var unexpMsgQueue: seq<UnexpMsg>
    var unexpTaggedQueue: seq<UnexpMsg>
    var unexpFree: set<nat>

    // Pending sends by msg_id, the free ids of pend_fs, and the msg_ids
    // whose mmapped file is still on the map_name list.
    var pend: map<nat, TxEntry>
    var pendFree: set<nat>
    var mapNames: set<nat>

    // Completion queues and the receive counter.
    var rxCq: seq<RxComp>
    var txCq: seq<TxComp>
    var rxCntr: seq<Op>

    // The parts of peer regions this endpoint updates, and a log of
    // statuses stored into peers' response slots and of atomic handler calls.
    var peers: map<nat, PeerRegion>
    var statusWrites: seq<StatusWrite>
    var atomicLog: seq<AtomicApp>

    const rxCqSize: nat
    const txCqSize: nat
    const minMultiRecvSize: nat

    // Calls outside the engine: ofi_mr_verify, ofi_datatype_size, the
    // cross-process copy, and the OS calls of the mmap path.
    const mrVerify: MrQuery -> int
    const datatypeSize: nat -> nat
    const cma: CmaFn
    const mmapOs: Hdr -> MmapOs

    function Posted(tagged: bool): seq<RxEntry>
      reads this`recvQueue, this`trecvQueue
    {
      Pick(tagged, recvQueue, trecvQueue)
    }

    function Unexp(tagged: bool): seq<UnexpMsg>
      reads this`unexpMsgQueue, this`unexpTaggedQueue
    {
      Pick(tagged, unexpMsgQueue, unexpTaggedQueue)
    }

    /** The receive-side state, seen from the `tagged` kind of traffic. */
    ghost function Recv(tagged: bool): RecvState
      reads this`recvQueue, this`trecvQueue, this`recvFree, this`unexpMsgQueue, this`unexpTaggedQueue,
            this`unexpFree, this`cmdCnt, this`injectFree, this`rxCq, this`statusWrites
    {
      RecvState(Posted(tagged), Unexp(tagged), Posted(!tagged), Unexp(!tagged), recvFree, unexpFree,
                cmdCnt, injectFree, rxCq, statusWrites)
    }

    /** The command queue holds whole commands. */
    ghost predicate QueueValid()
      reads this`cmdQueue
    {
      Paired(cmdQueue)
    }

    /** Every posted receive has a buffer. */
    ghost predicate PostedValid()
      reads this`recvQueue, this`trecvQueue
    {
      Buffered(recvQueue) && Buffered(trecvQueue)
    }

    /** Each unexpected list holds only messages of its own kind. */
    ghost predicate UnexpValid()
      reads this`unexpMsgQueue, this`unexpTaggedQueue
    {
      Kind(unexpMsgQueue, false) && Kind(unexpTaggedQueue, true)
    }

    /** Each response names a distinct pending send that is in use and whose
        peer is mapped. */
    ghost predicate RespValid()
      reads this`respQueue, this`pend, this`pendFree, this`peers
    {
      RespOk(peers, pend, respQueue, pendFree)
    }

    /** The parts of the invariant the receive lists rely on. */
    ghost predicate RecvValid()
      reads this`recvQueue, this`trecvQueue, this`unexpMsgQueue, this`unexpTaggedQueue
    {
      PostedValid() && UnexpValid()
    }

    /** The parts of the invariant the message path relies on. */
    ghost predicate MsgValid()
      reads this`cmdQueue, this`recvQueue, this`trecvQueue, this`unexpMsgQueue, this`unexpTaggedQueue
    {
      QueueValid() && PostedValid() && UnexpValid()
    }

    ghost predicate Valid()
      reads this`cmdQueue, this`recvQueue, this`trecvQueue, this`unexpMsgQueue, this`unexpTaggedQueue,
            this`respQueue, this`pend, this`pendFree, this`peers
    {
      QueueValid() && PostedValid() && UnexpValid() && RespValid()
    }

    /** The first target range that ofi_mr_verify rejects, if any. */
    function FirstRejected(d: seq<RmaIov>, unit: nat, op: Op, atomicOp: nat): (r: Option<nat>)
      ensures r.Some? ==> r.value < |d| && mrVerify(Query(d[r.value], unit, op, atomicOp)) != 0
      ensures r.Some? ==> forall j :: 0 <= j < r.value ==> mrVerify(Query(d[j], unit, op, atomicOp)) == 0
      ensures r.None? ==> forall j :: 0 <= j < |d| ==> mrVerify(Query(d[j], unit, op, atomicOp)) == 0
    {
      if d == [] then None
      else if mrVerify(Query(d[0], unit, op, atomicOp)) != 0 then Some(0)
      else match FirstRejected(d[1..], unit, op, atomicOp)
        case None => None
        case Some(i) => Some(i + 1)
    }

    /** A freshly enabled endpoint: empty queues and full pools. */
    constructor (rxCqSize: nat, txCqSize: nat, minMultiRecvSize: nat,
                 mrVerify: MrQuery -> int, datatypeSize: nat -> nat,
                 cma: CmaFn, mmapOs: Hdr -> MmapOs,
                 injectBufs: set<nat>, recvSlots: set<nat>, unexpSlots: set<nat>,
                 peers: map<nat, PeerRegion>)
      ensures Valid()
      ensures cmdQueue == [] && respQueue == [] && cmdCnt == 0
      ensures injectFree == injectBufs && recvFree == recvSlots && unexpFree == unexpSlots
      ensures recvQueue == [] && trecvQueue == [] && unexpMsgQueue == [] && unexpTaggedQueue == []
      ensures rxCq == [] && txCq == [] && rxCntr == [] && this.peers == peers
      ensures this.rxCqSize == rxCqSize && this.txCqSize == txCqSize
      ensures this.minMultiRecvSize == minMultiRecvSize
    {
      this.rxCqSize, this.txCqSize, this.minMultiRecvSize := rxCqSize, txCqSize, minMultiRecvSize;
      this.mrVerify, this.datatypeSize, this.cma, this.mmapOs := mrVerify, datatypeSize, cma, mmapOs;
      this.peers := peers;
      cmdQueue, respQueue, injectFree, cmdCnt := [], [], injectBufs, 0;
      recvQueue, trecvQueue, recvFree := [], [], recvSlots;
      unexpMsgQueue, unexpTaggedQueue, unexpFree := [], [], unexpSlots;
      pend, pendFree, mapNames := map[], {}, {};
      rxCq, txCq, rxCntr := [], [], [];
      statusWrites, atomicLog := [], [];
    }

    /** smr_complete_rx: write one receive completion, or fail with
        -FI_EAGAIN when the completion queue is full. */
    method CompleteRx(c: RxComp) returns (ret: int)
      modifies this`rxCq
      ensures ret == 0 <==> |old(rxCq)| < rxCqSize
      ensures ret != 0 ==> ret == -FI_EAGAIN
      ensures rxCq == if ret == 0 then old(rxCq) + [c] else old(rxCq)
    {
      if |rxCq| < rxCqSize {
        rxCq := rxCq + [c];
        ret := 0;
      } else {
        ret := -FI_EAGAIN;
      }
    }

    /** smr_complete_tx: write one transmit completion, or fail with
        -FI_EAGAIN when the completion queue is full. */
    method CompleteTx(c: TxComp) returns (ret: int)
      modifies this`txCq
      ensures ret == 0 <==> |old(txCq)| < txCqSize
      ensures ret != 0 ==> ret == -FI_EAGAIN
      ensures txCq == if ret == 0 then old(txCq) + [c] else old(txCq)
    {
      if |txCq| < txCqSize {
        txCq := txCq + [c];
        ret := 0;
      } else {
        ret := -FI_EAGAIN;
      }
    }

    /** smr_progress_inject: copy through the inject buffer at h.srcData into
        a list of capacity `cap`. The buffer goes back to the pool at once,
        except for a read request, whose data the initiator copies out when
        it handles the response. */
    method ProgressInject(h: Hdr, cap: nat, err: int) returns (x: Xfer)
      modifies this`injectFree
      ensures err != 0 ==> x == Xfer(0, err)
      ensures err == 0 ==> x == Copy(h.size, cap)
      ensures injectFree == old(injectFree) + (if err == 0 && h.op == OpReadReq then {} else {h.srcData})
    {
      var buf := h.srcData;
      if err != 0 {
        injectFree := injectFree + {buf};
        return Xfer(0, err);
      }
      var len := CopyLen(h.size, cap);
      if h.op != OpReadReq {
        injectFree := injectFree + {buf};
      }
      x := Xfer(len, if len != h.size then -FI_EIO else 0);
    }

    /** smr_progress_iov: the cross-process copy between the initiator's
        buffers and a local list of capacity `cap`, then the status stored
        into the initiator's response slot at h.srcData, last. */
    method ProgressIov(h: Hdr, cap: nat, err: int) returns (x: Xfer)
      modifies this`statusWrites
      ensures x == IovXfer(h.size, err, cma(h, cap))
      ensures x.len <= cap
      ensures statusWrites == old(statusWrites) + [StatusWrite(h.addr, h.srcData, -x.err)]
    {
      var ret: int;
      var len: nat := 0;
      if err != 0 {
        ret := -err;
      } else {
        var r := cma(h, cap);
        var moved: int := if r.Moved? then r.bytes else -1;
        if moved != h.size {
          if moved < 0 {
            ret := r.errno;
          } else {
            ret := FI_EIO;
          }
        } else {
          len := moved;
          ret := 0;
        }
      }
      statusWrites := statusWrites + [StatusWrite(h.addr, h.srcData, ret)];
      x := Xfer(len, -ret);
    }

    /** smr_progress_mmap: the copy through the file the initiator mmapped,
        then its (nonpositive) result stored into the initiator's response
        slot. */
    method ProgressMmap(h: Hdr, cap: nat) returns (x: Xfer)
      modifies this`statusWrites
      ensures statusWrites == old(statusWrites) + [StatusWrite(h.addr, h.srcData, x.err)]
      ensures x == MmapXfer(h.op, h.size, cap, mmapOs(h))
    {
      var ret, len, held, unlinked := MmapPeerCopy(h.op, h.size, cap, mmapOs(h));
      statusWrites := statusWrites + [StatusWrite(h.addr, h.srcData, ret)];
      x := Xfer(len, ret);
    }

    /** The bytes moved and the error reported by the op_src handler of
        command `h` against a local list of capacity `cap`: a copy for inline
        and inject data, the cross-process copy, the mmap copy, and
        -FI_EINVAL for an unknown source. */
    function Transferred(h: Hdr, cap: nat): (x: Xfer)
      ensures x.len <= cap && x.len <= h.size + (if h.op == OpReadReq then cap else 0)
      ensures DataInCommand(h) ==> (x.err == 0 <==> h.size <= cap)
      ensures h.opSrc == SrcIov ==> (x.err == 0 <==> cma(h, cap) == Moved(h.size))
      ensures h.opSrc == SrcMmap ==>
        (x.err == 0 <==> mmapOs(h).nameOk && mmapOs(h).openOk && mmapOs(h).mapOk &&
                         (h.op == OpReadReq || h.size <= cap))
      ensures h.opSrc.SrcUnknown? ==> x == Xfer(0, -FI_EINVAL)
      ensures x.err == 0 && h.op != OpReadReq ==> x.len == h.size
    {
      match h.opSrc
      case SrcInline => Copy(h.size, cap)
      case SrcInject => Copy(h.size, cap)
      case SrcIov => IovXfer(h.size, 0, cma(h, cap))
      case SrcMmap => MmapXfer(h.op, h.size, cap, mmapOs(h))
      case SrcUnknown(_) => Xfer(0, -FI_EINVAL)
    }

    /** The handler switch on op_src shared by smr_progress_msg_common and
        smr_progress_cmd_rma, moving at most `cap` bytes. */
    method RunHandler(h: Hdr, cap: nat) returns (x: Xfer)
      modifies this`injectFree, this`statusWrites
      ensures x == Transferred(h, cap)
      ensures statusWrites == old(statusWrites) + HandlerWrites(h, x)
      ensures injectFree == old(injectFree) +
        (if h.opSrc == SrcInject && h.op != OpReadReq then {h.srcData} else {})
    {
      match h.opSrc {
        case SrcInline =>
          x := Copy(h.size, cap);
        case SrcInject =>
          x := ProgressInject(h, cap, 0);
        case SrcIov =>
          x := ProgressIov(h, cap, 0);
        case SrcMmap =>
          x := ProgressMmap(h, cap);
        case SrcUnknown(_) =>
          x := Xfer(0, -FI_EINVAL);
      }
    }

    method SetPosted(tagged: bool, q: seq<RxEntry>)
      modifies this`recvQueue, this`trecvQueue
      ensures Posted(tagged) == q && Posted(!tagged) == old(Posted(!tagged))
    {
      if tagged { trecvQueue := q; } else { recvQueue := q; }
    }

    method SetUnexp(tagged: bool, u: seq<UnexpMsg>)
      modifies this`unexpMsgQueue, this`unexpTaggedQueue
      ensures Unexp(tagged) == u && Unexp(!tagged) == old(Unexp(!tagged))
    {
      if tagged { unexpTaggedQueue := u; } else { unexpMsgQueue := u; }
    }

    /** dlist_remove and freestack_push of a posted entry. */
    method RetireEntry(tagged: bool, i: nat)
      requires PostedValid() && i < |Posted(tagged)|
      modifies this`recvQueue, this`trecvQueue, this`recvFree
      ensures PostedValid()
      ensures Posted(tagged) == RemoveAt(old(Posted(tagged)), i)
      ensures Posted(!tagged) == old(Posted(!tagged))
      ensures recvFree == old(recvFree) + {old(Posted(tagged))[i].slot}
    {
      recvFree := recvFree + {Posted(tagged)[i].slot};
      SetPosted(tagged, RemoveAt(Posted(tagged), i));
    }

    /** Replace the first iov of a posted entry, keeping it in place. */
    method ShrinkEntry(tagged: bool, i: nat, v: Iov)
      requires PostedValid() && i < |Posted(tagged)|
      modifies this`recvQueue, this`trecvQueue
      ensures PostedValid()
      ensures Posted(tagged) ==
        old(Posted(tagged))[i := old(Posted(tagged))[i].(iov := old(Posted(tagged))[i].iov[0 := v])]
      ensures Posted(!tagged) == old(Posted(!tagged))
    {
      var q := Posted(tagged);
      SetPosted(tagged, q[i := q[i].(iov := q[i].iov[0 := v])]);
    }

    /** The entry step of smr_progress_msg_common, after `x` was delivered
        into the i-th posted entry: write the receive completion, then free
        the entry or, for a multi-receive buffer with room left, keep it
        posted with its first iov shrunk past the delivered bytes. */
    method FinishEntry(h: Hdr, tagged: bool, i: nat, x: Xfer) returns (freed: bool)
      requires PostedValid() && i < |Posted(tagged)|
      modifies this`recvQueue, this`trecvQueue, this`recvFree, this`rxCq
      ensures PostedValid()
      ensures freed == Retires(old(Posted(tagged))[i], x.len, minMultiRecvSize)
      ensures rxCq == old(rxCq) + (if |old(rxCq)| < rxCqSize then [RxComp(
        old(Posted(tagged))[i].context, h.op,
        CompFlags(h.opFlags, old(Posted(tagged))[i].flags, freed), x.len,
        old(Posted(tagged))[i].iov[0].base, h.addr, h.tag, h.data, x.err)] else [])
      ensures Posted(!tagged) == old(Posted(!tagged))
      ensures freed ==> Posted(tagged) == RemoveAt(old(Posted(tagged)), i)
      ensures freed ==> recvFree == old(recvFree) + {old(Posted(tagged))[i].slot}
      ensures !freed ==> recvFree == old(recvFree)
      ensures !freed ==> Posted(tagged) == old(Posted(tagged))[i := old(Posted(tagged))[i].(iov :=
        old(Posted(tagged))[i].iov[0 :=
          MultiRecvStep(old(Posted(tagged))[i].iov[0], x.len, minMultiRecvSize).value])]
    {
      var e := Posted(tagged)[i];
      freed := true;
      if MultiRecv in e.flags {
        var step := MultiRecvStep(e.iov[0], x.len, minMultiRecvSize);
        if step.Some? {
          freed := false;
          ShrinkEntry(tagged, i, step.value);
        }
      }
      var _ := CompleteRx(RxComp(e.context, h.op, CompFlags(h.opFlags, e.flags, freed), x.len,
                                 e.iov[0].base, h.addr, h.tag, h.data, x.err));
      if freed {
        RetireEntry(tagged, i);
      }
    }

    /** What smr_progress_msg_common does to the endpoint when it delivers
        message `h` into the i-th entry e of the `tagged` posted list: the
        handler moves `x` into e's buffers and stores its status for a direct
        or mmap copy; an inline or inject delivery gives the sender its
        command credit back and an inject buffer returns to the pool; the
        receive completion is written when the CQ has room; e is freed when
        Retires says so, and otherwise stays in place with its first iov
        shrunk past the delivered bytes. Nothing else changes. */
    twostate predicate DeliveredInto(h: Hdr, tagged: bool, i: nat, x: Xfer)
      reads this`recvQueue, this`trecvQueue, this`recvFree, this`cmdCnt, this`injectFree,
            this`statusWrites, this`rxCq
    {
      && i < |old(Posted(tagged))| && old(Posted(tagged))[i].iov != []
      && var e := old(Posted(tagged))[i];
         var freed := Retires(e, x.len, minMultiRecvSize);
         && x == Transferred(h, IovTotal(e.iov))
         && statusWrites == old(statusWrites) + HandlerWrites(h, x)
         && cmdCnt == old(cmdCnt) + (if CreditOnDelivery(h) then 1 else 0)
         && injectFree == old(injectFree) + InjectOf(h)
         && rxCq == old(rxCq) + (if |old(rxCq)| < rxCqSize then [RxComp(
              e.context, h.op, CompFlags(h.opFlags, e.flags, freed), x.len,
              e.iov[0].base, h.addr, h.tag, h.data, x.err)] else [])
         && Posted(!tagged) == old(Posted(!tagged))
         && (freed ==> Posted(tagged) == RemoveAt(old(Posted(tagged)), i) && recvFree == old(recvFree) + {e.slot})
         && (!freed ==>
               && recvFree == old(recvFree)
               && Posted(tagged) == old(Posted(tagged))[i := e.(iov :=
                    e.iov[0 := MultiRecvStep(e.iov[0], x.len, minMultiRecvSize).value])])
    }

    /** smr_progress_msg_common: deliver message `h` into the i-th entry of
        the posted list; `freed` says whether the entry was released. Inline
        and inject deliveries give the sender its command credit back here;
        direct and mmap copies signal through the response slot instead. */
    method MsgCommon(h: Hdr, tagged: bool, i: nat) returns (freed: bool, x: Xfer)
      requires PostedValid() && i < |Posted(tagged)|
      requires h.op == OpMsg || h.op == OpTagged
      modifies this`recvQueue, this`trecvQueue, this`recvFree, this`cmdCnt, this`injectFree,
               this`statusWrites, this`rxCq
      ensures PostedValid()
      ensures freed == Retires(old(Posted(tagged))[i], x.len, minMultiRecvSize)
      ensures DeliveredInto(h, tagged, i, x)
    {
      x := RunHandler(h, IovTotal(Posted(tagged)[i].iov));
      if CreditOnDelivery(h) {
        cmdCnt := cmdCnt + 1;
      }
      freed := FinishEntry(h, tagged, i, x);
    }

    /** The no-match branch of smr_progress_cmd_msg: pop an unexpected
        entry, copy the command into it, and append it to its list. */
    method QueueUnexpected(h: Hdr) returns (s: nat)
      requires UnexpValid() && |cmdQueue| >= 1 && cmdQueue[0] == CmdSlot(h)
      requires h.op == OpMsg || h.op == OpTagged
      requires unexpFree != {}
      modifies this`cmdQueue, this`unexpMsgQueue, this`unexpTaggedQueue, this`unexpFree
      ensures UnexpValid()
      ensures cmdQueue == old(cmdQueue)[1..]
      ensures s in old(unexpFree) && unexpFree == old(unexpFree) - {s}
      ensures Unexp(h.op == OpTagged) == old(Unexp(h.op == OpTagged)) + [UnexpMsg(s, h)]
      ensures Unexp(h.op != OpTagged) == old(Unexp(h.op != OpTagged))
    {
      var tagged := h.op == OpTagged;
      s :| s in unexpFree;
      KindSnoc(Unexp(tagged), tagged, UnexpMsg(s, h));
      SetUnexp(tagged, Unexp(tagged) + [UnexpMsg(s, h)]);
      unexpFree := unexpFree - {s};
      cmdQueue := cmdQueue[1..];
    }

    /** The match branch of smr_progress_cmd_msg: deliver into the i-th
        posted entry, then discard the command. */
    method DeliverHead(h: Hdr, i: nat) returns (x: Xfer)
      requires PostedValid() && |cmdQueue| >= 1 && cmdQueue[0] == CmdSlot(h)
      requires h.op == OpMsg || h.op == OpTagged
      requires i < |Posted(h.op == OpTagged)|
      modifies this`cmdQueue, this`recvQueue, this`trecvQueue, this`recvFree, this`cmdCnt,
               this`injectFree, this`statusWrites, this`rxCq
      ensures PostedValid()
      ensures cmdQueue == old(cmdQueue)[1..]
      ensures DeliveredInto(h, h.op == OpTagged, i, x)
    {
      var freed;
      freed, x := MsgCommon(h, h.op == OpTagged, i);
      cmdQueue := cmdQueue[1..];
    }

    /** The no-match outcome of smr_progress_cmd_msg on the whole endpoint. */
    method CmdMsgQueue(h: Hdr) returns (s: nat)
      requires MsgValid() && |cmdQueue| >= 1 && cmdQueue[0] == CmdSlot(h)
      requires h.op == OpMsg || h.op == OpTagged
      requires unexpFree != {}
      modifies this`cmdQueue, this`unexpMsgQueue, this`unexpTaggedQueue, this`unexpFree
      ensures MsgValid()
      ensures cmdQueue == old(cmdQueue)[1..]
      ensures s in old(unexpFree) && unexpFree == old(unexpFree) - {s}
      ensures Unexp(h.op == OpTagged) == old(Unexp(h.op == OpTagged)) + [UnexpMsg(s, h)]
      ensures Unexp(h.op != OpTagged) == old(Unexp(h.op != OpTagged))
    {
      s := QueueUnexpected(h);
    }

    /** The match outcome of smr_progress_cmd_msg on the whole endpoint. */
    method CmdMsgDeliver(h: Hdr, i: nat) returns (x: Xfer)
      requires MsgValid() && |cmdQueue| >= 1 && cmdQueue[0] == CmdSlot(h)
      requires h.op == OpMsg || h.op == OpTagged
      requires i < |Posted(h.op == OpTagged)|
      modifies this`cmdQueue, this`recvQueue, this`trecvQueue, this`recvFree, this`cmdCnt,
               this`injectFree, this`statusWrites, this`rxCq
      ensures MsgValid()
      ensures cmdQueue == old(cmdQueue)[1..]
      ensures DeliveredInto(h, h.op == OpTagged, i, x)
    {
      x := DeliverHead(h, i);
    }

    /** What smr_progress_cmd_msg did with the message `h` at the head of
        the queue, returning `ret`, by its outcome `out`: it is retried
        (-FI_ENOSPC for a full receive CQ, -FI_EAGAIN when no unexpected
        entry is free) with nothing changed; or, when no posted receive
        accepts it, it is queued at the tail of its unexpected list in a
        fresh entry, its inject buffer and credit staying with it; or it is
        delivered into the first posted receive that accepts it. */
    twostate predicate MsgDone(h: Hdr, ret: int, out: MsgOutcome)
      reads this
    {
      && (ret == 0 <==> !out.Retry?)
      && (ret == -FI_ENOSPC <==> |old(rxCq)| >= rxCqSize)
      && (out.Retry? ==> ret == -FI_ENOSPC || ret == -FI_EAGAIN)
      && (ret == -FI_EAGAIN ==> old(unexpFree) == {})
      && (out.Retry? ==> unchanged(this))
      && (!out.Retry? ==> |old(cmdQueue)| >= 1 && cmdQueue == old(cmdQueue)[1..])
      && (|old(rxCq)| < rxCqSize ==>
            (out.Delivered? <==> FirstPosted(old(Posted(h.op == OpTagged)), h.op == OpTagged, h).Some?))
      && (out.Queued? ==>
            && out.slot in old(unexpFree) && unexpFree == old(unexpFree) - {out.slot}
            && Unexp(h.op == OpTagged) == old(Unexp(h.op == OpTagged)) + [UnexpMsg(out.slot, h)]
            && Unexp(h.op != OpTagged) == old(Unexp(h.op != OpTagged))
            && recvQueue == old(recvQueue) && trecvQueue == old(trecvQueue) && recvFree == old(recvFree)
            && cmdCnt == old(cmdCnt) && injectFree == old(injectFree) && rxCq == old(rxCq)
            && statusWrites == old(statusWrites))
      && (out.Delivered? ==>
            && FirstPosted(old(Posted(h.op == OpTagged)), h.op == OpTagged, h).Some?
            && out.entry == FirstPosted(old(Posted(h.op == OpTagged)), h.op == OpTagged, h).value
            && unexpMsgQueue == old(unexpMsgQueue) && unexpTaggedQueue == old(unexpTaggedQueue)
            && unexpFree == old(unexpFree)
            && |old(rxCq)| < rxCqSize && DeliveredInto(h, h.op == OpTagged, out.entry, out.x))
    }

    /** smr_progress_cmd_msg: the message command at the head of the queue
        goes to the first posted receive that accepts it; when none does, it
        is copied into an unexpected-message entry at the tail of its list.
        A full receive CQ, or no match and no free unexpected entry, leaves
        the command at the head for a later retry. */
    method CmdMsg(h: Hdr) returns (ret: int, ghost out: MsgOutcome)
      requires MsgValid() && |cmdQueue| >= 1 && cmdQueue[0] == CmdSlot(h)
      requires h.op == OpMsg || h.op == OpTagged
      modifies this`cmdQueue, this`unexpMsgQueue, this`unexpTaggedQueue, this`unexpFree,
               this`recvQueue, this`trecvQueue, this`recvFree, this`cmdCnt, this`injectFree,
               this`statusWrites, this`rxCq
      ensures MsgValid() && MsgDone(h, ret, out)
    {
      out := Retry;
      if |rxCq| >= rxCqSize {
        return -FI_ENOSPC, out;
      }
      var tagged := h.op == OpTagged;
      var idx := FirstPosted(Posted(tagged), tagged, h);
      if idx.None? {
        if unexpFree == {} {
          return -FI_EAGAIN, out;
        }
        var s := CmdMsgQueue(h);
        return 0, Queued(s);
      }
      var x := CmdMsgDeliver(h, idx.value);
      ret, out := 0, Delivered(idx.value, x);
    }

    /** dlist_remove_first_match on the unexpected list of the i-th posted
        entry, and the freestack_push of the removed entry. */
    method TakeUnexp(tagged: bool, a: MatchAttr) returns (m: UnexpMsg, ghost j: nat)
      requires UnexpValid() && FirstUnexp(Unexp(tagged), a, tagged).Some?
      modifies this`unexpMsgQueue, this`unexpTaggedQueue, this`unexpFree
      ensures UnexpValid()
      ensures FirstUnexp(old(Unexp(tagged)), a, tagged) == Some(j) && m == old(Unexp(tagged))[j]
      ensures m.cmd.op == OpMsg || m.cmd.op == OpTagged
      ensures Unexp(tagged) == RemoveAt(old(Unexp(tagged)), j) && Unexp(!tagged) == old(Unexp(!tagged))
      ensures unexpFree == old(unexpFree) + {m.slot}
    {
      var k := FirstUnexp(Unexp(tagged), a, tagged).value;
      m, j := Unexp(tagged)[k], k;
      KindRemove(Unexp(tagged), tagged, k);
      SetUnexp(tagged, RemoveAt(Unexp(tagged), k));
      unexpFree := unexpFree + {m.slot};
    }

    /** One round of the loop of smr_progress_unexp_queue: take the first
        unexpected message that the i-th posted entry accepts off its list,
        deliver it into the entry with smr_progress_msg_common, and push its
        unexpected entry back on the free pool. */
    method DeliverUnexp(tagged: bool, i: nat) returns (freed: bool, ghost x: Xfer)
      requires RecvValid() && i < |Posted(tagged)|
      requires FirstUnexp(Unexp(tagged), AttrOf(Posted(tagged)[i]), tagged).Some?
      modifies this`unexpMsgQueue, this`unexpTaggedQueue, this`unexpFree, this`recvQueue,
               this`trecvQueue, this`recvFree, this`cmdCnt, this`injectFree, this`statusWrites, this`rxCq
      ensures RecvValid()
      ensures var e, u := old(Posted(tagged))[i], old(Unexp(tagged));
        x == Transferred(u[FirstUnexp(u, AttrOf(e), tagged).value].cmd, IovTotal(e.iov))
      ensures freed == Retires(old(Posted(tagged))[i], x.len, minMultiRecvSize)
      ensures Recv(tagged) == DeliverFirst(old(Recv(tagged)), tagged, i, x, minMultiRecvSize, rxCqSize)
    {
      ghost var s := Recv(tagged);
      var m;
      ghost var j;
      m, j := TakeUnexp(tagged, AttrOf(Posted(tagged)[i]));
      ghost var s1 := Recv(tagged);
      freed, x := MsgCommon(m.cmd, tagged, i);
      DeliverFirstIs(s, s1, Recv(tagged), tagged, i, j, x, freed, minMultiRecvSize, rxCqSize);
    }

    /** The k-th delivery of a drain into entry `e` moved `lens[k]` bytes:
        what the handler of the k-th accepted message `ms[k]` moves into the
        entry as the k deliveries before it left it, with its first iov
        shrunk by them. */
    ghost predicate FedAt(e: RxEntry, ms: seq<UnexpMsg>, lens: seq<nat>, k: nat)
    {
      && e.iov != [] && k < |lens| && k < |ms|
      && ShrinkAll(e.iov[0], lens[..k], minMultiRecvSize).Some?
      && lens[k] == Transferred(ms[k].cmd,
           IovTotal(e.iov[0 := ShrinkAll(e.iov[0], lens[..k], minMultiRecvSize).value])).len
    }

    /** Every delivery of a drain into entry `e` of the accepted messages
        `ms` moved what its handler moves, as FedAt says. */
    ghost predicate DrainFed(e: RxEntry, ms: seq<UnexpMsg>, lens: seq<nat>)
    {
      && e.iov != [] && |lens| <= |ms|
      && forall k: nat :: k < |lens| ==> FedAt(e, ms, lens, k)
    }

    /** A delivery of the next accepted message into the entry as the
        earlier deliveries left it extends the record. */
    lemma DrainFedMore(e: RxEntry, ms: seq<UnexpMsg>, lens: seq<nat>, len: nat)
      requires DrainFed(e, ms, lens) && |lens| < |ms|
      requires ShrinkAll(e.iov[0], lens, minMultiRecvSize).Some?
      requires len == Transferred(ms[|lens|].cmd,
                 IovTotal(e.iov[0 := ShrinkAll(e.iov[0], lens, minMultiRecvSize).value])).len
      ensures DrainFed(e, ms, lens + [len])
    {
      var l := lens + [len];
      forall k: nat | k < |l|
        ensures FedAt(e, ms, l, k)
      {
        assert l[..k] == lens[..k];
        if k < |lens| {
          assert FedAt(e, ms, lens, k);
        }
      }
    }

    /** One round of smr_progress_unexp_queue after `n` rounds that started
        in state `s0`; when the entry stays, `more` says whether another
        accepted message is waiting. */
    method UnexpStep(tagged: bool, i: nat, ghost s0: RecvState, ghost n: nat, ghost lens: seq<nat>)
      returns (freed: bool, more: bool, ghost len: nat)
      requires RecvValid() && Drain(s0, Recv(tagged), tagged, i, n, lens, minMultiRecvSize, false)
      requires DrainFed(s0.posted[i], Matches(s0.unexp, AttrOf(s0.posted[i]), tagged), lens)
      requires FirstUnexp(Unexp(tagged), AttrOf(s0.posted[i]), tagged).Some?
      modifies this`unexpMsgQueue, this`unexpTaggedQueue, this`unexpFree, this`recvQueue,
               this`trecvQueue, this`recvFree, this`cmdCnt, this`injectFree, this`statusWrites, this`rxCq
      ensures RecvValid() && Drain(s0, Recv(tagged), tagged, i, n + 1, lens + [len], minMultiRecvSize, freed)
      ensures DrainFed(s0.posted[i], Matches(s0.unexp, AttrOf(s0.posted[i]), tagged), lens + [len])
      ensures MultiRecv !in s0.posted[i].flags ==> freed
      ensures !freed ==> (more <==> FirstUnexp(Unexp(tagged), AttrOf(s0.posted[i]), tagged).Some?)
      ensures |Unexp(tagged)| < |old(Unexp(tagged))|
    {
      ghost var s := Recv(tagged);
      var a := AttrOf(Posted(tagged)[i]);
      ghost var x;
      freed, x := DeliverUnexp(tagged, i);
      len := x.len;
      DrainStep(s0, s, tagged, i, n, lens, x, minMultiRecvSize, rxCqSize);
      DrainNext(s0.unexp, a, tagged, n);
      DrainFedMore(s0.posted[i], Matches(s0.unexp, a, tagged), lens, len);
      more := !freed && FirstUnexp(Unexp(tagged), a, tagged).Some?;
    }

    /** The loop of smr_progress_unexp_queue, entered with `more` saying
        whether the i-th posted entry accepts a waiting message and `multi`
        whether it is a multi-receive buffer. */
    method DrainLoop(tagged: bool, i: nat, more: bool, multi: bool, ghost s0: RecvState)
      returns (ghost n: nat, ghost lens: seq<nat>, ghost retired: bool)
      requires RecvValid() && Drain(s0, Recv(tagged), tagged, i, 0, [], minMultiRecvSize, false)
      requires more <==> FirstUnexp(Unexp(tagged), AttrOf(s0.posted[i]), tagged).Some?
      requires multi == (MultiRecv in s0.posted[i].flags)
      modifies this`unexpMsgQueue, this`unexpTaggedQueue, this`unexpFree, this`recvQueue,
               this`trecvQueue, this`recvFree, this`cmdCnt, this`injectFree, this`statusWrites, this`rxCq
      ensures RecvValid() && Drain(s0, Recv(tagged), tagged, i, n, lens, minMultiRecvSize, retired)
      ensures DrainFed(s0.posted[i], Matches(s0.unexp, AttrOf(s0.posted[i]), tagged), lens)
      ensures !multi ==> n <= 1 && (retired <==> n == 1)
      ensures more <==> n > 0
      ensures !retired ==> FirstUnexp(Unexp(tagged), AttrOf(s0.posted[i]), tagged).None?
    {
      n, lens, retired := 0, [], false;
      var next := more;
      while next
        invariant RecvValid() && Drain(s0, Recv(tagged), tagged, i, n, lens, minMultiRecvSize, false)
        invariant DrainFed(s0.posted[i], Matches(s0.unexp, AttrOf(s0.posted[i]), tagged), lens)
        invariant next <==> FirstUnexp(Unexp(tagged), AttrOf(s0.posted[i]), tagged).Some?
        invariant multi || n == 0
        invariant more <==> n > 0 || next
        decreases |Unexp(tagged)|
      {
        var freed;
        ghost var len;
        freed, next, len := UnexpStep(tagged, i, s0, n, lens);
        n, lens := n + 1, lens + [len];
        if !multi || freed {
          retired := freed;
          break;
        }
      }
    }

    /** smr_progress_unexp_queue: a receive just posted as the i-th entry of
        its list drains the unexpected messages it accepts, oldest first. A
        plain receive takes at most one; a multi-receive buffer keeps taking
        them until it is retired or none is left. `n` messages were
        delivered, and `retired` says whether the entry was freed. */
    method ProgressUnexpQueue(tagged: bool, i: nat)
      returns (ret: int, ghost n: nat, ghost lens: seq<nat>, ghost retired: bool)
      requires RecvValid() && i < |Posted(tagged)|
      modifies this`unexpMsgQueue, this`unexpTaggedQueue, this`unexpFree, this`recvQueue,
               this`trecvQueue, this`recvFree, this`cmdCnt, this`injectFree, this`statusWrites, this`rxCq
      ensures RecvValid() && ret == 0
      ensures Drain(old(Recv(tagged)), Recv(tagged), tagged, i, n, lens, minMultiRecvSize, retired)
      ensures DrainFed(old(Posted(tagged))[i], Matches(old(Unexp(tagged)), AttrOf(old(Posted(tagged))[i]), tagged), lens)
      ensures n == 0 <==> Matches(old(Unexp(tagged)), AttrOf(old(Posted(tagged))[i]), tagged) == []
      ensures n == 0 ==> Recv(tagged) == old(Recv(tagged))
      ensures MultiRecv !in old(Posted(tagged))[i].flags ==> n <= 1 && (retired <==> n == 1)
      ensures !retired ==> n == |Matches(old(Unexp(tagged)), AttrOf(old(Posted(tagged))[i]), tagged)|
    {
      ghost var s0 := Recv(tagged);
      var multi := MultiRecv in Posted(tagged)[i].flags;
      var more := FirstUnexp(Unexp(tagged), AttrOf(Posted(tagged)[i]), tagged).Some?;
      ret := 0;
      DrainStart(s0, tagged, i, minMultiRecvSize);
      n, lens, retired := DrainLoop(tagged, i, more, multi, s0);
      if !retired {
        DrainEnd(s0.unexp, AttrOf(s0.posted[i]), tagged, n);
      }
      if n == 0 {
        DrainNone(s0, Recv(tagged), tagged, i, lens, minMultiRecvSize, retired);
      }
    }

    /** The ofi_mr_verify loop of smr_progress_cmd_rma and
        smr_progress_cmd_atomic: check the target ranges in order, `unit`
        bytes per element, and stop at the first one rejected. */
    method VerifyTargets(d: seq<RmaIov>, unit: nat, op: Op, atomicOp: nat) returns (count: nat, ret: int)
      ensures ret == 0 <==> FirstRejected(d, unit, op, atomicOp).None?
      ensures ret == 0 ==> count == |d|
      ensures ret != 0 ==> count == FirstRejected(d, unit, op, atomicOp).value
      ensures ret != 0 ==> ret == mrVerify(Query(d[count], unit, op, atomicOp))
    {
      count, ret := 0, 0;
      while count < |d|
        invariant count <= |d| && ret == 0
        invariant forall j :: 0 <= j < count ==> mrVerify(Query(d[j], unit, op, atomicOp)) == 0
      {
        ret := mrVerify(Query(d[count], unit, op, atomicOp));
        if ret != 0 {
          break;
        }
        count := count + 1;
      }
    }

    /** The two slots of an RMA or atomic command leave the queue, the first
        with a command credit back to the sender. */
    method DiscardPair(h: Hdr, d: seq<RmaIov>)
      requires QueueValid() && |cmdQueue| >= 2 && cmdQueue[0] == CmdSlot(h) && cmdQueue[1] == RmaSlot(d)
      requires TwoSlot(h.op)
      modifies this`cmdQueue, this`cmdCnt
      ensures QueueValid()
      ensures cmdQueue == old(cmdQueue)[2..] && cmdCnt == old(cmdCnt) + 1
    {
      cmdQueue := cmdQueue[1..];
      cmdCnt := cmdCnt + 1;
      cmdQueue := cmdQueue[1..];
    }

    /** smr_progress_cmd_rma after the receive-CQ check: both slots leave
        the queue; when a target range is rejected, the sender gets its
        second credit and the error comes back with nothing else done (an
        inject buffer the command owns is not released). Otherwise the
        handler moves the data, a read request with a response offset gets
        the negated result in that response slot, any other command its
        second credit, and the completion is written. */
    method RmaBody(h: Hdr, d: seq<RmaIov>) returns (ret: int, x: Xfer)
      requires QueueValid() && |cmdQueue| >= 2 && cmdQueue[0] == CmdSlot(h) && cmdQueue[1] == RmaSlot(d)
      requires h.op == OpWrite || h.op == OpReadReq
      modifies this`cmdQueue, this`cmdCnt, this`injectFree, this`statusWrites, this`rxCq
      ensures QueueValid() && cmdQueue == old(cmdQueue)[2..]
      ensures FirstRejected(d, 1, h.op, 0).Some? ==>
        && ret == mrVerify(Query(d[FirstRejected(d, 1, h.op, 0).value], 1, h.op, 0)) && ret != 0
        && cmdCnt == old(cmdCnt) + 2
        && injectFree == old(injectFree) && statusWrites == old(statusWrites) && rxCq == old(rxCq)
      ensures FirstRejected(d, 1, h.op, 0).None? ==>
        && x == Transferred(h, Covered(d, 1))
        && injectFree == old(injectFree) +
             (if h.opSrc == SrcInject && h.op != OpReadReq then {h.srcData} else {})
        && statusWrites == old(statusWrites) + HandlerWrites(h, x) + ReplyWrite(RmaReplyDue(h), h, x.err)
        && cmdCnt == old(cmdCnt) + (if RmaReplyDue(h) then 1 else 2)
        && (ret == 0 <==> |old(rxCq)| < rxCqSize) && (ret != 0 ==> ret == -FI_EAGAIN)
        && rxCq == old(rxCq) +
             (if ret == 0 then [RxComp(h.msgId, h.op, h.opFlags, x.len, FirstAddr(d), h.addr, 0, h.data, x.err)]
              else [])
    {
      DiscardPair(h, d);
      var count;
      count, ret := VerifyTargets(d, 1, h.op, 0);
      if ret != 0 {
        cmdCnt := cmdCnt + 1;
        x := Xfer(0, 0);
        return;
      }
      ret, x := RmaDeliver(h, d);
    }

    /** smr_progress_cmd_rma once every target range is verified. */
    method RmaDeliver(h: Hdr, d: seq<RmaIov>) returns (ret: int, x: Xfer)
      modifies this`cmdCnt, this`injectFree, this`statusWrites, this`rxCq
      ensures x == Transferred(h, Covered(d, 1))
      ensures injectFree == old(injectFree) +
        (if h.opSrc == SrcInject && h.op != OpReadReq then {h.srcData} else {})
      ensures statusWrites == old(statusWrites) + HandlerWrites(h, x) + ReplyWrite(RmaReplyDue(h), h, x.err)
      ensures cmdCnt == old(cmdCnt) + (if RmaReplyDue(h) then 0 else 1)
      ensures ret == 0 <==> |old(rxCq)| < rxCqSize
      ensures ret != 0 ==> ret == -FI_EAGAIN
      ensures rxCq == old(rxCq) +
        (if ret == 0 then [RxComp(h.msgId, h.op, h.opFlags, x.len, FirstAddr(d), h.addr, 0, h.data, x.err)]
         else [])
    {
      x := RunHandler(h, Covered(d, 1));
      if RmaReplyDue(h) {
        statusWrites := statusWrites + ReplyWrite(true, h, x.err);
      } else {
        cmdCnt := cmdCnt + 1;
      }
      ret := CompleteRx(RxComp(h.msgId, h.op, h.opFlags, x.len, FirstAddr(d), h.addr, 0, h.data, x.err));
    }

    /** What smr_progress_cmd_rma did with the command `h` at the head of
        the queue and its descriptors `d`, returning `ret` after moving `x`:
        a command asking for remote CQ data while the receive CQ is full is
        left at the head with nothing changed and -FI_ENOSPC; otherwise both
        slots are consumed, and either a target range is rejected (its
        error comes back with the second credit and nothing else done) or
        the handler moves the data, a read request with a response offset
        gets the result in that response slot and any other command its
        second credit, and the completion is written when the CQ has room. */
    twostate predicate RmaDone(h: Hdr, d: seq<RmaIov>, ret: int, x: Xfer)
      reads this
    {
      && (RemoteCqData in h.opFlags && |old(rxCq)| >= rxCqSize ==> ret == -FI_ENOSPC && unchanged(this))
      && (!(RemoteCqData in h.opFlags && |old(rxCq)| >= rxCqSize) ==>
        && |old(cmdQueue)| >= 2 && cmdQueue == old(cmdQueue)[2..]
        && (FirstRejected(d, 1, h.op, 0).Some? ==>
              && ret == mrVerify(Query(d[FirstRejected(d, 1, h.op, 0).value], 1, h.op, 0)) && ret != 0
              && cmdCnt == old(cmdCnt) + 2
              && injectFree == old(injectFree) && statusWrites == old(statusWrites) && rxCq == old(rxCq))
        && (FirstRejected(d, 1, h.op, 0).None? ==>
              && x == Transferred(h, Covered(d, 1))
              && injectFree == old(injectFree) +
                   (if h.opSrc == SrcInject && h.op != OpReadReq then {h.srcData} else {})
              && statusWrites == old(statusWrites) + HandlerWrites(h, x) + ReplyWrite(RmaReplyDue(h), h, x.err)
              && cmdCnt == old(cmdCnt) + (if RmaReplyDue(h) then 1 else 2)
              && (ret == 0 <==> |old(rxCq)| < rxCqSize) && (ret != 0 ==> ret == -FI_EAGAIN)
              && rxCq == old(rxCq) +
                   (if ret == 0 then [RxComp(h.msgId, h.op, h.opFlags, x.len, FirstAddr(d), h.addr, 0, h.data, x.err)]
                    else [])))
    }

    /** smr_progress_cmd_rma: an RMA write or read request at the head of
        the queue, followed by its descriptor slot. A command that asks for
        remote CQ data while the receive CQ is full stays at the head. */
    method CmdRma(h: Hdr, d: seq<RmaIov>) returns (ret: int, x: Xfer)
      requires QueueValid() && |cmdQueue| >= 2 && cmdQueue[0] == CmdSlot(h) && cmdQueue[1] == RmaSlot(d)
      requires h.op == OpWrite || h.op == OpReadReq
      modifies this`cmdQueue, this`cmdCnt, this`injectFree, this`statusWrites, this`rxCq
      ensures QueueValid() && RmaDone(h, d, ret, x) && ListsKept()
    {
      if RemoteCqData in h.opFlags && |rxCq| >= rxCqSize {
        return -FI_ENOSPC, Xfer(0, 0);
      }
      ret, x := RmaBody(h, d);
    }

    /** smr_progress_inject_atomic: the descriptor walk over the operands in
        the inject buffer at h.srcData. The buffer goes back to the pool
        unless the initiator asked for a result (SMR_RMA_REQ), which it
        reads back from the same buffer. */
    method InjectAtomic(h: Hdr, d: seq<RmaIov>, unit: nat, err: int)
      returns (len: nat, err': int, apps: seq<AtomicApp>)
      modifies this`injectFree
      ensures err != 0 ==> len == 0 && err' == err && apps == []
      ensures err == 0 ==> Walked(d, h.size, unit, |apps|, len)
      ensures err == 0 ==> Applied(apps, d, unit, h.atomicOp, h.opFlags, h.op == OpAtomicCompare)
      ensures err == 0 ==> err' == (if len != h.size then -FI_EIO else 0)
      ensures injectFree == old(injectFree) + (if RmaReq in h.opFlags then {} else {h.srcData})
    {
      len, err', apps := 0, err, [];
      if err == 0 {
        len, apps := WalkAtomics(d, h.size, unit, h.atomicOp, h.opFlags, h.op == OpAtomicCompare);
        if len != h.size {
          err' := -FI_EIO;
        }
      }
      if RmaReq !in h.opFlags {
        injectFree := injectFree + {h.srcData};
      }
    }

    /** The handler switch of smr_progress_cmd_atomic: only inline and inject
        operands are accepted. */
    method RunAtomic(h: Hdr, d: seq<RmaIov>) returns (len: nat, err: int, apps: seq<AtomicApp>)
      modifies this`injectFree, this`atomicLog
      ensures DataInCommand(h) ==>
        && Walked(d, h.size, datatypeSize(h.dtype), |apps|, len)
        && Applied(apps, d, datatypeSize(h.dtype), h.atomicOp, h.opFlags, h.op == OpAtomicCompare)
        && err == (if len != h.size then -FI_EIO else 0)
      ensures !DataInCommand(h) ==> len == 0 && err == -FI_EINVAL && apps == []
      ensures atomicLog == old(atomicLog) + apps
      ensures injectFree == old(injectFree) +
        (if h.opSrc == SrcInject && RmaReq !in h.opFlags then {h.srcData} else {})
    {
      var unit := datatypeSize(h.dtype);
      if h.opSrc == SrcInline {
        len, err, apps := InlineAtomic(h, d, unit);
      } else if h.opSrc == SrcInject {
        len, err, apps := InjectAtomic(h, d, unit, 0);
      } else {
        len, err, apps := 0, -FI_EINVAL, [];
      }
      atomicLog := atomicLog + apps;
    }

    /** What smr_progress_cmd_atomic did with the command `h` at the head
        of the queue and its descriptors `d`, returning `ret` after the
        handler walked `len` bytes with result `err` and applied `apps`:
        both slots are consumed; a rejected target range returns its error
        with the second credit and nothing else done; otherwise the handler
        runs for inline and inject operands (any other source is -FI_EINVAL),
        a command with a response offset gets the result in that response
        slot and any other command its second credit, and the completion is
        written, its failure taking precedence over the handler's error. */
    twostate predicate AtomicDone(h: Hdr, d: seq<RmaIov>, ret: int, len: nat, err: int, apps: seq<AtomicApp>)
      reads this
    {
      && |old(cmdQueue)| >= 2 && cmdQueue == old(cmdQueue)[2..]
      && (FirstRejected(d, datatypeSize(h.dtype), h.op, h.atomicOp).Some? ==>
        && ret == mrVerify(Query(d[FirstRejected(d, datatypeSize(h.dtype), h.op, h.atomicOp).value],
                                 datatypeSize(h.dtype), h.op, h.atomicOp))
        && ret != 0 && cmdCnt == old(cmdCnt) + 2
        && injectFree == old(injectFree) && statusWrites == old(statusWrites)
        && rxCq == old(rxCq) && atomicLog == old(atomicLog))
      && (FirstRejected(d, datatypeSize(h.dtype), h.op, h.atomicOp).None? ==>
        && (DataInCommand(h) ==>
              && Walked(d, h.size, datatypeSize(h.dtype), |apps|, len)
              && Applied(apps, d, datatypeSize(h.dtype), h.atomicOp, h.opFlags, h.op == OpAtomicCompare)
              && err == (if len != h.size then -FI_EIO else 0))
        && (!DataInCommand(h) ==> len == 0 && err == -FI_EINVAL && apps == [])
        && atomicLog == old(atomicLog) + apps
        && injectFree == old(injectFree) +
             (if h.opSrc == SrcInject && RmaReq !in h.opFlags then {h.srcData} else {})
        && statusWrites == old(statusWrites) + ReplyWrite(h.data != 0, h, err)
        && cmdCnt == old(cmdCnt) + (if h.data != 0 then 1 else 2)
        && ret == (if |old(rxCq)| < rxCqSize then err else -FI_EAGAIN)
        && rxCq == old(rxCq) +
             (if |old(rxCq)| < rxCqSize then [RxComp(0, h.op, h.opFlags, len, FirstAddr(d), h.addr, 0, h.data, err)]
              else []))
    }

    /** smr_progress_cmd_atomic: an atomic, fetch-atomic or compare-atomic
        command at the head of the queue, followed by its descriptor slot.
        Both slots leave the queue; a rejected target range returns its
        error with the sender's second credit. Otherwise the handler runs
        smr_do_atomic on each range, a command with a response offset gets
        the negated result in that response slot, any other command its
        second credit, and the completion is written; the completion's
        failure takes precedence over the handler's error. */
    method CmdAtomic(h: Hdr, d: seq<RmaIov>)
      returns (ret: int, len: nat, err: int, apps: seq<AtomicApp>)
      requires QueueValid() && |cmdQueue| >= 2 && cmdQueue[0] == CmdSlot(h) && cmdQueue[1] == RmaSlot(d)
      requires h.op == OpAtomic || h.op == OpAtomicFetch || h.op == OpAtomicCompare
      modifies this`cmdQueue, this`cmdCnt, this`injectFree, this`statusWrites, this`rxCq, this`atomicLog
      ensures QueueValid() && AtomicDone(h, d, ret, len, err, apps) && ListsKept()
    {
      DiscardPair(h, d);
      var count;
      count, ret := VerifyTargets(d, datatypeSize(h.dtype), h.op, h.atomicOp);
      if ret != 0 {
        cmdCnt := cmdCnt + 1;
        len, err, apps := 0, 0, [];
        return;
      }
      ret, len, err, apps := AtomicDeliver(h, d);
    }

    /** smr_progress_cmd_atomic once every target range is verified. */
    method AtomicDeliver(h: Hdr, d: seq<RmaIov>) returns (ret: int, len: nat, err: int, apps: seq<AtomicApp>)
      modifies this`cmdCnt, this`injectFree, this`statusWrites, this`rxCq, this`atomicLog
      ensures DataInCommand(h) ==>
        && Walked(d, h.size, datatypeSize(h.dtype), |apps|, len)
        && Applied(apps, d, datatypeSize(h.dtype), h.atomicOp, h.opFlags, h.op == OpAtomicCompare)
        && err == (if len != h.size then -FI_EIO else 0)
      ensures !DataInCommand(h) ==> len == 0 && err == -FI_EINVAL && apps == []
      ensures atomicLog == old(atomicLog) + apps
      ensures injectFree == old(injectFree) +
        (if h.opSrc == SrcInject && RmaReq !in h.opFlags then {h.srcData} else {})
      ensures statusWrites == old(statusWrites) + ReplyWrite(h.data != 0, h, err)
      ensures cmdCnt == old(cmdCnt) + (if h.data != 0 then 0 else 1)
      ensures ret == (if |old(rxCq)| < rxCqSize then err else -FI_EAGAIN)
      ensures rxCq == old(rxCq) +
        (if |old(rxCq)| < rxCqSize then [RxComp(0, h.op, h.opFlags, len, FirstAddr(d), h.addr, 0, h.data, err)]
         else [])
    {
      len, err, apps := RunAtomic(h, d);
      if h.data != 0 {
        statusWrites := statusWrites + ReplyWrite(true, h, err);
      } else {
        cmdCnt := cmdCnt + 1;
      }
      ret := CompleteRx(RxComp(0, h.op, h.opFlags, len, FirstAddr(d), h.addr, 0, h.data, err));
      if ret == 0 {
        ret := err;
      }
    }

    /** What one round of smr_progress_cmd did to the queue: `n` head slots
        were consumed, each
        raising its async-completion notice on the receive counter, and at
        most one command credit per consumed slot went back to the senders. */
    twostate predicate Consumed(n: nat)
      reads this`cmdQueue, this`rxCntr, this`cmdCnt
    {
      && n <= |old(cmdQueue)| && cmdQueue == old(cmdQueue)[n..]
      && rxCntr == old(rxCntr) + Notices(old(cmdQueue)[..n])
      && old(cmdCnt) <= cmdCnt <= old(cmdCnt) + n
    }

    /** The receive lists, the unexpected lists and their free pools are
        as they were. */
    twostate predicate ListsKept()
      reads this
    {
      unchanged(this`recvQueue, this`trecvQueue, this`recvFree, this`unexpMsgQueue, this`unexpTaggedQueue, this`unexpFree)
    }

    /** What one round of the dispatch switch of smr_progress_cmd did with
        the command `h` at the head of the queue, by its op: a message went
        to smr_progress_cmd_msg, an RMA write or read request to
        smr_progress_cmd_rma and an atomic to smr_progress_cmd_atomic (the
        last two with the descriptor slot behind the command), each with the
        effect its arm predicate states; a write-async
        or read-async notice bumped the receive counter and was consumed
        with its credit; an unknown op returned -FI_EINVAL and changed
        nothing. */
    twostate predicate Routed(h: Hdr, r: Dispatch, ret: int)
      reads this
    {
      && (h.op == OpMsg || h.op == OpTagged ==> MsgRouted(h, r, ret))
      && (h.op == OpWrite || h.op == OpReadReq ==> RmaRouted(h, r, ret))
      && (h.op == OpWriteAsync || h.op == OpReadAsync ==> AsyncRouted(h, r, ret))
      && (h.op == OpAtomic || h.op == OpAtomicFetch || h.op == OpAtomicCompare ==> AtomicRouted(h, r, ret))
      && (h.op.OpUnknown? ==> r.UnknownOp? && ret == -FI_EINVAL && unchanged(this))
    }

    /** The message arm of Routed. */
    twostate predicate MsgRouted(h: Hdr, r: Dispatch, ret: int)
      reads this
    {
      r.MsgRan? && MsgDone(h, ret, r.out) && unchanged(this`atomicLog)
    }

    /** The RMA arm of Routed. */
    twostate predicate RmaRouted(h: Hdr, r: Dispatch, ret: int)
      reads this
    {
      && r.RmaRan? && |old(cmdQueue)| >= 2 && old(cmdQueue)[1] == RmaSlot(r.d)
      && RmaDone(h, r.d, ret, r.x) && ListsKept() && unchanged(this`atomicLog)
    }

    /** The async arm of Routed. */
    twostate predicate AsyncRouted(h: Hdr, r: Dispatch, ret: int)
      reads this
    {
      && r.AsyncRan? && ret == 0 && |old(cmdQueue)| >= 1 && cmdQueue == old(cmdQueue)[1..]
      && cmdCnt == old(cmdCnt) + 1 && rxCntr == old(rxCntr) + [h.op]
      && ListsKept() && unchanged(this`injectFree, this`statusWrites, this`rxCq, this`atomicLog)
    }

    /** The atomic arm of Routed. */
    twostate predicate AtomicRouted(h: Hdr, r: Dispatch, ret: int)
      reads this
    {
      && r.AtomicRan? && |old(cmdQueue)| >= 2 && old(cmdQueue)[1] == RmaSlot(r.d)
      && AtomicDone(h, r.d, ret, r.len, r.err, r.apps) && ListsKept()
    }

    /** The message branch of the dispatch switch: smr_progress_cmd_msg on
        the head command, with the effect the message arm of Routed states. */
    method MsgArm(h: Hdr) returns (ret: int, ghost r: Dispatch, ghost n: nat)
      requires MsgValid() && cmdQueue != [] && cmdQueue[0] == CmdSlot(h)
      requires h.op == OpMsg || h.op == OpTagged
      modifies this`cmdQueue, this`unexpMsgQueue, this`unexpTaggedQueue, this`unexpFree,
               this`recvQueue, this`trecvQueue, this`recvFree, this`cmdCnt, this`injectFree,
               this`statusWrites, this`rxCq
      ensures MsgValid() && MsgRouted(h, r, ret)
      ensures Consumed(n) && Fits(old(cmdQueue), Round(n, ret))
    {
      ghost var out;
      ret, out := CmdMsg(h);
      r := MsgRan(out);
      n := if out.Retry? then 0 else 1;
      NoticesQuiet(old(cmdQueue), n);
    }

    /** The message branch, as Routed records it for a message op. */
    method HeadMsg(h: Hdr) returns (ret: int, ghost r: Dispatch, ghost n: nat)
      requires MsgValid() && cmdQueue != [] && cmdQueue[0] == CmdSlot(h)
      requires h.op == OpMsg || h.op == OpTagged
      modifies this`cmdQueue, this`unexpMsgQueue, this`unexpTaggedQueue, this`unexpFree,
               this`recvQueue, this`trecvQueue, this`recvFree, this`cmdCnt, this`injectFree,
               this`statusWrites, this`rxCq
      ensures MsgValid() && Routed(h, r, ret)
      ensures Consumed(n) && Fits(old(cmdQueue), Round(n, ret))
    {
      ret, r, n := MsgArm(h);
    }

    /** The RMA branch of the dispatch switch: smr_progress_cmd_rma on the
        head command and its descriptor slot, unless the CQ check for remote
        CQ data sends it back, with the effect the RMA arm of Routed
        states. */
    method RmaArm(h: Hdr) returns (ret: int, ghost r: Dispatch, ghost n: nat)
      requires QueueValid() && cmdQueue != [] && cmdQueue[0] == CmdSlot(h)
      requires h.op == OpWrite || h.op == OpReadReq
      modifies this`cmdQueue, this`cmdCnt, this`injectFree, this`statusWrites, this`rxCq
      ensures QueueValid() && RmaRouted(h, r, ret)
      ensures Consumed(n) && Fits(old(cmdQueue), Round(n, ret))
    {
      n := if RemoteCqData in h.opFlags && |rxCq| >= rxCqSize then 0 else 2;
      var d, x := cmdQueue[1].rma, Xfer(0, 0);
      ret, x := CmdRma(h, d);
      r := RmaRan(d, x);
      NoticesQuiet(old(cmdQueue), n);
    }

    /** The RMA branch, as Routed records it for an RMA op. */
    method HeadRma(h: Hdr) returns (ret: int, ghost r: Dispatch, ghost n: nat)
      requires QueueValid() && cmdQueue != [] && cmdQueue[0] == CmdSlot(h)
      requires h.op == OpWrite || h.op == OpReadReq
      modifies this`cmdQueue, this`cmdCnt, this`injectFree, this`statusWrites, this`rxCq
      ensures QueueValid() && Routed(h, r, ret)
      ensures Consumed(n) && Fits(old(cmdQueue), Round(n, ret))
    {
      ret, r, n := RmaArm(h);
    }

    /** The atomic branch of the dispatch switch: smr_progress_cmd_atomic on
        the head command and its descriptor slot, with the effect the atomic
        arm of Routed states. */
    method AtomicArm(h: Hdr) returns (ret: int, ghost r: Dispatch)
      requires QueueValid() && cmdQueue != [] && cmdQueue[0] == CmdSlot(h)
      requires h.op == OpAtomic || h.op == OpAtomicFetch || h.op == OpAtomicCompare
      modifies this`cmdQueue, this`cmdCnt, this`injectFree, this`statusWrites, this`rxCq, this`atomicLog
      ensures QueueValid() && AtomicRouted(h, r, ret)
      ensures Consumed(2) && Fits(old(cmdQueue), Round(2, ret))
    {
      var d, len, err, apps := cmdQueue[1].rma, 0, 0, [];
      ret, len, err, apps := CmdAtomic(h, d);
      r := AtomicRan(d, len, err, apps);
      NoticesQuiet(old(cmdQueue), 2);
    }

    /** The atomic branch, as Routed records it for an atomic op. */
    method HeadAtomic(h: Hdr) returns (ret: int, ghost r: Dispatch)
      requires QueueValid() && cmdQueue != [] && cmdQueue[0] == CmdSlot(h)
      requires h.op == OpAtomic || h.op == OpAtomicFetch || h.op == OpAtomicCompare
      modifies this`cmdQueue, this`cmdCnt, this`injectFree, this`statusWrites, this`rxCq, this`atomicLog
      ensures QueueValid() && Routed(h, r, ret)
      ensures Consumed(2) && Fits(old(cmdQueue), Round(2, ret))
    {
      ret, r := AtomicArm(h);
    }

    /** The write-async and read-async branch of the dispatch switch: the
        receive counter is bumped and the command consumed with its credit. */
    method HeadAsync(h: Hdr)
      requires QueueValid() && cmdQueue != [] && cmdQueue[0] == CmdSlot(h)
      requires h.op == OpWriteAsync || h.op == OpReadAsync
      modifies this`cmdQueue, this`cmdCnt, this`rxCntr
      ensures QueueValid() && Routed(h, AsyncRan, 0)
      ensures Consumed(1) && Fits(old(cmdQueue), Round(1, 0))
    {
      rxCntr := rxCntr + [h.op];
      cmdQueue := cmdQueue[1..];
      cmdCnt := cmdCnt + 1;
      assert old(cmdQueue)[..1][..0] == [];
    }

    /** One round of the dispatch switch of smr_progress_cmd on the command
        at the head of the queue, routed by its op; `r` records which
        handler ran and what it reported. */
    method ProgressHead() returns (ret: int, ghost r: Dispatch, ghost n: nat)
      requires MsgValid() && cmdQueue != []
      modifies this`cmdQueue, this`unexpMsgQueue, this`unexpTaggedQueue, this`unexpFree,
               this`recvQueue, this`trecvQueue, this`recvFree, this`cmdCnt, this`injectFree,
               this`statusWrites, this`rxCq, this`rxCntr, this`atomicLog
      ensures MsgValid() && Consumed(n) && Fits(old(cmdQueue), Round(n, ret))
      ensures Routed(old(cmdQueue)[0].hdr, r, ret)
    {
      var h := cmdQueue[0].hdr;
      match h.op {
        case OpMsg | OpTagged =>
          ret, r, n := HeadMsg(h);
        case OpWrite | OpReadReq =>
          ret, r, n := HeadRma(h);
        case OpWriteAsync | OpReadAsync =>
          HeadAsync(h);
          ret, r, n := 0, AsyncRan, 1;
        case OpAtomic | OpAtomicFetch | OpAtomicCompare =>
          ret, r := HeadAtomic(h);
          n := 2;
        case OpUnknown(_) =>
          ret, r, n := -FI_EINVAL, UnknownOp, 0;
      }
    }

    /** The commands consumed so far from the queue `q0` that was there when
        smr_progress_cmd started: what is left is a suffix of `q0`, the
        receive counter (from `rx0`) got the async notices of the consumed
        prefix, and the command credits (from `cc0`) grew by at most one per
        consumed slot. */
    ghost predicate Drained(q0: seq<Slot>, rx0: seq<Op>, cc0: int)
      reads this`cmdQueue, this`rxCntr, this`cmdCnt
    {
      DrainedFrom(q0, rx0, cc0, cmdQueue, rxCntr, cmdCnt)
    }

    /** One iteration of the loop of smr_progress_cmd: the dispatch switch
        ran on the head command, consumed `n` slots as its op allows, and
        the account of what has been consumed is kept. */
    method ProgressStep(ghost q0: seq<Slot>, ghost rx0: seq<Op>, ghost cc0: int, ghost rs: seq<Round>)
      returns (ret: int, ghost n: nat)
      requires MsgValid() && cmdQueue != [] && Drained(q0, rx0, cc0)
      requires AllFit(q0, rs) && Spent(rs) == |q0| - |cmdQueue|
      modifies this`cmdQueue, this`unexpMsgQueue, this`unexpTaggedQueue, this`unexpFree,
               this`recvQueue, this`trecvQueue, this`recvFree, this`cmdCnt, this`injectFree,
               this`statusWrites, this`rxCq, this`rxCntr, this`atomicLog
      ensures MsgValid() && Drained(q0, rx0, cc0)
      ensures Fits(old(cmdQueue), Round(n, ret)) && cmdQueue == old(cmdQueue)[n..]
      ensures AllFit(q0, rs + [Round(n, ret)]) && Spent(rs + [Round(n, ret)]) == |q0| - |cmdQueue|
    {
      ghost var q, rx, cc, r := cmdQueue, rxCntr, cmdCnt, UnknownOp;
      ret, r, n := ProgressHead();
      DrainMore(q0, rx0, cc0, q, rx, cc, n, cmdQueue, rxCntr, cmdCnt);
      AllFitMore(q0, rs, Round(n, ret));
      SpentMore(rs, Round(n, ret));
    }

    /** smr_progress_cmd: dispatch commands from the head of the queue until
        it is empty or a round returns nonzero; `ret` is the result that
        stopped the loop. `rounds` are the rounds in order: every round
        before the last returned 0, `ret` is what the last one returned,
        and together they consumed exactly the slots that are gone. Every
        consumed slot is accounted for: the receive counter got the async
        notices among them, and the senders got back at most one credit
        per slot. */
    method ProgressCmd() returns (ret: int, ghost rounds: seq<Round>)
      requires MsgValid()
      modifies this`cmdQueue, this`unexpMsgQueue, this`unexpTaggedQueue, this`unexpFree,
               this`recvQueue, this`trecvQueue, this`recvFree, this`cmdCnt, this`injectFree,
               this`statusWrites, this`rxCq, this`rxCntr, this`atomicLog
      ensures MsgValid() && Drained(old(cmdQueue), old(rxCntr), old(cmdCnt))
      ensures Spent(rounds) == |old(cmdQueue)| - |cmdQueue| && StopsAtFailure(rounds, ret)
      ensures AllFit(old(cmdQueue), rounds)
      ensures ret == 0 ==> cmdQueue == []
    {
      ret, rounds := 0, [];
      while cmdQueue != []
        invariant MsgValid() && Drained(old(cmdQueue), old(rxCntr), old(cmdCnt))
        invariant Spent(rounds) == |old(cmdQueue)| - |cmdQueue|
        invariant ret == 0 && forall j :: 0 <= j < |rounds| ==> rounds[j].ret == 0
        invariant AllFit(old(cmdQueue), rounds)
        decreases |cmdQueue|
      {
        ghost var n;
        ret, n := ProgressStep(old(cmdQueue), old(rxCntr), old(cmdCnt), rounds);
        rounds := rounds + [Round(n, ret)];
        if ret != 0 {
          break;
        }
      }
    }

    /** smr_progress_resp_entry: settle the pending send `id` whose response
        carries `status`. When the peer's region lock is held elsewhere
        (`locked`, the outcome of the try-lock), nothing happens and
        -FI_EAGAIN comes back. Otherwise the status is settled as
        RespStatus says, a send through an mmapped file has the file
        unlinked, an inject send's buffer goes back to the peer's inject
        pool, and the peer gets its command credit back. */
    method RespEntry(id: nat, status: int, locked: set<nat>) returns (ret: int, s: int)
      requires id in pend && pend[id].addr in peers
      modifies this`peers, this`mapNames
      ensures pend[id].addr in locked ==>
        ret == -FI_EAGAIN && s == status && peers == old(peers) && mapNames == old(mapNames)
      ensures pend[id].addr !in locked ==> ret == 0 && s == RespStatus(pend[id], status)
      ensures pend[id].addr !in locked ==>
        peers == old(peers)[pend[id].addr := PeerAfterResp(old(peers)[pend[id].addr], pend[id])]
      ensures pend[id].addr !in locked ==>
        mapNames == old(mapNames) - (if pend[id].hdr.opSrc == SrcMmap then {id} else {})
    {
      var p := pend[id];
      if p.addr in locked {
        return -FI_EAGAIN, status;
      }
      s := status;
      var peer := peers[p.addr];
      match p.hdr.opSrc {
        case SrcMmap =>
          if p.hdr.op == OpReadReq && s == 0 && CopyLen(p.hdr.size, p.iovCap) != p.hdr.size {
            s := -FI_EIO;
          }
          mapNames := mapNames - {id};
        case SrcInject =>
          if s == 0 && CopyLen(p.hdr.size, p.iovCap) != p.hdr.size {
            s := FI_EIO;
          }
          peer := peer.(injectFree := peer.injectFree + {p.hdr.srcData});
        case _ =>
      }
      peers := peers[p.addr := peer.(cmdCnt := peer.cmdCnt + 1)];
      ret := 0;
    }

    /** The response-side state. */
    ghost function RespSide(): RespState
      reads this`respQueue, this`peers, this`txCq, this`pendFree, this`mapNames
    {
      RespState(respQueue, peers, txCq, pendFree, mapNames)
    }

    /** One round of smr_progress_resp: handle the head response unless it
        is still FI_EBUSY or its peer's lock is taken. */
    method RespStep(locked: set<nat>) returns (handled: bool)
      requires RespValid() && respQueue != [] && |txCq| < txCqSize
      modifies this`respQueue, this`peers, this`mapNames, this`txCq, this`pendFree
      ensures RespValid()
      ensures handled <==> Passes(old(respQueue)[0], pend, locked)
      ensures RespSide() == if handled then HandleHead(old(RespSide()), pend) else old(RespSide())
    {
      var r := respQueue[0];
      if r.status == FI_EBUSY {
        return false;
      }
      var p := pend[r.msgId];
      var ret, status := RespEntry(r.msgId, r.status, locked);
      if ret != 0 {
        return false;
      }
      ret := CompleteTx(TxComp(p.context, p.hdr.op, p.hdr.opFlags, -status));
      assert ret == 0;
      pendFree := pendFree + {r.msgId};
      respQueue := respQueue[1..];
      RespOkStep(old(peers), peers, pend, old(respQueue), old(pendFree));
      handled := true;
    }

    /** The first `k` responses of the run that started in `s0` were
        handled, each because it was no longer FI_EBUSY and its peer's lock
        could be taken, and the invariant still holds. */
    ghost predicate RespRan(s0: RespState, k: nat, locked: set<nat>)
      reads this`respQueue, this`peers, this`mapNames, this`txCq, this`pendFree, this`pend
    {
      && RespValid()
      && k <= |s0.q| && Known(s0.peers, pend, s0.q)
      && RespSide() == Handled(pend, s0, k)
      && forall j :: 0 <= j < k ==> Passes(s0.q[j], pend, locked)
    }

    /** RespStep on the (k+1)-th response of the run that started in `s0`. */
    method RespRound(locked: set<nat>, ghost s0: RespState, ghost k: nat) returns (handled: bool)
      requires RespRan(s0, k, locked) && respQueue != [] && |txCq| < txCqSize
      modifies this`respQueue, this`peers, this`mapNames, this`txCq, this`pendFree
      ensures k < |s0.q| && (handled <==> Passes(s0.q[k], pend, locked))
      ensures RespRan(s0, if handled then k + 1 else k, locked)
    {
      assert respQueue[0] == s0.q[k];
      HandledNext(pend, s0, k);
      handled := RespStep(locked);
      if handled {
        PassesSnoc(s0.q, pend, locked, k);
      }
    }

    /** smr_progress_resp: handle the responses at the head of the response
        queue, in order, while the transmit CQ has room. It stops at a
        response still marked FI_EBUSY and at one whose peer's lock is taken;
        that response stays queued. `k` responses were handled. */
    method ProgressResp(locked: set<nat>) returns (ghost k: nat)
      requires RespValid()
      modifies this`respQueue, this`peers, this`mapNames, this`txCq, this`pendFree
      ensures RespRan(old(RespSide()), k, locked)
      ensures k < |old(respQueue)| ==>
        |old(txCq)| + k >= txCqSize || !Passes(old(respQueue)[k], old(pend), locked)
      ensures old(MsgValid()) ==> MsgValid()
      ensures cmdQueue == old(cmdQueue) && rxCntr == old(rxCntr) && cmdCnt == old(cmdCnt)
    {
      ghost var s0 := RespSide();
      k := 0;
      HandledNone(pend, s0);
      while respQueue != [] && |txCq| < txCqSize
        invariant RespRan(s0, k, locked)
        decreases |respQueue|
      {
        var handled := RespRound(locked, s0, k);
        if !handled {
          break;
        }
        k := k + 1;
      }
    }

    /** smr_ep_progress: first the responses to this endpoint's own sends,
        then the incoming commands. `k` responses were handled and `ret` is
        what smr_progress_cmd returned, which smr_ep_progress drops. */
    method EpProgress(locked: set<nat>) returns (ret: int, ghost k: nat, ghost rounds: seq<Round>)
      requires Valid()
      modifies this`respQueue, this`peers, this`mapNames, this`txCq, this`pendFree,
               this`cmdQueue, this`unexpMsgQueue, this`unexpTaggedQueue, this`unexpFree,
               this`recvQueue, this`trecvQueue, this`recvFree, this`cmdCnt, this`injectFree,
               this`statusWrites, this`rxCq, this`rxCntr, this`atomicLog
      ensures Valid() && RespRan(old(RespSide()), k, locked)
      ensures k < |old(respQueue)| ==>
        |old(txCq)| + k >= txCqSize || !Passes(old(respQueue)[k], old(pend), locked)
      ensures Drained(old(cmdQueue), old(rxCntr), old(cmdCnt))
      ensures Spent(rounds) == |old(cmdQueue)| - |cmdQueue| && StopsAtFailure(rounds, ret)
      ensures AllFit(old(cmdQueue), rounds)
      ensures ret == 0 ==> cmdQueue == []
    {
      k := ProgressResp(locked);
      label resp:
      ret, rounds := ProgressCmd();
      assert unchanged@resp(this`respQueue, this`peers, this`txCq, this`pendFree, this`mapNames, this`pend);
    }
  }
}
