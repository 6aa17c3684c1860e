/** Wire and bookkeeping types of the shared-memory progress engine:
    command-queue slots and their headers, posted receives, unexpected
    messages, responses, pending sends and completion records. */
module Types {

  // Error numbers of fi_errno.h; libfabric gives them the POSIX errno values.
  const FI_SUCCESS: int := 0
  const FI_EIO: int := 5
  const FI_EAGAIN: int := 11
  const FI_EBUSY: int := 16
  const FI_EINVAL: int := 22
  const FI_ENOSPC: int := 28

  /** size_t and uintptr_t arithmetic wraps modulo 2^64. */
  const WORD: nat := 0x1_0000_0000_0000_0000
  /** FI_ADDR_UNSPEC, that is (fi_addr_t) -1: the wildcard source address. */
  const ADDR_UNSPEC: nat := 0xFFFF_FFFF_FFFF_FFFF

  /** A POSIX errno value, always positive. */
  type Errno = e: int | e > 0 witness 1

  /** cmd->msg.hdr.op; `OpUnknown` stands for every value the dispatch switch does not name. */
  datatype Op =
    | OpMsg | OpTagged
    | OpWrite | OpReadReq
    | OpWriteAsync | OpReadAsync
    | OpAtomic | OpAtomicFetch | OpAtomicCompare
    | OpUnknown(code: nat)

  /** cmd->msg.hdr.op_src: the transfer method. */
  datatype Src = SrcInline | SrcInject | SrcIov | SrcMmap | SrcUnknown(code: nat)

  /** The bits of op_flags and of a receive entry's flags that the engine
      inspects; any other flag is named by its bit position. */
  datatype Flag = RemoteCqData | RmaReq | MultiRecv | OtherFlag(bit: nat)

  /** The command header (struct smr_msg_hdr). */
  datatype Hdr = Hdr(
    op: Op, opSrc: Src, opFlags: set<Flag>,
    size: nat,       // payload size in bytes
    addr: nat,       // peer id of the sender
    tag: bv64,
    data: nat,       // immediate data; for RMA/atomics also the offset of the peer's response slot
    srcData: nat,    // inject-buffer offset, or the response offset for direct copy
    msgId: nat,
    dtype: nat,      // enum fi_datatype
    atomicOp: nat)   // enum fi_op

  /** One target range of an RMA or atomic descriptor. The rma_iov and rma_ioc
      views of the slot share this layout: `len` is a byte length for RMA and
      an element count for atomics. */
  datatype RmaIov = RmaIov(addr: nat, len: nat, key: nat)

  /** A command-queue slot: a command, or the descriptor slot that follows an
      RMA or atomic command. */
  datatype Slot = CmdSlot(hdr: Hdr) | RmaSlot(rma: seq<RmaIov>)

  datatype Iov = Iov(base: nat, len: nat)

  /** A posted receive (struct smr_rx_entry); `slot` is its index in recv_fs. */
  datatype RxEntry = RxEntry(
    slot: nat, context: nat,
    addr: nat, tag: bv64, ignore: bv64,
    flags: set<Flag>,
    iov: seq<Iov>)

  /** An unexpected message (struct smr_unexp_msg); `slot` is its index in unexp_fs. */
  datatype UnexpMsg = UnexpMsg(slot: nat, cmd: Hdr)

  /** A response slot in the local region, written by the peer that served the operation. */
  datatype Resp = Resp(msgId: nat, status: int)

  /** A pending send (struct smr_tx_entry), found through a response's msg_id. */
  datatype TxEntry = TxEntry(addr: nat, hdr: Hdr, iovCap: nat, context: nat)

  /** The parts of a peer's region that the response side updates. */
  datatype PeerRegion = PeerRegion(cmdCnt: int, injectFree: set<nat>)

  /** A status stored into a peer's response slot (resp->status = ...). */
  datatype StatusWrite = StatusWrite(peer: nat, offset: nat, status: int)

  /** Arguments of smr_complete_rx. */
  datatype RxComp = RxComp(
    context: nat, op: Op, flags: set<Flag>, len: nat, buf: nat,
    addr: nat, tag: bv64, data: nat, err: int)

  /** Arguments of smr_complete_tx. */
  datatype TxComp = TxComp(context: nat, op: Op, flags: set<Flag>, err: int)

  /** Bytes moved by a transfer handler and the error it reports. */
  datatype Xfer = Xfer(len: nat, err: int)

  datatype Option<T> = None | Some(value: T)

  /** RMA and atomic commands occupy two queue slots: the command and its descriptor. */
  predicate TwoSlot(op: Op) {
    op.OpWrite? || op.OpReadReq? || op.OpAtomic? || op.OpAtomicFetch? || op.OpAtomicCompare?
  }

  /** Operations whose command carries a payload (and so may own an inject buffer). */
  predicate CarriesPayload(op: Op) {
    op.OpMsg? || op.OpTagged? || TwoSlot(op)
  }

  /** The command queue is a sequence of whole commands: every RMA or atomic
      command is immediately followed by its descriptor slot, and no descriptor
      slot stands alone. */
  predicate Paired(q: seq<Slot>)
    decreases |q|
  {
    if q == [] then true
    else match q[0]
      case RmaSlot(_) => false
      case CmdSlot(h) =>
        if TwoSlot(h.op) then |q| >= 2 && q[1].RmaSlot? && Paired(q[2..])
        else Paired(q[1..])
  }

  function Min(a: nat, b: nat): nat { if a <= b then a else b }

  /** The bytes ofi_copy_to_iov / ofi_copy_from_iov move: the requested size,
      cut to the capacity of the scatter/gather list. */
  function CopyLen(size: nat, cap: nat): (n: nat)
    ensures n <= size && n <= cap
    ensures n == size || n == cap
  {
    Min(size, cap)
  }

  /** Total capacity of a scatter/gather list. */
  function IovTotal(iov: seq<Iov>): nat
  {
    if iov == [] then 0 else iov[0].len + IovTotal(iov[1..])
  }

  /** Bytes the target ranges of a descriptor cover, at `unit` bytes per
      element (1 for RMA, the datatype size for atomics). */
  function Covered(d: seq<RmaIov>, unit: nat): nat
  {
    if d == [] then 0 else Covered(d[..|d| - 1], unit) + d[|d| - 1].len * unit
  }

  /** Unsigned subtraction on size_t. */
  function SizeSub(a: nat, b: nat): (r: nat)
    ensures r < WORD
    ensures b <= a < WORD ==> r == a - b
    ensures a < b < WORD ==> r == a - b + WORD
  {
    (a - b) % WORD
  }
}
