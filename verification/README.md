# Receive-side progress engine of the libfabric shared-memory provider

This project models `smr_ep_progress` of libfabric's `shm` provider and
everything it runs, in `prov/shm/src/smr_progress.c`. A progress call first
handles the responses that peers wrote for this endpoint's own sends
(`smr_progress_resp`). It then drains the command queue that peers fill
(`smr_progress_cmd`). The commands are:

- messages, matched against posted receives or parked as unexpected
  messages;
- RMA writes and read requests;
- asynchronous RMA notices;
- atomics.

`smr_progress_unexp_queue` is also modelled. A receive posted late calls it
to drain the unexpected messages it accepts.

The endpoint is the class `Progress.Endpoint`. Its fields are:

- the endpoint's shared region: command queue, response queue, inject-buffer
  pool and the `cmd_cnt` credit counter;
- the posted-receive lists, the unexpected-message lists and the free
  stacks behind them;
- the pending sends;
- the receive and transmit completion queues and the receive counter;
- the parts of peer regions the engine updates;
- a log of the statuses stored into peers' response slots.

Each C function is a method that changes these fields. Each `while` and `for`
loop of the source is a Dafny loop with its invariants. Each method is proved
against specification functions:

- `Handled`: a run of responses handled in order;
- `DeliverFirst` and `Drain`: the unexpected-queue drain;
- `Walked` and `Applied`: the atomic descriptor walk;
- `DrainedFrom`: the command loop's account of the consumed slots.

Pool bookkeeping for the inject buffers, receive entries and
unexpected-message entries is stated as multiset equations (`InjectPool`,
`UnexpPool`, `RecvPool`, and `PeerInjectPool` for a peer's inject pool).
The lemmas of `Ownership` cover these outcomes:

- a message queued as unexpected;
- a message delivered;
- an RMA command, rejected or delivered;
- an atomic command, rejected or delivered;
- an async notice;
- an unexpected-queue drain;
- a run of handled responses.

Each of them takes the state change its method ensures, written over field
values, and shows that every buffer and entry is still owned exactly once.

Modules:

- `Types`: wire and bookkeeping records.
- `Transfer`: transfer handlers, `smr_mmap_peer_copy` and the multi-receive
  arithmetic.
- `Atomic`: `smr_do_atomic` dispatch and the descriptor walk.
- `Accounting`: pool multisets.
- `Matching`: first-match search and the unexpected-queue drain order.
- `Responses`: the response side as values.
- `Progress`: the endpoint class.
- `Ownership`: pool ownership across each outcome of the endpoint's methods.

Calls outside the engine are constant function fields of the endpoint, or
parameters:

- `mrVerify`: `ofi_mr_verify`.
- `datatypeSize`: `ofi_datatype_size`.
- `cma`: the result of `ofi_process_vm_readv`/`writev` for a command and the
  capacity of the local iov list it is handed. Its type `Transfer.CmaFn`
  says it never moves more bytes than that capacity.
- `mmapOs`: the outcomes of the file-name, `shm_open` and `mmap` calls.
- `locked`: the peers whose region lock a try-lock would fail to take.

Completion writes (`smr_complete_rx`/`smr_complete_tx`) append to a bounded
log and fail with `-FI_EAGAIN` when it is full. `ofi_copy_to_iov` and
`ofi_copy_from_iov` move the requested size cut to the list's capacity.

## Model

| member | source | states |
|---|---|---|
| Types.CopyLen | prov/shm/src/smr_progress.c:141-143 | the bytes a copy into a list moves: never more than the size or the capacity, and one of the two |
| Types.SizeSub | prov/shm/src/smr_progress.c:319 | size_t subtraction: exact when no underflow, the difference plus 2^64 when it underflows, always below 2^64 |
| Transfer.Copy | prov/shm/src/smr_progress.c:138-149 | the inline copy succeeds exactly when the list holds the size; otherwise it moves the capacity and reports -FI_EIO |
| Transfer.IovStatus | prov/shm/src/smr_progress.c:196-228 | the status published for a direct copy: the negated incoming error; errno on a failed copy; FI_EIO on a partial one; 0 exactly when all bytes moved |
| Transfer.IovXfer | prov/shm/src/smr_progress.c:184-231 | smr_progress_iov returns the negated status: 0 exactly on a full copy, and then it reports the full size; it never reports more bytes than the copy moved |
| Transfer.MmapPeerCopy | prov/shm/src/smr_progress.c:233-291 | every exit path releases the mapping and the descriptor; the file is unlinked exactly when it was opened; success exactly when all OS calls succeed and the copy fits; OS failures return -errno with no bytes; the result is MmapXfer |
| Transfer.MmapXfer | prov/shm/src/smr_progress.c:233-311 | the mmap path's result: success exactly when all OS calls succeed and the copy fits (always for a read request); an OS failure gives -errno and no bytes; a short copy -FI_EIO with the capacity moved; never more than the capacity |
| Transfer.MultiRecvStep | prov/shm/src/smr_progress.c:313-328 | a multi-receive entry is retired exactly when the space left drops below the minimum; otherwise its base advances and its length shrinks by the delivered bytes |
| Transfer.MultiRecvUnderflow | prov/shm/src/smr_progress.c:319-321 | delivering more than the first iov holds makes the length wrap, and the entry is kept with an enormous length |
| Transfer.CompFlags | prov/shm/src/smr_progress.c:431-468 | the completion carries SMR_MULTI_RECV exactly when a multi-receive entry was retired; every other flag is there exactly when the command or the entry has it and it fits the 16-bit comp_flags word |
| Transfer.Retires | prov/shm/src/smr_progress.c:464-478 | an ordinary receive is always freed; a multi-receive entry exactly when its space runs out |
| Atomic.Handler | prov/shm/src/smr_progress.c:335-343 | swap at or above OFI_SWAP_OP_START; read-write under SMR_RMA_REQ; write unless FI_ATOMIC_READ; no handler for a plain read |
| Atomic.EchoOf | prov/shm/src/smr_progress.c:345-347 | an echo happens exactly under SMR_RMA_REQ; a read echoes the target itself |
| Atomic.ReadDoesNotWrite | prov/shm/src/smr_progress.c:335-347 | an atomic read never runs a write or swap handler, and without SMR_RMA_REQ it does nothing at all |
| Atomic.WalkAtomics | prov/shm/src/smr_progress.c:367-372 | descriptors are visited in order while some remain and the length is below the size; the length sums count times datatype size; one smr_do_atomic call per visited descriptor, at the right operand offset |
| Atomic.InlineAtomic | prov/shm/src/smr_progress.c:350-380 | the walk, then -FI_EIO exactly when the consumed length differs from the declared size |
| Atomic.WalkedUnique | prov/shm/src/smr_progress.c:367-372 | the walk's stopping point and length are determined by the descriptors and the size |
| Atomic.ExactCoverNoTruncation | prov/shm/src/smr_progress.c:367-378 | descriptors covering exactly the size give no truncation error |
| Atomic.ShortCoverTruncates | prov/shm/src/smr_progress.c:367-378 | descriptors covering less than the size are all visited, and truncation is reported |
| Accounting.BagRemove | prov/shm/src/smr_progress.c:479 | taking an element off a list takes exactly its share out of the list's bag |
| Accounting.PoolShrink | prov/shm/src/smr_progress.c:323-325 | shrinking a posted entry's first iov keeps every receive entry owned once |
| Accounting.PoolRetire | prov/shm/src/smr_progress.c:478-481 | removing a posted entry and pushing it on recv_fs keeps every entry owned once; it was not free before |
| Accounting.InjectKeep | prov/shm/src/smr_progress.c:166-169 | consuming commands whose buffers stay held elsewhere keeps every inject buffer owned once |
| Accounting.InjectRelease | prov/shm/src/smr_progress.c:172 | pushing the one buffer of the consumed commands back keeps every inject buffer owned once; it was not free before |
| Accounting.InjectConsume | prov/shm/src/smr_progress.c:442-445 | delivering a message at the head releases its inject buffer, if any, and keeps every buffer owned once |
| Accounting.InjectEnqueue | prov/shm/src/smr_progress.c:512-520 | moving the head command to the unexpected list carries its inject buffer along |
| Accounting.InjectDeliver | prov/shm/src/smr_progress.c:762-764 | delivering an unexpected message releases its inject buffer, which was not free |
| Accounting.InjectRma | prov/shm/src/smr_progress.c:550-577 | consuming an RMA or atomic command pair either releases its inject buffer or leaves it held, and every buffer stays owned once |
| Accounting.UnexpEnqueue | prov/shm/src/smr_progress.c:510-520 | popping an unexp_fs entry onto an unexpected list keeps every entry owned once |
| Accounting.UnexpRelease | prov/shm/src/smr_progress.c:764 | pushing a removed unexpected message's entry on unexp_fs keeps every entry owned once; it was not free |
| Accounting.InjectSet | prov/shm/src/smr_progress.c:762-764 | the set of inject buffers unexpected messages own is exactly the support of their bag |
| Matching.FirstPosted | prov/shm/src/smr_progress.c:506-508 | the first posted receive, in posting order, that accepts the command; none exactly when no entry accepts it |
| Matching.FirstUnexp | prov/shm/src/smr_progress.c:754-756 | the first unexpected message, in arrival order, that the receive accepts; none exactly when no message is accepted |
| Matching.MatchesNone | prov/shm/src/smr_progress.c:757-758 | the first-match search finds nothing exactly when the receive accepts no unexpected message |
| Matching.MatchesFirst | prov/shm/src/smr_progress.c:754-756 | removing the first match takes the head of the accepted messages and keeps the others' order |
| Matching.MatchesStep | prov/shm/src/smr_progress.c:754-770 | both facts together: no match exactly when nothing is accepted, and a removal takes the head |
| Matching.RemoveFirstMatchStep | prov/shm/src/smr_progress.c:768-770 | one removal takes exactly the first accepted message out of the queue and its bag |
| Matching.DropMatchesSpec | prov/shm/src/smr_progress.c:761-771 | n removals take exactly the first n accepted messages, in arrival order, and their bag shares |
| Matching.InjectDrain | prov/shm/src/smr_progress.c:761-771 | draining n messages hands back exactly their inject buffers, none of which was free, and every buffer stays owned once |
| Matching.UnexpDrain | prov/shm/src/smr_progress.c:761-771 | draining n messages pushes exactly their entries back on unexp_fs, none of which was free |
| Matching.DrainNext | prov/shm/src/smr_progress.c:768-770 | the (n+1)-th removal takes the (n+1)-th accepted message |
| Matching.DrainEnd | prov/shm/src/smr_progress.c:768-771 | the removal finds nothing exactly when every accepted message has been drained |
| Responses.RespStatus | prov/shm/src/smr_progress.c:52-96 | a nonzero status is kept; direct-copy and mmap writes keep it; it becomes an error exactly when an mmap read or inject result does not fit the send's buffers, as -FI_EIO on the mmap path and FI_EIO on the inject path |
| Responses.PeerAfterResp | prov/shm/src/smr_progress.c:74-101 | the peer gets one command credit back, and its inject buffer back exactly for an inject send |
| Responses.ApplyResps | prov/shm/src/smr_progress.c:113-133 | handling a run of responses keeps the set of peers |
| Responses.TxCompsAt | prov/shm/src/smr_progress.c:123-125 | the i-th transmit completion is the one for the i-th response |
| Responses.ApplyRespsPeer | prov/shm/src/smr_progress.c:97-133 | each peer gets exactly one credit per handled response for one of its sends, and back exactly the inject buffers those sends used |
| Responses.CreditsNone | prov/shm/src/smr_progress.c:100 | a peer none of whose sends answered is left alone |
| Responses.RespOkStep | prov/shm/src/smr_progress.c:131-132 | retiring the head response and freeing its pending send keeps the queue well formed |
| Responses.Handled | prov/shm/src/smr_progress.c:113-133 | k handled responses leave k fewer queued and k more completions |
| Responses.HandleHead | prov/shm/src/smr_progress.c:115-132 | handling the head response takes it off the queue, appends one transmit completion, gives its peer exactly one credit back and leaves every other peer alone, returns its pending send to pend_fs, and unlinks at most its own mmapped file |
| Responses.HandledNone | prov/shm/src/smr_progress.c:113-114 | handling no response changes nothing |
| Responses.HandledLog | prov/shm/src/smr_progress.c:123-132 | handling k responses takes exactly those off the queue and appends one completion per response, in queue order, after the earlier ones |
| Responses.HandledIds | prov/shm/src/smr_progress.c:70-132 | exactly the handled sends return to pend_fs, and exactly their mmapped files are unlinked |
| Responses.HandledPeers | prov/shm/src/smr_progress.c:97-101 | each peer's credit and inject pool change by exactly its handled sends |
| Responses.HandledNext | prov/shm/src/smr_progress.c:113-133 | handling k+1 responses is handling the head of what k left, so the run equals the one-at-a-time loop |
| Progress.NoticesAppend | prov/shm/src/smr_progress.c:702-707 | the async notices of consecutive slot runs concatenate |
| Progress.NoticesQuiet | prov/shm/src/smr_progress.c:693-712 | message, RMA and atomic slots raise no async notice |
| Progress.DrainMore | prov/shm/src/smr_progress.c:690-726 | consuming more slots extends the loop's account: the queue left is a suffix, the notices are those of the consumed prefix, and the credits are bounded by it |
| Progress.UnexpDrainMore | prov/shm/src/smr_progress.c:761-770 | delivering the next first match extends the drain account by the next accepted message |
| Progress.DeliverFirst | prov/shm/src/smr_progress.c:761-764 | one drain round: the first accepted unexpected message leaves its list and its entry goes back to unexp_fs; its inject buffer is released and its credit returned for inline and inject data; the other lists are untouched; the posted entry is freed exactly when Retires says; one completion is added exactly when the CQ has room; the status writes only grow |
| Progress.DeliveredSnoc | prov/shm/src/smr_progress.c:763-764 | one more delivered message hands back its entry, its credit and its inject buffer |
| Progress.KeptRemove | prov/shm/src/smr_progress.c:478-480 | retiring an entry whose buffers were shrunk leaves the same list as retiring the original |
| Progress.ShrinkAll | prov/shm/src/smr_progress.c:313-328 | the first iov after a run of multi-receive deliveries, each applying MultiRecvStep in turn; untouched when nothing was delivered, and at least the minimum size while the entry is kept |
| Progress.KeptMore | prov/shm/src/smr_progress.c:319-325 | one more delivery that keeps the entry extends its shrink by that delivery's length |
| Progress.DrainNone | prov/shm/src/smr_progress.c:754-758 | a drain that delivered nothing changed nothing |
| Progress.DrainStep | prov/shm/src/smr_progress.c:761-770 | each round extends the drain by one message and its delivered length and shortens the unexpected list; a plain receive is retired by its first delivery; a multi-receive entry is retired exactly by the delivery whose shrink leaves less than the minimum room |
| Progress.DrainStart | prov/shm/src/smr_progress.c:750-756 | before the first round nothing is drained |
| Progress.AllFitMore | prov/shm/src/smr_progress.c:690-724 | a round that fits the queue as the earlier rounds left it extends the per-round record |
| Progress.Endpoint.FirstRejected | prov/shm/src/smr_progress.c:554-565 | the first target range that MR verification rejects; none exactly when all are accepted |
| Progress.Endpoint.CompleteRx | prov/shm/src/smr_progress.c:470-476 | a receive completion is written exactly when the CQ has room; otherwise -FI_EAGAIN and nothing is written |
| Progress.Endpoint.CompleteTx | prov/shm/src/smr_progress.c:123-130 | a transmit completion is written exactly when the CQ has room; otherwise -FI_EAGAIN |
| Progress.Endpoint.ProgressInject | prov/shm/src/smr_progress.c:151-182 | an incoming error releases the buffer and comes back unchanged; a read keeps the buffer for the response side; any other op releases it; -FI_EIO exactly when the bytes differ from the size |
| Progress.Endpoint.ProgressIov | prov/shm/src/smr_progress.c:184-231 | the result is IovXfer of the copy into a list of the given capacity, never more bytes than that capacity, and its negation is stored into the initiator's response slot last |
| Progress.Endpoint.ProgressMmap | prov/shm/src/smr_progress.c:293-311 | the result is exactly MmapXfer of the OS outcomes, and it is stored into the response slot |
| Progress.Endpoint.Transferred | prov/shm/src/smr_progress.c:138-311 | the handler result per op_src: never more than the capacity; inline and inject succeed exactly when the size fits; a direct copy exactly when the kernel moved the whole size; mmap exactly when all OS calls succeed and the copy fits; an unknown source -FI_EINVAL; a successful non-read moves the whole size |
| Progress.Endpoint.RunHandler | prov/shm/src/smr_progress.c:436-459 | the op_src switch: the result is exactly Transferred(h, cap); it states exactly which statuses are written and which inject buffer is released |
| Progress.Endpoint.RetireEntry | prov/shm/src/smr_progress.c:478-481 | the entry leaves its list and its slot joins recv_fs; the other list is unchanged |
| Progress.Endpoint.ShrinkEntry | prov/shm/src/smr_progress.c:323-325 | only the first iov of the i-th entry changes |
| Progress.Endpoint.FinishEntry | prov/shm/src/smr_progress.c:461-483 | the completion is written with the flags CompFlags gives; then the entry is freed exactly when Retires says, or kept with its first iov shrunk by MultiRecvStep |
| Progress.Endpoint.MsgCommon | prov/shm/src/smr_progress.c:427-484 | delivery into the i-th posted entry as DeliveredInto states it: the handler result is Transferred with the entry's capacity, including the mmap and direct-copy errors; the statuses written; the credit only for inline and inject sources; the inject buffer released; the completion record; the entry freed with its slot back on recv_fs exactly when Retires says, or kept with its first iov shrunk; the other list unchanged |
| Progress.Endpoint.QueueUnexpected | prov/shm/src/smr_progress.c:509-521 | pops a free unexpected entry, appends the command at the tail of its kind's list and discards exactly one slot |
| Progress.Endpoint.DeliverHead | prov/shm/src/smr_progress.c:523-526 | delivers into the i-th entry with the full effect DeliveredInto states (result, statuses, credit, inject buffer, completion, retire or shrink, recv_fs), then discards exactly one slot |
| Progress.Endpoint.CmdMsgQueue | prov/shm/src/smr_progress.c:509-521 | the no-match outcome on the whole endpoint keeps its invariant |
| Progress.Endpoint.CmdMsgDeliver | prov/shm/src/smr_progress.c:523-526 | the match outcome on the whole endpoint keeps its invariant, with the full delivery effect DeliveredInto states and exactly one slot discarded |
| Progress.Endpoint.CmdMsg | prov/shm/src/smr_progress.c:486-527 | its whole outcome, as MsgDone states it: a full rx CQ gives -FI_ENOSPC, and no match with unexp_fs empty gives -FI_EAGAIN, both with nothing changed; otherwise exactly one slot is consumed; delivery happens exactly when a posted receive accepts, into the first one, with the full effect DeliveredInto states and the unexpected lists untouched; otherwise the message joins the tail of its list and the posted lists, recv_fs, credits, inject pool, completions and statuses are untouched |
| Progress.Endpoint.TakeUnexp | prov/shm/src/smr_progress.c:754-764 | removes the first accepted unexpected message and returns its entry to unexp_fs |
| Progress.Endpoint.DeliverUnexp | prov/shm/src/smr_progress.c:762-764 | one drain round is exactly DeliverFirst of the state before, moving what the handler of the first accepted message moves into the entry's capacity; the entry is freed exactly when Retires says |
| Progress.Endpoint.DrainFedMore | prov/shm/src/smr_progress.c:761-770 | a delivery of the next accepted message, of what its handler moves into the entry as the earlier deliveries shrank it, extends the record of delivered lengths |
| Progress.Endpoint.UnexpStep | prov/shm/src/smr_progress.c:761-770 | one round extends Drain by one message, and its recorded length is what the handler of the next accepted message moved into the entry as the earlier rounds shrank it; a plain receive is retired; a multi-receive entry is retired only when the room left falls below the minimum; whether another match waits |
| Progress.Endpoint.DrainLoop | prov/shm/src/smr_progress.c:760-771 | the loop keeps Drain and the per-delivery lengths; a plain receive takes at most one message and is retired exactly when it took one; a multi-receive entry is retired only by the delivery after which the room left is below the minimum; when it ends with the entry still posted, no accepted message is left |
| Progress.Endpoint.ProgressUnexpQueue | prov/shm/src/smr_progress.c:741-774 | returns 0; the first n accepted messages are drained in arrival order and hand back entries, credits and inject buffers; a plain receive takes at most one; n is 0 exactly when no message is accepted, and then nothing changes; the k-th delivery moved what the handler of the k-th accepted message moves into the entry as the k deliveries before shrank it; a plain receive is retired exactly when it took a message; a multi-receive entry is retired exactly by the first delivery that leaves less than the minimum room; an entry still posted has taken every accepted message and has its first iov shrunk by each delivery in turn |
| Progress.Endpoint.VerifyTargets | prov/shm/src/smr_progress.c:554-565 | the ranges are verified in order up to the first rejection, whose error comes back; 0 exactly when none is rejected |
| Progress.Endpoint.DiscardPair | prov/shm/src/smr_progress.c:550-566 | both slots leave the queue with one credit back |
| Progress.Endpoint.RmaBody | prov/shm/src/smr_progress.c:550-608 | a rejected range returns its error with a second credit and nothing else done; otherwise the handler result is Transferred with the targets' capacity, including the mmap and direct-copy errors; a read with a response offset gets the negated result in that slot, any other command a second credit; the completion is written when there is room |
| Progress.Endpoint.RmaDeliver | prov/shm/src/smr_progress.c:572-608 | the transfer, whose result is Transferred with the targets' capacity; the response-slot write or credit; and the completion of a verified RMA command |
| Progress.Endpoint.CmdRma | prov/shm/src/smr_progress.c:529-609 | a remote-CQ-data command facing a full rx CQ gets -FI_ENOSPC with nothing changed; otherwise two slots are consumed as RmaBody states, with the handler result Transferred with the targets' capacity (together: RmaDone); the receive and unexpected lists are untouched |
| Progress.Endpoint.InjectAtomic | prov/shm/src/smr_progress.c:382-425 | an incoming error skips the walk; otherwise the walk and -FI_EIO on a short length; the buffer is released exactly when SMR_RMA_REQ is not set, error or not |
| Progress.Endpoint.RunAtomic | prov/shm/src/smr_progress.c:649-660 | inline and inject operands run the walk; any other source gives -FI_EINVAL with no handler call; every smr_do_atomic call is logged |
| Progress.Endpoint.CmdAtomic | prov/shm/src/smr_progress.c:611-680 | two slots are consumed; a rejected range returns its error with a second credit; otherwise the walk runs; a nonzero h.data gets the negated error in that response slot, otherwise a second credit; a completion failure takes precedence over the handler error (together: AtomicDone); the receive and unexpected lists are untouched |
| Progress.Endpoint.AtomicDeliver | prov/shm/src/smr_progress.c:649-679 | the handler, the response-slot write or credit, and the completion of a verified atomic command |
| Progress.Endpoint.MsgArm | prov/shm/src/smr_progress.c:694-697 | the message branch passes up smr_progress_cmd_msg's whole outcome (MsgDone) and leaves the atomic log alone; it consumes one slot exactly when it returns 0, and none on -FI_ENOSPC or -FI_EAGAIN |
| Progress.Endpoint.HeadMsg | prov/shm/src/smr_progress.c:694-697 | for a message op the round is recorded by Routed as the message arm, with its slot count and result fitting the op |
| Progress.Endpoint.RmaArm | prov/shm/src/smr_progress.c:698-701 | the RMA branch passes up smr_progress_cmd_rma's whole outcome (RmaDone) on the descriptor slot behind the command, with the lists and the atomic log untouched; it consumes both slots, or none with -FI_ENOSPC |
| Progress.Endpoint.HeadRma | prov/shm/src/smr_progress.c:698-701 | for a write or read request the round is recorded by Routed as the RMA arm, with its slot count and result fitting the op |
| Progress.Endpoint.AtomicArm | prov/shm/src/smr_progress.c:708-712 | the atomic branch passes up smr_progress_cmd_atomic's whole outcome (AtomicDone) on the descriptor slot behind the command, with the lists untouched; it always consumes both slots |
| Progress.Endpoint.HeadAtomic | prov/shm/src/smr_progress.c:708-712 | for an atomic op the round is recorded by Routed as the atomic arm, always consuming both slots |
| Progress.Endpoint.HeadAsync | prov/shm/src/smr_progress.c:702-707 | an async notice bumps the receive counter with its op, consumes one slot, gives back one credit, returns 0 and changes nothing else |
| Progress.Endpoint.ProgressHead | prov/shm/src/smr_progress.c:690-717 | the switch routes by op, as Routed states for each: messages to smr_progress_cmd_msg, writes and read requests to smr_progress_cmd_rma, async notices to the counter, atomics to smr_progress_cmd_atomic, and an unknown op gives -FI_EINVAL with nothing changed; the round takes only from the head and its slot count and result fit the op |
| Progress.Endpoint.ProgressStep | prov/shm/src/smr_progress.c:690-725 | one loop iteration consumes the slots its round may take for the head's op, extends the per-round record with a round that fits the queue as the earlier rounds left it, and keeps the loop's account of notices and credits |
| Progress.Endpoint.ProgressCmd | prov/shm/src/smr_progress.c:682-729 | each recorded round fits the queue as the rounds before it left it (slot count and result by the head's op); every recorded round before the last returned 0, and the result is the last round's; the rounds consumed exactly the slots that are gone; what is left is a suffix of the queue; the receive counter got exactly the async notices of the consumed prefix; at most one credit per slot; a zero result means the queue is empty; the response side is outside the modifies frame |
| Progress.Endpoint.RespEntry | prov/shm/src/smr_progress.c:40-103 | a held peer lock gives -FI_EAGAIN with nothing changed; otherwise the status is settled as RespStatus says, an mmap send's file is unlinked, an inject buffer goes back to the peer's pool, and the peer gets one credit |
| Progress.Endpoint.RespStep | prov/shm/src/smr_progress.c:115-132 | the head is handled exactly when it is not FI_EBUSY and its peer's lock is free; then the state is HandleHead of the state before, otherwise unchanged |
| Progress.Endpoint.RespRound | prov/shm/src/smr_progress.c:113-133 | one round extends the run of handled responses by the next one exactly when it passes |
| Progress.Endpoint.ProgressResp | prov/shm/src/smr_progress.c:105-136 | the state is Handled of the first k responses, in order, each of which passed; the loop stopped at an empty queue, a full tx CQ, or a response that does not pass, which stays queued; the command side is untouched |
| Progress.Endpoint.EpProgress | prov/shm/src/smr_progress.c:731-739 | responses first, then commands: both results hold together, the command rounds are recorded as ProgressCmd states them, and the whole invariant is kept |
| Ownership.QueuedKeepsPools | prov/shm/src/smr_progress.c:509-521 | a message queued as unexpected carries its inject buffer from the command queue to its list, and its unexpected entry leaves unexp_fs: every buffer and entry stays owned once |
| Ownership.DeliveredKeepsPools | prov/shm/src/smr_progress.c:442-481 | a delivered message releases its inject buffer, and its posted entry is freed onto recv_fs or kept: every buffer and receive entry stays owned once |
| Ownership.RmaKeepsPools | prov/shm/src/smr_progress.c:550-608 | an RMA command pair leaves the queue; a delivered write releases its inject buffer, while a rejected command or a read request leaves it held: every buffer stays owned once |
| Ownership.AtomicKeepsPools | prov/shm/src/smr_progress.c:611-680 | an atomic command pair leaves the queue; a delivered one without SMR_RMA_REQ releases its inject buffer, otherwise it stays held: every buffer stays owned once |
| Ownership.AsyncKeepsPools | prov/shm/src/smr_progress.c:702-707 | an async notice owns no buffer, and consuming it keeps every buffer owned once |
| Ownership.DrainKeepsPools | prov/shm/src/smr_progress.c:761-771 | a drain of the unexpected queue releases exactly the delivered messages' inject buffers and entries, and frees or keeps the posted entry: all three pools stay owned once |
| Ownership.ReturnedBag | prov/shm/src/smr_progress.c:97-101 | the inject buffers a run of responses hands back to a peer are exactly the ones those responses own |
| Ownership.HandledKeepsPeerPool | prov/shm/src/smr_progress.c:97-133 | handling the first k responses returns exactly their inject buffers to each peer, so every buffer of the peer is still free or owned once by a queued response |

## Left out

- Byte contents are not modelled: copies, the mmapped file contents and the atomic handler arithmetic (including floating-point datatypes). Only byte counts, error codes and which handler family runs are modelled.
- File names and the OS calls of `smr_mmap_peer_copy` and of the response side are reduced to their outcomes and the resources they hold.
- Locking and memory ordering are left out. The try-lock of a peer region is the `locked` parameter; the plain locks of `smr_progress_resp` and `smr_progress_cmd` always succeed.
- The ordering that the status in a response slot is written last is left out.
- `smr_complete_rx` and `smr_complete_tx` are modelled as an append to a bounded completion log; the CQ library itself is not modelled.
- `ofi_mr_verify`, `ofi_datatype_size` and the cross-process copy are external functions; their effect on the address is not modelled.
- The `smr_ep.c` match callbacks are not part of this model. `Matching.Accepts` states libfabric's match rule: equal addresses or FI_ADDR_UNSPEC, and tags equal outside the ignore mask. An uninitialised `match_attr.ignore` on the send path (line 503-504) is immaterial there, because untagged matching ignores tags and the posted entry supplies the mask.
- A peer region is a value in `peers`; aliasing between a peer's region and this endpoint's own region is not modelled.
- `FI_WARN` logging is left out.
- `entry->err` is not kept in the entry; it is passed straight into the completion.
- 32-bit `int` truncation of sizes and returned byte counts is not modelled; sizes are unbounded naturals apart from the size_t wrap in `SizeSub`.
- The write of `resp->status` in place by `smr_progress_resp_entry` is not modelled: the settled status goes only into the transmit completion, since the slot is discarded right after.
- The copy back into the sender's buffers on the response side is not modelled; only whether it fits.
- Progress.Endpoint.ProgressCmd: the command credits are stated only as a bound (at most one per consumed slot), and the effect on receive lists and completions only through the invariant. Which op each round dispatched, and its effect, are stated one round at a time by ProgressHead (and CmdMsg, CmdRma, CmdAtomic, HeadAsync), and are not carried along the loop.
- Progress.Endpoint.ProgressCmd: the rounds are a ghost record that the loop fills in. Each is held to Fits on the queue as the earlier rounds left it. That fixes the result of message, async and unknown-op rounds and of an RMA round that consumed nothing. It leaves free the result of an RMA or atomic round that consumed both slots. So for such a round the contract does not establish that the loop stopped at the first nonzero result.
- Progress.Endpoint.ProgressStep: states that its round fits the head's op (Fits) but does not pass up Routed; the dispatch effect is stated by ProgressHead. The result of an RMA or atomic round that consumed both slots is therefore not tied to its handler here.
- Progress.Endpoint.ProgressUnexpQueue: the receive completions are stated only as an extension of the CQ by at most one per delivery, and the response-slot writes only as an extension. The exact record of each round is stated by Progress.Endpoint.DeliverUnexp.
- Progress.Endpoint.EpProgress: returns what `smr_progress_cmd` stopped with, which `smr_ep_progress` drops.
- Progress.Endpoint.EpProgress: the stop rule of the command loop is established only as far as ProgressCmd establishes it; an RMA or atomic round that consumed both slots has its result recorded but not tied to its handler.
- Progress.Endpoint.RespStep: cannot see `smr_complete_tx` fail, because the loop only runs while the transmit CQ has room.
- Pool ownership (each inject buffer, receive entry and unexpected entry owned exactly once) is not carried as a field invariant of the class. The lemmas of `Ownership` restate each method's ensured state change as hypotheses over field values; the verifier does not check that restatement against the methods.
- An inject-sourced RMA or atomic command whose target range fails MR verification returns before its handler runs, so its inject buffer is not pushed back. `Accounting.InjectRma` accounts for it as held rather than free, as the source behaves.
- `smr_progress_unexp_queue` is modelled for an entry already posted at index `i` of its list, since the posting itself happens in the caller.
