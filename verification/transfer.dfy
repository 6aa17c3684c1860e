/** The transfer-method handlers, as far as they decide byte counts, error
    codes and resource release, and the multi-receive shrink rule.
    The byte copies themselves are not modelled: only how many bytes move. */
module Transfer {
  import opened Types

  /** smr_progress_inline, and the copy step of smr_progress_inject: copy
      `size` bytes into (or out of) a list of capacity `cap`; anything short
      of `size` is a truncation reported as -FI_EIO. */
  function Copy(size: nat, cap: nat): (x: Xfer)
    ensures x.len <= size && x.len <= cap
    ensures x.err == 0 <==> size <= cap
    ensures x.err == 0 ==> x.len == size
    ensures x.err != 0 ==> x.err == -FI_EIO && x.len == cap
  {
    var n := CopyLen(size, cap);
    Xfer(n, if n != size then -FI_EIO else 0)
  }

  /** What ofi_process_vm_readv / ofi_process_vm_writev report: bytes moved,
      or failure with errno set. */
  datatype CmaResult = Moved(bytes: nat) | Failed(errno: Errno)

  /** The cross-process copy for a command, given the capacity of the local
      iov list it is handed: the kernel never moves more bytes than that list
      holds. */
  type CmaFn = f: (Hdr, nat) -> CmaResult | forall h: Hdr, cap: nat :: f(h, cap).Moved? ==> f(h, cap).bytes <= cap
    witness (h: Hdr, cap: nat) => Failed(FI_EIO)

  /** The status smr_progress_iov stores into the peer's response slot: the
      negated incoming error, the errno of a failed cross-process copy,
      FI_EIO for a partial copy, 0 when exactly `size` bytes moved. */
  function IovStatus(size: nat, err: int, r: CmaResult): (s: int)
    ensures err != 0 ==> s == -err
    ensures err == 0 ==> (s == 0 <==> r == Moved(size))
    ensures err == 0 && r.Moved? && r.bytes != size ==> s == FI_EIO
    ensures err == 0 && r.Failed? ==> s == r.errno
  {
    if err != 0 then -err
    else match r
      case Failed(e) => e
      case Moved(n) => if n != size then FI_EIO else 0
  }

  /** smr_progress_iov as a whole: the status it publishes, the bytes it
      reports and the value it returns (the negated status). */
  function IovXfer(size: nat, err: int, r: CmaResult): (x: Xfer)
    ensures x.err == -IovStatus(size, err, r)
    ensures x.err == 0 <==> err == 0 && r == Moved(size)
    ensures x.len == (if x.err == 0 then size else 0)
    ensures r.Moved? ==> x.len <= r.bytes
  {
    var s := IovStatus(size, err, r);
    Xfer(if s == 0 then size else 0, -s)
  }

  /** The outcomes of the OS calls in smr_mmap_peer_copy: building the file
      name, shm_open, mmap, and the errno they leave on failure. */
  datatype MmapOs = MmapOs(nameOk: bool, openOk: bool, mapOk: bool, errno: Errno)

  /** What smr_mmap_peer_copy reports for a command of `size` bytes moving
      into (or, for a read request, out of) a list of capacity `cap`: the
      negated errno of the first OS call that fails; otherwise the bytes
      copied, with -FI_EIO when the copy was short. */
  function MmapXfer(op: Op, size: nat, cap: nat, os: MmapOs): (x: Xfer)
    ensures x.err <= 0 && x.len <= cap
    ensures x.err == 0 <==> os.nameOk && os.openOk && os.mapOk && (op == OpReadReq || size <= cap)
    ensures !(os.nameOk && os.openOk && os.mapOk) ==> x == Xfer(0, -(os.errno as int))
    ensures os.nameOk && os.openOk && os.mapOk && x.err != 0 ==> x.err == -FI_EIO && x.len == cap
    ensures x.err == 0 ==> x.len == (if op == OpReadReq then cap else size)
  {
    if !(os.nameOk && os.openOk && os.mapOk) then Xfer(0, -(os.errno as int))
    else if op == OpReadReq then Xfer(cap, 0)
    else Copy(size, cap)
  }

  /** OS resources smr_mmap_peer_copy acquires. */
  datatype OsResource = ShmFd | Mapping

  /** smr_mmap_peer_copy with its cleanup labels: every exit path unmaps what
      it mapped and unlinks and closes what it opened. `held` is the set of
      resources still held on return and `unlinked` says whether the shared
      file was unlinked. */
  method MmapPeerCopy(op: Op, size: nat, cap: nat, os: MmapOs)
    returns (ret: int, totalLen: nat, held: set<OsResource>, unlinked: bool)
    ensures held == {}
    ensures unlinked <==> os.nameOk && os.openOk
    ensures ret == 0 <==> os.nameOk && os.openOk && os.mapOk && (op == OpReadReq || size <= cap)
    ensures !(os.nameOk && os.openOk && os.mapOk) ==> ret == -(os.errno as int) && totalLen == 0
    ensures os.nameOk && os.openOk && os.mapOk ==>
      totalLen == (if op == OpReadReq then cap else CopyLen(size, cap)) &&
      (ret == 0 || ret == -FI_EIO)
    ensures Xfer(totalLen, ret) == MmapXfer(op, size, cap, os)
  {
    ret, totalLen, held, unlinked := 0, 0, {}, false;
    if !os.nameOk {
      ret := -(os.errno as int);
      return;
    }
    if !os.openOk {
      ret := -(os.errno as int);
      return;
    }
    held := held + {ShmFd};
    if !os.mapOk {
      ret := -(os.errno as int);
    } else {
      held := held + {Mapping};
      if op == OpReadReq {
        totalLen := cap;
        if CopyLen(totalLen, cap) != totalLen {
          ret := -FI_EIO;
        }
      } else {
        totalLen := CopyLen(size, cap);
        if totalLen != size {
          ret := -FI_EIO;
        }
      }
      // munmap:
      held := held - {Mapping};
    }
    // unlink_close:
    unlinked := true;
    held := held - {ShmFd};
  }

  /** smr_progress_multi_recv: after `len` bytes went into a multi-receive
      buffer whose first iov is `v`, None retires the entry; Some(v') keeps it
      posted with the shrunk iov v'. Lengths and addresses are size_t and
      uintptr_t, so they wrap. */
  function MultiRecvStep(v: Iov, len: nat, minSize: nat): (r: Option<Iov>)
    ensures len <= v.len < WORD ==> (r.None? <==> v.len - len < minSize)
    ensures r.Some? ==> minSize <= r.value.len < WORD && r.value.base == (v.base + len) % WORD
    ensures len <= v.len < WORD && r.Some? ==> r.value.len == v.len - len
  {
    var left := SizeSub(v.len, len);
    if left < minSize then None else Some(Iov((v.base + len) % WORD, left))
  }

  /** When more bytes were delivered than the first iov holds (a multi-receive
      entry posted with several iovs), the unsigned subtraction wraps: the
      remaining length becomes enormous, and this delivery keeps the entry
      posted where the shortfall should have retired it. */
  lemma MultiRecvUnderflow(v: Iov, len: nat, minSize: nat)
    requires v.len < len < WORD && minSize <= WORD - (len - v.len)
    ensures MultiRecvStep(v, len, minSize).Some?
    ensures MultiRecvStep(v, len, minSize).value.len == WORD - (len - v.len)
  {
  }

  /** Whether a flag survives the 16-bit comp_flags word: the SMR flags sit
      in its low bits, and any other flag only when its bit is below 16. */
  predicate InCompWord(g: Flag)
  {
    !g.OtherFlag? || g.bit < 16
  }

  /** The completion flags smr_progress_msg_common reports: the command's and
      the entry's flags cut to the 16-bit comp_flags word, with
      SMR_MULTI_RECV set exactly when a multi-receive entry was retired by
      this delivery. */
  function CompFlags(opFlags: set<Flag>, entryFlags: set<Flag>, retired: bool): (f: set<Flag>)
    ensures MultiRecv in f <==> MultiRecv in entryFlags && retired
    ensures forall g :: g != MultiRecv ==> (g in f <==> (g in opFlags || g in entryFlags) && InCompWord(g))
    ensures forall g :: g in f ==> InCompWord(g)
  {
    (set g | g in opFlags + entryFlags && g != MultiRecv && InCompWord(g)) +
      (if MultiRecv in entryFlags && retired then {MultiRecv} else {})
  }

  /** Whether smr_progress_msg_common frees the entry after delivering `len`
      bytes: always for an ordinary receive, and for a multi-receive entry
      once the remaining space drops below the minimum. */
  function Retires(e: RxEntry, len: nat, minSize: nat): (r: bool)
    requires |e.iov| > 0
    ensures MultiRecv !in e.flags ==> r
    ensures MultiRecv in e.flags && len <= e.iov[0].len < WORD ==>
      (r <==> e.iov[0].len - len < minSize)
  {
    MultiRecv !in e.flags || MultiRecvStep(e.iov[0], len, minSize).None?
  }
}
