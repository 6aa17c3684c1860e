/** The atomic engine: which handler family smr_do_atomic runs and what it
    echoes back, and the walk over target descriptors that accumulates the
    consumed length. The per-datatype arithmetic of the handler tables is not
    modelled; one call of smr_do_atomic is recorded as an `AtomicApp`. */
module Atomic {
  import opened Types

  // Positions in libfabric's enum fi_op: FI_ATOMIC_READ, and FI_CSWAP, the
  // first compare-and-swap operator (OFI_SWAP_OP_START).
  const FI_ATOMIC_READ: nat := 10
  const OFI_SWAP_OP_START: nat := 12

  datatype Family = SwapFamily | ReadWriteFamily | WriteFamily | NoHandler

  /** What smr_do_atomic copies back into the requester's source buffer. */
  datatype Echo = NoEcho | EchoTarget | EchoResult

  /** The handler table smr_do_atomic dispatches to. */
  function Handler(op: nat, flags: set<Flag>): (f: Family)
    ensures f == SwapFamily <==> op >= OFI_SWAP_OP_START
    ensures f == ReadWriteFamily <==> op < OFI_SWAP_OP_START && RmaReq in flags
    ensures f == WriteFamily <==> op < OFI_SWAP_OP_START && op != FI_ATOMIC_READ && RmaReq !in flags
    ensures f == NoHandler <==> op == FI_ATOMIC_READ && RmaReq !in flags
  {
    if op >= OFI_SWAP_OP_START then SwapFamily
    else if RmaReq in flags then ReadWriteFamily
    else if op != FI_ATOMIC_READ then WriteFamily
    else NoHandler
  }

  /** The echo of smr_do_atomic: only a request for a result (SMR_RMA_REQ)
      gets one, and a plain read echoes the target itself rather than the
      scratch result. */
  function EchoOf(op: nat, flags: set<Flag>): (e: Echo)
    ensures e != NoEcho <==> RmaReq in flags
    ensures e == EchoTarget <==> RmaReq in flags && op == FI_ATOMIC_READ
  {
    if RmaReq !in flags then NoEcho
    else if op == FI_ATOMIC_READ then EchoTarget
    else EchoResult
  }

  /** An atomic read never runs a write or swap handler: it mutates nothing
      at the target, whether or not a result was requested. */
  lemma ReadDoesNotWrite(flags: set<Flag>)
    ensures Handler(FI_ATOMIC_READ, flags) != WriteFamily
    ensures Handler(FI_ATOMIC_READ, flags) != SwapFamily
    ensures Handler(FI_ATOMIC_READ, flags) == NoHandler ==> EchoOf(FI_ATOMIC_READ, flags) == NoEcho
  {
  }

  /** One call of smr_do_atomic: the handler family, the target range, the
      offset into the operand (and comparand) buffer, and the echo. */
  datatype AtomicApp = AtomicApp(family: Family, addr: nat, count: nat, srcOffset: nat,
                                 withCompare: bool, echo: Echo)

  /** The length loop of smr_progress_inline_atomic and
      smr_progress_inject_atomic stops after visiting `k` descriptors with
      accumulated length `len`: it visits descriptors while some remain and
      the length is still below `size`. */
  ghost predicate Walked(d: seq<RmaIov>, size: nat, unit: nat, k: nat, len: nat)
  {
    && k <= |d|
    && len == Covered(d[..k], unit)
    && (k == |d| || len >= size)
    && forall j :: 0 <= j < k ==> Covered(d[..j], unit) < size
  }

  /** The calls of smr_do_atomic made for the first |apps| descriptors. */
  ghost predicate Applied(apps: seq<AtomicApp>, d: seq<RmaIov>, unit: nat, op: nat,
                          flags: set<Flag>, compare: bool)
  {
    && |apps| <= |d|
    && forall j :: 0 <= j < |apps| ==>
         apps[j] == AtomicApp(Handler(op, flags), d[j].addr, d[j].len, Covered(d[..j], unit),
                              compare, EchoOf(op, flags))
  }

  lemma CoveredNext(d: seq<RmaIov>, i: nat, unit: nat)
    requires i < |d|
    ensures Covered(d[..i + 1], unit) == Covered(d[..i], unit) + d[i].len * unit
  {
    assert d[..i + 1][..i] == d[..i];
  }

  lemma AppliedSnoc(apps: seq<AtomicApp>, d: seq<RmaIov>, unit: nat, op: nat, flags: set<Flag>, compare: bool)
    requires Applied(apps, d, unit, op, flags, compare) && |apps| < |d|
    ensures var i := |apps|;
      Applied(apps + [AtomicApp(Handler(op, flags), d[i].addr, d[i].len, Covered(d[..i], unit), compare,
                                EchoOf(op, flags))], d, unit, op, flags, compare)
  {
  }

  lemma BelowSnoc(d: seq<RmaIov>, unit: nat, size: nat, i: nat)
    requires i < |d| && Covered(d[..i], unit) < size
    requires forall j :: 0 <= j < i ==> Covered(d[..j], unit) < size
    ensures forall j :: 0 <= j < i + 1 ==> Covered(d[..j], unit) < size
  {
  }

  /** The descriptor loop shared by the inline and inject atomic handlers. */
  method WalkAtomics(d: seq<RmaIov>, size: nat, unit: nat, op: nat, flags: set<Flag>, compare: bool)
    returns (len: nat, apps: seq<AtomicApp>)
    ensures Walked(d, size, unit, |apps|, len)
    ensures Applied(apps, d, unit, op, flags, compare)
  {
    len, apps := 0, [];
    var i := 0;
    while i < |d| && len < size
      invariant i <= |d| && |apps| == i
      invariant len == Covered(d[..i], unit)
      invariant forall j :: 0 <= j < i ==> Covered(d[..j], unit) < size
      invariant Applied(apps, d, unit, op, flags, compare)
    {
      AppliedSnoc(apps, d, unit, op, flags, compare);
      BelowSnoc(d, unit, size, i);
      apps := apps + [AtomicApp(Handler(op, flags), d[i].addr, d[i].len, len, compare, EchoOf(op, flags))];
      CoveredNext(d, i, unit);
      len := len + d[i].len * unit;
      i := i + 1;
    }
  }

  /** smr_progress_inline_atomic: the walk, then -FI_EIO unless exactly the
      declared size was consumed. */
  method InlineAtomic(h: Hdr, d: seq<RmaIov>, unit: nat)
    returns (len: nat, err: int, apps: seq<AtomicApp>)
    ensures Walked(d, h.size, unit, |apps|, len)
    ensures Applied(apps, d, unit, h.atomicOp, h.opFlags, h.op == OpAtomicCompare)
    ensures err == (if len != h.size then -FI_EIO else 0)
  {
    len, apps := WalkAtomics(d, h.size, unit, h.atomicOp, h.opFlags, h.op == OpAtomicCompare);
    err := if len != h.size then -FI_EIO else 0;
  }

  lemma {:induction false} SumMonotone(d: seq<RmaIov>, unit: nat, j: nat, k: nat)
    requires j <= k <= |d|
    ensures Covered(d[..j], unit) <= Covered(d[..k], unit)
  {
    if j < k {
      SumMonotone(d, unit, j, k - 1);
      assert d[..k][..k - 1] == d[..k - 1];
    }
  }

  /** The walk's stopping point is unique: its postcondition determines how
      many descriptors were visited. */
  lemma WalkedUnique(d: seq<RmaIov>, size: nat, unit: nat, k1: nat, len1: nat, k2: nat, len2: nat)
    requires Walked(d, size, unit, k1, len1) && Walked(d, size, unit, k2, len2)
    ensures k1 == k2 && len1 == len2
  {
  }

  /** When the descriptors cover exactly the declared size, the walk consumes
      exactly that size: no truncation is reported. */
  lemma ExactCoverNoTruncation(d: seq<RmaIov>, size: nat, unit: nat, k: nat, len: nat)
    requires Walked(d, size, unit, k, len)
    requires Covered(d, unit) == size
    ensures len == size
  {
    assert d[..|d|] == d;
    SumMonotone(d, unit, k, |d|);
  }

  /** When the descriptors cover less than the declared size, the walk visits
      them all and falls short: truncation is reported. */
  lemma ShortCoverTruncates(d: seq<RmaIov>, size: nat, unit: nat, k: nat, len: nat)
    requires Walked(d, size, unit, k, len)
    requires Covered(d, unit) < size
    ensures k == |d| && len < size
  {
    assert d[..|d|] == d;
    SumMonotone(d, unit, k, |d|);
  }
}
