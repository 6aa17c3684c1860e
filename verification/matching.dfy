/** Receive matching: which posted receive an incoming send goes to, and
    which unexpected messages a late-posted receive drains, and in what order.

    The match callbacks themselves (smr_match_msg, smr_match_tagged and their
    unexpected-queue twins) live in the endpoint setup file, which is not part
    of this model; `Accepts` states libfabric's rule: the addresses agree or
    one of them is FI_ADDR_UNSPEC, and for tagged traffic the tags agree on
    every bit the receive's ignore mask does not mask out. */
module Matching {
  import opened Types
  import opened Accounting

  /** struct smr_match_attr, taken from a receive entry. */
  datatype MatchAttr = MatchAttr(addr: nat, tag: bv64, ignore: bv64)

  function AttrOf(e: RxEntry): MatchAttr { MatchAttr(e.addr, e.tag, e.ignore) }

  predicate AddrMatch(a: nat, b: nat) { a == ADDR_UNSPEC || b == ADDR_UNSPEC || a == b }

  predicate TagMatch(tag: bv64, ignore: bv64, t: bv64) { tag | ignore == t | ignore }

  /** A receive with attributes `m` on the untagged (`!tagged`) or tagged list
      accepts a message from `addr` carrying `tag`. */
  predicate Accepts(m: MatchAttr, tagged: bool, addr: nat, tag: bv64) {
    AddrMatch(m.addr, addr) && (tagged ==> TagMatch(m.tag, m.ignore, tag))
  }

  predicate PostedAccepts(e: RxEntry, tagged: bool, h: Hdr) {
    Accepts(AttrOf(e), tagged, h.addr, h.tag)
  }

  predicate UnexpAccepted(m: MatchAttr, tagged: bool, u: UnexpMsg) {
    Accepts(m, tagged, u.cmd.addr, u.cmd.tag)
  }

  /** dlist_find_first_match on a posted-receive list: the first entry, in
      posting order, that accepts the command. */
  function FirstPosted(q: seq<RxEntry>, tagged: bool, h: Hdr): (r: Option<nat>)
    ensures r.Some? ==> r.value < |q| && PostedAccepts(q[r.value], tagged, h)
    ensures r.Some? ==> forall j :: 0 <= j < r.value ==> !PostedAccepts(q[j], tagged, h)
    ensures r.None? ==> forall j :: 0 <= j < |q| ==> !PostedAccepts(q[j], tagged, h)
  {
    if q == [] then None
    else if PostedAccepts(q[0], tagged, h) then Some(0)
    else match FirstPosted(q[1..], tagged, h)
      case None => None
      case Some(i) => Some(i + 1)
  }

  /** The first unexpected message, in arrival order, that the attributes accept. */
  function FirstUnexp(u: seq<UnexpMsg>, m: MatchAttr, tagged: bool): (r: Option<nat>)
    ensures r.Some? ==> r.value < |u| && UnexpAccepted(m, tagged, u[r.value])
    ensures r.Some? ==> forall j :: 0 <= j < r.value ==> !UnexpAccepted(m, tagged, u[j])
    ensures r.None? ==> forall j :: 0 <= j < |u| ==> !UnexpAccepted(m, tagged, u[j])
  {
    if u == [] then None
    else if UnexpAccepted(m, tagged, u[0]) then Some(0)
    else match FirstUnexp(u[1..], m, tagged)
      case None => None
      case Some(i) => Some(i + 1)
  }

  /** The accepted unexpected messages, in arrival order. */
  function Matches(u: seq<UnexpMsg>, m: MatchAttr, tagged: bool): (r: seq<UnexpMsg>)
    ensures |r| <= |u|
  {
    if u == [] then []
    else (if UnexpAccepted(m, tagged, u[0]) then [u[0]] else []) + Matches(u[1..], m, tagged)
  }

  /** dlist_remove_first_match. */
  function RemoveFirstMatch(u: seq<UnexpMsg>, m: MatchAttr, tagged: bool): seq<UnexpMsg>
  {
    match FirstUnexp(u, m, tagged)
    case None => u
    case Some(i) => RemoveAt(u, i)
  }

  /** The queue left after `n` successive dlist_remove_first_match calls. */
  function DropMatches(u: seq<UnexpMsg>, m: MatchAttr, tagged: bool, n: nat): seq<UnexpMsg>
  {
    if n == 0 then u else RemoveFirstMatch(DropMatches(u, m, tagged, n - 1), m, tagged)
  }

  /** The first-match search finds nothing exactly when no message is accepted. */
  lemma {:induction false} MatchesNone(u: seq<UnexpMsg>, m: MatchAttr, tagged: bool)
    ensures FirstUnexp(u, m, tagged).None? <==> Matches(u, m, tagged) == []
  {
    if u != [] {
      MatchesNone(u[1..], m, tagged);
    }
  }

  /** Removing the first accepted message removes the head of `Matches` and
      leaves the order of the other accepted messages alone. */
  lemma {:induction false} MatchesFirst(u: seq<UnexpMsg>, m: MatchAttr, tagged: bool)
    requires FirstUnexp(u, m, tagged).Some?
    ensures var i := FirstUnexp(u, m, tagged).value;
      Matches(u, m, tagged) == [u[i]] + Matches(RemoveAt(u, i), m, tagged)
  {
    var i := FirstUnexp(u, m, tagged).value;
    if UnexpAccepted(m, tagged, u[0]) {
      assert RemoveAt(u, 0) == u[1..];
    } else {
      var t := u[1..];
      MatchesFirst(t, m, tagged);
      var r := RemoveAt(u, i);
      assert r[0] == u[0];
      assert r[1..] == RemoveAt(t, i - 1);
      assert Matches(u, m, tagged) == Matches(t, m, tagged);
      assert Matches(r, m, tagged) == Matches(r[1..], m, tagged);
      assert t[i - 1] == u[i];
    }
  }

  lemma MatchesStep(u: seq<UnexpMsg>, m: MatchAttr, tagged: bool)
    ensures FirstUnexp(u, m, tagged).None? <==> Matches(u, m, tagged) == []
    ensures FirstUnexp(u, m, tagged).Some? ==>
      var i := FirstUnexp(u, m, tagged).value;
      Matches(u, m, tagged) == [u[i]] + Matches(RemoveAt(u, i), m, tagged)
  {
    MatchesNone(u, m, tagged);
    if FirstUnexp(u, m, tagged).Some? {
      MatchesFirst(u, m, tagged);
    }
  }

  /** One dlist_remove_first_match on a queue holding an accepted message
      takes out the first accepted message and nothing else. */
  lemma RemoveFirstMatchStep(d: seq<UnexpMsg>, m: MatchAttr, tagged: bool, f: UnexpMsg -> multiset<nat>)
    requires Matches(d, m, tagged) != []
    ensures Matches(RemoveFirstMatch(d, m, tagged), m, tagged) == Matches(d, m, tagged)[1..]
    ensures Bag(d, f) == Bag(RemoveFirstMatch(d, m, tagged), f) + f(Matches(d, m, tagged)[0])
  {
    MatchesStep(d, m, tagged);
    var i := FirstUnexp(d, m, tagged).value;
    BagRemove(d, i, f);
  }

  /** Draining `n` messages with repeated dlist_remove_first_match takes exactly
      the first `n` accepted messages, in arrival order, and takes their pool
      slots and inject buffers out of the queue's bags. */
  lemma {:induction false} DropMatchesSpec(u: seq<UnexpMsg>, m: MatchAttr, tagged: bool, n: nat,
                                           f: UnexpMsg -> multiset<nat>)
    requires n <= |Matches(u, m, tagged)|
    ensures Matches(DropMatches(u, m, tagged, n), m, tagged) == Matches(u, m, tagged)[n..]
    ensures Bag(u, f) == Bag(DropMatches(u, m, tagged, n), f) + Bag(Matches(u, m, tagged)[..n], f)
  {
    var ms := Matches(u, m, tagged);
    if n == 0 {
      assert ms[..0] == [];
    } else {
      DropMatchesSpec(u, m, tagged, n - 1, f);
      var d := DropMatches(u, m, tagged, n - 1);
      RemoveFirstMatchStep(d, m, tagged, f);
      TakeNext(ms, n - 1);
      BagSnoc(ms[..n - 1], ms[n - 1], f);
    }
  }

  lemma {:induction false} SlotBagKeys(ms: seq<UnexpMsg>)
    ensures Support(Bag(ms, UnexpSlot)) == UnexpSlotSet(ms)
  {
    if ms != [] {
      SlotBagKeys(ms[1..]);
      assert UnexpSlotSet(ms) == {ms[0].slot} + UnexpSlotSet(ms[1..]) by {
        assert forall x :: x in ms <==> x == ms[0] || x in ms[1..];
      }
    }
  }

  /** A receive that drains `n` accepted messages hands back exactly their
      inject buffers to the free inject pool, none of which was free before,
      and every buffer stays accounted for. */
  lemma InjectDrain(q: seq<Slot>, u: seq<UnexpMsg>, o: seq<UnexpMsg>, free: set<nat>,
                    held: multiset<nat>, all: set<nat>, m: MatchAttr, tagged: bool, n: nat)
    requires InjectPool(q, u, o, free, held, all) && n <= |Matches(u, m, tagged)|
    ensures free !! InjectSet(Matches(u, m, tagged)[..n])
    ensures InjectPool(q, DropMatches(u, m, tagged, n), o,
                       free + InjectSet(Matches(u, m, tagged)[..n]), held, all)
  {
    var ms := Matches(u, m, tagged);
    DropMatchesSpec(u, m, tagged, n, UnexpInjectRef);
    var b := Bag(ms[..n], UnexpInjectRef);
    var rest := Bag(q, SlotInjectRef) + Bag(DropMatches(u, m, tagged, n), UnexpInjectRef) +
                Bag(o, UnexpInjectRef) + held;
    PushAll(free, b, rest, all);
    assert Support(b) == InjectSet(ms[..n]);
  }

  /** A receive that drains `n` accepted messages pushes exactly their
      entries back on the unexpected-message pool, none of which was free
      before. */
  lemma UnexpDrain(u: seq<UnexpMsg>, o: seq<UnexpMsg>, free: set<nat>, all: set<nat>,
                   m: MatchAttr, tagged: bool, n: nat)
    requires UnexpPool(u, o, free, all) && n <= |Matches(u, m, tagged)|
    ensures free !! UnexpSlotSet(Matches(u, m, tagged)[..n])
    ensures UnexpPool(DropMatches(u, m, tagged, n), o, free + UnexpSlotSet(Matches(u, m, tagged)[..n]), all)
  {
    var ms := Matches(u, m, tagged);
    DropMatchesSpec(u, m, tagged, n, UnexpSlot);
    var b := Bag(ms[..n], UnexpSlot);
    PushAll(free, b, Bag(DropMatches(u, m, tagged, n), UnexpSlot) + Bag(o, UnexpSlot), all);
    SlotBagKeys(ms[..n]);
  }

  /** The (n+1)-th dlist_remove_first_match takes the (n+1)-th accepted
      message: the one the first match of what is left points at. */
  lemma DrainNext(u: seq<UnexpMsg>, m: MatchAttr, tagged: bool, n: nat)
    requires n <= |Matches(u, m, tagged)|
    requires FirstUnexp(DropMatches(u, m, tagged, n), m, tagged).Some?
    ensures n < |Matches(u, m, tagged)|
    ensures DropMatches(u, m, tagged, n)[FirstUnexp(DropMatches(u, m, tagged, n), m, tagged).value]
            == Matches(u, m, tagged)[n]
  {
    DropMatchesSpec(u, m, tagged, n, UnexpSlot);
    MatchesStep(DropMatches(u, m, tagged, n), m, tagged);
  }

  /** dlist_remove_first_match finds nothing exactly when every accepted
      message has been drained. */
  lemma DrainEnd(u: seq<UnexpMsg>, m: MatchAttr, tagged: bool, n: nat)
    requires n <= |Matches(u, m, tagged)|
    ensures FirstUnexp(DropMatches(u, m, tagged, n), m, tagged).None? <==> n == |Matches(u, m, tagged)|
  {
    DropMatchesSpec(u, m, tagged, n, UnexpSlot);
    MatchesStep(DropMatches(u, m, tagged, n), m, tagged);
  }
}
