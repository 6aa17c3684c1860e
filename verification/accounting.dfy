/** Multiset bookkeeping of the fixed pools: which inject buffers, receive
    entries and unexpected-message entries each queue currently holds. */
module Accounting {
  import opened Types

  /** The multiset union of `f` over the elements of `s`. */
  function Bag<T>(s: seq<T>, f: T -> multiset<nat>): multiset<nat>
  {
    if s == [] then multiset{} else f(s[0]) + Bag(s[1..], f)
  }

  lemma Assoc<T>(a: seq<T>, b: seq<T>, c: seq<T>)
    ensures a + b + c == a + (b + c)
  {
  }

  /** Taking one more element of `s`, and dropping one more. */
  lemma TakeNext<T>(s: seq<T>, n: nat)
    requires n < |s|
    ensures s[..n + 1] == s[..n] + [s[n]]
    ensures s[n..][0] == s[n] && s[n..][1..] == s[n + 1..]
  {
  }

  lemma {:induction false} BagAppend<T>(a: seq<T>, b: seq<T>, f: T -> multiset<nat>)
    ensures Bag(a + b, f) == Bag(a, f) + Bag(b, f)
  {
    if a == [] {
      assert a + b == b;
    } else {
      assert (a + b)[1..] == a[1..] + b;
      BagAppend(a[1..], b, f);
    }
  }

  function RemoveAt<T>(s: seq<T>, i: nat): (r: seq<T>)
    requires i < |s|
    ensures |r| == |s| - 1
    ensures forall j :: 0 <= j < i ==> r[j] == s[j]
    ensures forall j :: i <= j < |r| ==> r[j] == s[j + 1]
  {
    s[..i] + s[i + 1..]
  }

  /** Taking one element out of a sequence takes its share out of the bag. */
  lemma BagRemove<T>(s: seq<T>, i: nat, f: T -> multiset<nat>)
    requires i < |s|
    ensures Bag(s, f) == f(s[i]) + Bag(RemoveAt(s, i), f)
  {
    var a, b := s[..i], s[i + 1..];
    assert s == a + ([s[i]] + b);
    BagAppend(a, [s[i]] + b, f);
    assert Bag([s[i]] + b, f) == f(s[i]) + Bag(b, f) by {
      assert ([s[i]] + b)[1..] == b;
    }
    BagAppend(a, b, f);
    assert RemoveAt(s, i) == a + b;
  }

  /** Replacing an element by one with the same share leaves the bag unchanged. */
  lemma BagUpdate<T>(s: seq<T>, i: nat, x: T, f: T -> multiset<nat>)
    requires i < |s| && f(x) == f(s[i])
    ensures Bag(s[i := x], f) == Bag(s, f)
  {
    BagRemove(s, i, f);
    BagRemove(s[i := x], i, f);
    assert RemoveAt(s[i := x], i) == RemoveAt(s, i);
  }

  lemma BagSnoc<T>(s: seq<T>, x: T, f: T -> multiset<nat>)
    ensures Bag(s + [x], f) == Bag(s, f) + f(x)
  {
    BagAppend(s, [x], f);
    assert Bag([x], f) == f(x) + Bag([], f);
  }

  /** The inject buffer a command owns in the local region, if any. */
  function HdrInjectRef(h: Hdr): multiset<nat>
  {
    if h.opSrc == SrcInject && CarriesPayload(h.op) then multiset{h.srcData} else multiset{}
  }

  function SlotInjectRef(s: Slot): multiset<nat>
  {
    match s
    case CmdSlot(h) => HdrInjectRef(h)
    case RmaSlot(_) => multiset{}
  }

  function UnexpInjectRef(m: UnexpMsg): multiset<nat> { HdrInjectRef(m.cmd) }

  function UnexpSlot(m: UnexpMsg): multiset<nat> { multiset{m.slot} }

  function RecvSlot(e: RxEntry): multiset<nat> { multiset{e.slot} }

  /** The slots of a sequence of unexpected messages, as a set. */
  function UnexpSlotSet(ms: seq<UnexpMsg>): (r: set<nat>)
    ensures forall m :: m in ms ==> m.slot in r
    ensures forall s :: s in r ==> exists m :: m in ms && m.slot == s
  {
    set m | m in ms :: m.slot
  }

  /** Putting back an element that the pool accounting says is out of the pool
      adds exactly one copy: a push never duplicates a free entry. */
  lemma PushFresh(free: set<nat>, b: nat, rest: multiset<nat>, all: set<nat>)
    requires multiset(free) + multiset{b} + rest == multiset(all)
    ensures b !in free
    ensures multiset(free + {b}) == multiset(free) + multiset{b}
  {
    assert multiset(all)[b] <= 1;
    assert (multiset(free) + multiset{b} + rest)[b] == multiset(free)[b] + 1 + rest[b];
  }

  /** Taking a member out of a free pool removes exactly one copy. */
  lemma PopMember(free: set<nat>, b: nat)
    requires b in free
    ensures multiset(free - {b}) + multiset{b} == multiset(free)
  {
    assert free == (free - {b}) + {b};
  }

  lemma BagFirst<T>(s: seq<T>, f: T -> multiset<nat>)
    requires |s| >= 1
    ensures Bag(s[..1], f) == f(s[0])
  {
    assert Bag(s[..1], f) == f(s[0]) + Bag(s[..1][1..], f);
  }

  lemma BagFirstTwo<T>(s: seq<T>, f: T -> multiset<nat>)
    requires |s| >= 2
    ensures Bag(s[..2], f) == f(s[0]) + f(s[1])
  {
    assert s[..2] == s[..1] + [s[1]];
    BagSnoc(s[..1], s[1], f);
    BagFirst(s, f);
  }

  /** Every posted entry has at least one iov. */
  ghost predicate Buffered(q: seq<RxEntry>)
  {
    forall j :: 0 <= j < |q| ==> q[j].iov != []
  }

  /** The receive entries `all` are each posted once on `a` or `b`, or free,
      and every posted entry has a buffer. */
  ghost predicate RecvPool(a: seq<RxEntry>, b: seq<RxEntry>, free: set<nat>, all: set<nat>)
  {
    Bag(a, RecvSlot) + Bag(b, RecvSlot) + multiset(free) == multiset(all) && Buffered(a) && Buffered(b)
  }

  /** Shrinking the first iov of a posted entry keeps the pool intact. */
  lemma PoolShrink(a: seq<RxEntry>, b: seq<RxEntry>, free: set<nat>, all: set<nat>, i: nat, v: Iov)
    requires RecvPool(a, b, free, all) && i < |a|
    ensures RecvPool(a[i := a[i].(iov := a[i].iov[0 := v])], b, free, all)
  {
    BagUpdate(a, i, a[i].(iov := a[i].iov[0 := v]), RecvSlot);
  }

  /** Taking a posted entry off its list and pushing it on the free pool
      keeps the pool intact. */
  lemma PoolRetire(a: seq<RxEntry>, b: seq<RxEntry>, free: set<nat>, all: set<nat>, i: nat)
    requires RecvPool(a, b, free, all) && i < |a|
    ensures a[i].slot !in free
    ensures RecvPool(RemoveAt(a, i), b, free + {a[i].slot}, all)
  {
    BagRemove(a, i, RecvSlot);
    PushFresh(free, a[i].slot, Bag(RemoveAt(a, i), RecvSlot) + Bag(b, RecvSlot), all);
  }

  /** Every inject buffer of the region `all` is owned by a command of the
      queue `q`, by an unexpected message of `u` or `o`, is free, or is held
      elsewhere (`held`). */
  ghost predicate InjectPool(q: seq<Slot>, u: seq<UnexpMsg>, o: seq<UnexpMsg>, free: set<nat>,
                             held: multiset<nat>, all: set<nat>)
  {
    Bag(q, SlotInjectRef) + Bag(u, UnexpInjectRef) + Bag(o, UnexpInjectRef) + multiset(free) + held
      == multiset(all)
  }

  /** Consuming the first `k` slots of the command queue and holding on to
      the buffers they own elsewhere keeps every buffer accounted for. */
  lemma InjectKeep(q: seq<Slot>, u: seq<UnexpMsg>, o: seq<UnexpMsg>, free: set<nat>,
                   held: multiset<nat>, all: set<nat>, k: nat)
    requires InjectPool(q, u, o, free, held, all) && k <= |q|
    ensures InjectPool(q[k..], u, o, free, held + Bag(q[..k], SlotInjectRef), all)
  {
    assert q == q[..k] + q[k..];
    BagAppend(q[..k], q[k..], SlotInjectRef);
  }

  /** Consuming the first `k` slots of the command queue, which own the one
      buffer `b`, and pushing `b` on the free pool keeps every buffer
      accounted for; `b` was not free before. */
  lemma InjectRelease(q: seq<Slot>, u: seq<UnexpMsg>, o: seq<UnexpMsg>, free: set<nat>,
                      held: multiset<nat>, all: set<nat>, k: nat, b: nat)
    requires InjectPool(q, u, o, free, held, all) && k <= |q|
    requires Bag(q[..k], SlotInjectRef) == multiset{b}
    ensures b !in free
    ensures InjectPool(q[k..], u, o, free + {b}, held, all)
  {
    InjectKeep(q, u, o, free, held, all, k);
    var rest := Bag(q[k..], SlotInjectRef) + Bag(u, UnexpInjectRef) + Bag(o, UnexpInjectRef) + held;
    PushFresh(free, b, rest, all);
  }

  /** Consuming a one-slot command at the head of the queue and releasing
      the inject buffer it owns, if any. */
  lemma InjectConsume(q: seq<Slot>, u: seq<UnexpMsg>, o: seq<UnexpMsg>, free: set<nat>,
                      held: multiset<nat>, all: set<nat>, h: Hdr)
    requires InjectPool(q, u, o, free, held, all) && |q| >= 1 && q[0] == CmdSlot(h)
    requires CarriesPayload(h.op)
    ensures InjectPool(q[1..], u, o, free + (if h.opSrc == SrcInject then {h.srcData} else {}), held, all)
  {
    BagFirst(q, SlotInjectRef);
    if h.opSrc == SrcInject {
      InjectRelease(q, u, o, free, held, all, 1, h.srcData);
    } else {
      InjectKeep(q, u, o, free, held, all, 1);
      assert held + Bag(q[..1], SlotInjectRef) == held;
    }
  }

  /** Moving the command at the head of the queue, which takes one slot,
      onto the tail of the unexpected list `u` keeps every buffer accounted
      for. */
  lemma InjectEnqueue(q: seq<Slot>, u: seq<UnexpMsg>, o: seq<UnexpMsg>, free: set<nat>,
                      held: multiset<nat>, all: set<nat>, s: nat, h: Hdr)
    requires InjectPool(q, u, o, free, held, all) && |q| >= 1 && q[0] == CmdSlot(h)
    ensures InjectPool(q[1..], u + [UnexpMsg(s, h)], o, free, held, all)
  {
    InjectKeep(q, u, o, free, held, all, 1);
    BagFirst(q, SlotInjectRef);
    BagSnoc(u, UnexpMsg(s, h), UnexpInjectRef);
  }

  /** Taking the j-th unexpected message off its list and releasing the
      buffer it owns, if any, keeps every buffer accounted for. */
  lemma InjectDeliver(q: seq<Slot>, u: seq<UnexpMsg>, o: seq<UnexpMsg>, free: set<nat>,
                      held: multiset<nat>, all: set<nat>, j: nat)
    requires InjectPool(q, u, o, free, held, all) && j < |u| && CarriesPayload(u[j].cmd.op)
    ensures u[j].cmd.opSrc == SrcInject ==> u[j].cmd.srcData !in free
    ensures InjectPool(q, RemoveAt(u, j), o,
                       free + (if u[j].cmd.opSrc == SrcInject then {u[j].cmd.srcData} else {}), held, all)
  {
    BagRemove(u, j, UnexpInjectRef);
    if u[j].cmd.opSrc == SrcInject {
      var rest := Bag(q, SlotInjectRef) + Bag(RemoveAt(u, j), UnexpInjectRef) + Bag(o, UnexpInjectRef) + held;
      PushFresh(free, u[j].cmd.srcData, rest, all);
    }
  }

  /** Every unexpected-message entry of `all` is on list `u` or `o` once,
      or free. */
  ghost predicate UnexpPool(u: seq<UnexpMsg>, o: seq<UnexpMsg>, free: set<nat>, all: set<nat>)
  {
    Bag(u, UnexpSlot) + Bag(o, UnexpSlot) + multiset(free) == multiset(all)
  }

  /** Popping entry `s` from the free pool onto the tail of `u`. */
  lemma UnexpEnqueue(u: seq<UnexpMsg>, o: seq<UnexpMsg>, free: set<nat>, all: set<nat>, s: nat, h: Hdr)
    requires UnexpPool(u, o, free, all) && s in free
    ensures UnexpPool(u + [UnexpMsg(s, h)], o, free - {s}, all)
  {
    BagSnoc(u, UnexpMsg(s, h), UnexpSlot);
    PopMember(free, s);
  }

  /** Taking the j-th message off `u` and pushing its entry on the free pool. */
  lemma UnexpRelease(u: seq<UnexpMsg>, o: seq<UnexpMsg>, free: set<nat>, all: set<nat>, j: nat)
    requires UnexpPool(u, o, free, all) && j < |u|
    ensures u[j].slot !in free
    ensures UnexpPool(RemoveAt(u, j), o, free + {u[j].slot}, all)
  {
    BagRemove(u, j, UnexpSlot);
    PushFresh(free, u[j].slot, Bag(RemoveAt(u, j), UnexpSlot) + Bag(o, UnexpSlot), all);
  }

  /** Every message on `u` is of the kind its list holds. */
  ghost predicate Kind(u: seq<UnexpMsg>, tagged: bool)
  {
    forall j :: 0 <= j < |u| ==> u[j].cmd.op == (if tagged then OpTagged else OpMsg)
  }

  lemma SlotSetSnoc(ms: seq<UnexpMsg>, m: UnexpMsg)
    ensures UnexpSlotSet(ms + [m]) == UnexpSlotSet(ms) + {m.slot}
  {
    assert forall x :: x in ms + [m] <==> x in ms || x == m;
  }

  lemma KindSnoc(u: seq<UnexpMsg>, tagged: bool, m: UnexpMsg)
    requires Kind(u, tagged) && m.cmd.op == (if tagged then OpTagged else OpMsg)
    ensures Kind(u + [m], tagged)
  {
  }

  lemma KindRemove(u: seq<UnexpMsg>, tagged: bool, j: nat)
    requires Kind(u, tagged) && j < |u|
    ensures Kind(RemoveAt(u, j), tagged)
  {
  }

  /** Consuming an RMA or atomic command together with its descriptor
      slot: the inject buffer the command owns, if any, is either pushed
      back on the free pool (`release`) or left with whoever still needs it
      (`held` grows by it). */
  lemma InjectRma(q: seq<Slot>, u: seq<UnexpMsg>, o: seq<UnexpMsg>, free: set<nat>,
                  held: multiset<nat>, all: set<nat>, h: Hdr, release: bool)
    requires InjectPool(q, u, o, free, held, all) && |q| >= 2 && q[0] == CmdSlot(h) && q[1].RmaSlot?
    requires TwoSlot(h.op)
    ensures release && h.opSrc == SrcInject ==> h.srcData !in free
    ensures InjectPool(q[2..], u, o,
                       free + (if release && h.opSrc == SrcInject then {h.srcData} else {}),
                       held + (if release then multiset{} else HdrInjectRef(h)), all)
  {
    BagFirstTwo(q, SlotInjectRef);
    if release && h.opSrc == SrcInject {
      InjectRelease(q, u, o, free, held, all, 2, h.srcData);
    } else {
      InjectKeep(q, u, o, free, held, all, 2);
    }
  }

  /** The distinct elements of a bag. */
  function Support(b: multiset<nat>): (r: set<nat>)
    ensures forall x :: x in r <==> x in b
  {
    set x | x in b
  }

  /** The inject buffers that the unexpected messages `ms` own. */
  function InjectSet(ms: seq<UnexpMsg>): (r: set<nat>)
    ensures forall b :: b in r <==> b in Bag(ms, UnexpInjectRef)
  {
    if ms == [] then {} else Support(UnexpInjectRef(ms[0])) + InjectSet(ms[1..])
  }

  /** Pushing on a free pool every element of a bag that the pool
      accounting says is out of the pool adds exactly one copy of each. */
  lemma PushAll(free: set<nat>, b: multiset<nat>, rest: multiset<nat>, all: set<nat>)
    requires multiset(free) + b + rest == multiset(all)
    ensures free !! Support(b)
    ensures multiset(free + Support(b)) == multiset(free) + b
  {
    forall x | x in Support(b)
      ensures x !in free && b[x] == 1
    {
      assert (multiset(free) + b + rest)[x] == multiset(free)[x] + b[x] + rest[x];
    }
    forall x
      ensures multiset(free + Support(b))[x] == (multiset(free) + b)[x]
    {
      if x in Support(b) {
        assert b[x] == 1 && x !in free;
      }
    }
  }

  lemma InjectSetSnoc(ms: seq<UnexpMsg>, m: UnexpMsg)
    ensures InjectSet(ms + [m]) == InjectSet(ms) + Support(UnexpInjectRef(m))
  {
    BagSnoc(ms, m, UnexpInjectRef);
  }
}
