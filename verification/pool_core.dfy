/**
  The bookkeeping state machine of the ProxyToys object pool.

  A pool lends out instances wrapped in proxies ("handles"). It keeps the
  instances that can be lent in a list, and the lent ones in a hash map from
  the raw instance to a weak reference on the handle that was given out.

  What the runtime decides is passed in explicitly:
  - garbage collection is a set `dead` of handle ids whose weak reference has
    been cleared at the moment of a sweep;
  - the pool's `Resetter` is a function `reset` that answers whether a
    returning instance may be lent again;
  - the iteration order of the hash map's key set is a sequence `order` that
    enumerates the keys of `busy`.
 */
module PoolCore {
  import opened SeqFacts

  /** Identity of a handle, standing for the proxy object the weak reference observes. */
  type HandleId = nat

  /** Identity of a pool object. */
  type PoolId = nat

  datatype Option<T> = None | Some(value: T)

  /** What survives a serialization of the pool. */
  datatype SerializationMode = STANDARD | NONE | FORCE

  /** The exceptions raised by the pool's operations. */
  datatype Error =
    | NullPointer      // a null element given to add, or null given to release
    | ClassCast        // release of something that is not a pool proxy
    | IllegalArgument  // release of a proxy minted by another pool
    | NotSerializable  // serialization of an element or field that cannot be written

  /** A proxy given out by `Get`: the pool that minted it, the wrapped instance, its identity. */
  datatype Handle<T> = Handle(pool: PoolId, instance: T, id: HandleId)

  /**
    The pool's state. `available` is the list of lendable instances (lent from
    the head); `busy` maps each lent instance to the handle it was lent under;
    `nextHandle` is the identity the next handle will get. Keys of `busy` are
    compared with Dafny's `==`, which stands for `equals` and `hashCode` of an
    instance type that keeps their contract.
   */
  datatype Pool<T> = Pool(
    id: PoolId,
    available: seq<T>,
    busy: map<T, HandleId>,
    nextHandle: HandleId,
    mode: SerializationMode)

  /** The outcome of an operation that may raise: the new state, the exception, whether waiters were notified. */
  datatype Step<T> = Step(pool: Pool<T>, error: Option<Error>, notified: bool)

  /**
    The outcome of `Get`: the new state, the handle (or `None` for Java's
    null), and whether the sweep run inside `get` notified the waiters.
   */
  datatype Got<T> = Got(pool: Pool<T>, handle: Option<Handle<T>>, notified: bool)

  /** The outcome of a sweep: the new state, the number returned by `getAvailable`, whether waiters were notified. */
  datatype Swept<T> = Swept(pool: Pool<T>, count: nat, notified: bool)

  /** The number of instances the pool manages, lent or not. */
  function Size<T>(p: Pool<T>): nat {
    |p.available| + |p.busy|
  }

  /** Every lent instance is recorded under a handle minted before `nextHandle`. */
  predicate Valid<T>(p: Pool<T>) {
    forall k :: k in p.busy ==> p.busy[k] < p.nextHandle
  }

  /** The lent instances whose handle has been collected. */
  function Reclaimable<T>(p: Pool<T>, dead: set<HandleId>): set<T> {
    set k | k in p.busy && p.busy[k] in dead
  }

  /** The reclaimable instances the resetter lets back into the pool. */
  function Readmitted<T>(p: Pool<T>, dead: set<HandleId>, reset: T -> bool): set<T> {
    set k | k in Reclaimable(p, dead) && reset(k)
  }

  /** The reclaimable instances the resetter drops from the pool. */
  function Dropped<T>(p: Pool<T>, dead: set<HandleId>, reset: T -> bool): set<T> {
    set k | k in Reclaimable(p, dead) && !reset(k)
  }

  // ---------------------------------------------------------------- add

  /**
    The loop of `add`: appends the values of `xs` to `acc` one by one and stops
    at the first null, reporting whether the whole array was consumed.
   */
  function AppendEach<T>(acc: seq<T>, xs: seq<Option<T>>): (r: (seq<T>, bool))
    ensures acc <= r.0 && |r.0| - |acc| <= |xs|
    ensures forall i :: 0 <= i < |r.0| - |acc| ==> xs[i] == Some(r.0[|acc| + i])
    ensures r.1 <==> |r.0| - |acc| == |xs|
    ensures !r.1 ==> xs[|r.0| - |acc|].None?
    decreases |xs|
  {
    if xs == [] then (acc, true)
    else match xs[0]
      case None => (acc, false)
      case Some(x) => AppendEach(acc + [x], xs[1..])
  }

  /**
    `add(T...)`. A null array changes nothing and notifies nobody. Otherwise the
    elements are appended in order up to the first null, which raises a
    NullPointerException with the earlier elements already added; when no
    element is null the waiters are notified, even for an empty array.
   */
  function Add<T>(p: Pool<T>, instances: Option<seq<Option<T>>>): (r: Step<T>)
    ensures instances.None? ==> r == Step(p, None, false)
    ensures instances.Some? ==>
      var xs := instances.value;
      && r.pool == p.(available := r.pool.available)
      && p.available <= r.pool.available
      && var k := |r.pool.available| - |p.available|;
      && k <= |xs|
      && (forall i :: 0 <= i < k ==> xs[i] == Some(r.pool.available[|p.available| + i]))
      && (k == |xs| ==> r.error == None && r.notified)
      && (k < |xs| ==> xs[k] == None && r.error == Some(NullPointer) && !r.notified)
    ensures Valid(p) ==> Valid(r.pool)
  {
    match instances
    case None => Step(p, None, false)
    case Some(xs) =>
      var (avail, complete) := AppendEach(p.available, xs);
      Step(p.(available := avail), if complete then None else Some(NullPointer), complete)
  }

  // ---------------------------------------------------------------- sweep

  /**
    The first loop of `getAvailable`: the keys, in iteration order, whose
    weak reference has been cleared.
   */
  function Freed<T>(order: seq<T>, busy: map<T, HandleId>, dead: set<HandleId>): (r: seq<T>)
    ensures forall x :: x in r ==> x in order && x in busy && busy[x] in dead
    ensures forall x :: x in order && x in busy && busy[x] in dead ==> x in r
    ensures Distinct(order) ==> Distinct(r)
    decreases |order|
  {
    if order == [] then []
    else
      var last := order[|order| - 1];
      var front := order[..|order| - 1];
      assert forall x :: x in order ==> x in front || x == last;
      Freed(front, busy, dead) + (if last in busy && busy[last] in dead then [last] else [])
  }

  /** The second loop of `getAvailable`: the freed instances the resetter accepts, in order. */
  function Kept<T>(freed: seq<T>, reset: T -> bool): (r: seq<T>)
    ensures forall x :: x in r ==> x in freed && reset(x)
    ensures forall x :: x in freed && reset(x) ==> x in r
    ensures Distinct(freed) ==> Distinct(r)
    decreases |freed|
  {
    if freed == [] then []
    else
      var last := freed[|freed| - 1];
      var front := freed[..|freed| - 1];
      assert forall x :: x in freed ==> x in front || x == last;
      Kept(front, reset) + (if reset(last) then [last] else [])
  }

  /**
    The reclamation sweep of `getAvailable`. When something is lent, every lent
    instance whose handle is dead leaves `busy`; those the resetter accepts
    are appended to `available` (in an order fixed by the key iteration), the
    others are dropped. Live entries are untouched. Waiters are notified iff
    something was reclaimed. The count is the new number of lendable instances.
   */
  function Sweep<T>(p: Pool<T>, dead: set<HandleId>, order: seq<T>, reset: T -> bool): (r: Swept<T>)
    requires Enumerates(order, p.busy.Keys)
    ensures r.pool == p.(available := r.pool.available, busy := r.pool.busy)
    ensures forall k :: k in r.pool.busy ==> k in p.busy && p.busy[k] !in dead && r.pool.busy[k] == p.busy[k]
    ensures forall k :: k in p.busy && p.busy[k] !in dead ==> k in r.pool.busy
    ensures p.available <= r.pool.available
    ensures Distinct(r.pool.available[|p.available|..])
    ensures Elems(r.pool.available[|p.available|..]) == Readmitted(p, dead, reset)
    ensures r.count == |r.pool.available|
    ensures r.notified <==> Reclaimable(p, dead) != {}
    ensures Valid(p) ==> Valid(r.pool)
  {
    if |p.busy| == 0 then
      assert Reclaimable(p, dead) == {};
      Swept(p, |p.available|, false)
    else
      var freed := Freed(order, p.busy, dead);
      var kept := Kept(freed, reset);
      var q := p.(available := p.available + kept, busy := p.busy - Elems(freed));
      assert q.available[|p.available|..] == kept;
      assert |freed| > 0 <==> Reclaimable(p, dead) != {} by {
        if |freed| > 0 {
          assert freed[0] in Reclaimable(p, dead);
        }
      }
      Swept(q, |q.available|, |freed| > 0)
  }

  // ---------------------------------------------------------------- return

  /**
    `returnInstanceToPool`: the instance leaves `busy` (whether or not it was
    there) and is appended to `available` iff the resetter accepts it. The
    waiters are notified whatever the resetter answers.
   */
  function ReturnInstanceToPool<T>(p: Pool<T>, x: T, reset: T -> bool): (r: Step<T>)
    ensures r.error == None && r.notified
    ensures r.pool.id == p.id && r.pool.nextHandle == p.nextHandle && r.pool.mode == p.mode
    ensures r.pool.busy.Keys == p.busy.Keys - {x}
    ensures forall k :: k in r.pool.busy ==> r.pool.busy[k] == p.busy[k]
    ensures reset(x) ==> r.pool.available == p.available + [x]
    ensures !reset(x) ==> r.pool.available == p.available
    ensures Size(r.pool) == Size(p) - (if x in p.busy then 1 else 0) + (if reset(x) then 1 else 0)
    ensures Valid(p) ==> Valid(r.pool)
  {
    var busy := p.busy - {x};
    var available := if reset(x) then p.available + [x] else p.available;
    Step(p.(available := available, busy := busy), None, true)
  }

  // ---------------------------------------------------------------- get

  /** Lends the head of `available` under a fresh handle; lending itself notifies nobody. */
  function Borrow<T>(p: Pool<T>): (r: Got<T>)
    requires |p.available| > 0
    ensures LentHead(p, r) && !r.notified
    ensures Size(r.pool) == Size(p) - (if p.available[0] in p.busy then 1 else 0)
    ensures Valid(p) ==> Valid(r.pool)
  {
    var x := p.available[0];
    Got(p.(available := p.available[1..], busy := p.busy[x := p.nextHandle], nextHandle := p.nextHandle + 1),
        Some(Handle(p.id, x, p.nextHandle)), false)
  }

  /**
    `r` is `p` after lending its head: the handle belongs to `p` and wraps
    the former head, the rest of `available` keeps its order, the head is now
    recorded in `busy` under the handle's (fresh) identity, and nothing else
    in `busy` changes.
   */
  predicate LentHead<T>(p: Pool<T>, r: Got<T>) {
    && |p.available| > 0
    && r.handle.Some?
    && var h := r.handle.value;
    && h.pool == p.id
    && h.instance == p.available[0]
    && r.pool.id == p.id && r.pool.mode == p.mode
    && r.pool.available == p.available[1..]
    && r.pool.busy.Keys == p.busy.Keys + {h.instance}
    && r.pool.busy[h.instance] == h.id
    && (forall k :: k in p.busy && k != h.instance ==> r.pool.busy[k] == p.busy[k])
    && h.id == p.nextHandle && r.pool.nextHandle > h.id
    && (Valid(p) ==> h.id !in p.busy.Values)
  }

  /**
    `get()`. With something available the head of `p` is lent and no sweep
    runs. Otherwise the sweep runs first; the result is null iff the sweep
    made nothing available, else the head of the swept pool is lent, and the
    waiters are notified iff that sweep notified them.
   */
  function Get<T>(p: Pool<T>, dead: set<HandleId>, order: seq<T>, reset: T -> bool): (r: Got<T>)
    requires Enumerates(order, p.busy.Keys)
    ensures var s := if |p.available| > 0 then p else Sweep(p, dead, order, reset).pool;
      && (r.handle.None? <==> |s.available| == 0)
      && (r.handle.None? ==> r.pool == s)
      && (r.handle.Some? ==> LentHead(s, r))
    ensures |p.available| > 0 ==> !r.notified
    ensures |p.available| == 0 ==> r.notified == Sweep(p, dead, order, reset).notified
    ensures |p.available| > 0 ==>
      Size(r.pool) == Size(p) - (if p.available[0] in p.busy then 1 else 0)
    ensures Valid(p) ==> Valid(r.pool)
  {
    if |p.available| > 0 then Borrow(p) else LendSwept(Sweep(p, dead, order, reset))
  }

  /**
    The part of `get()` after a sweep: null iff the sweep made nothing
    available, else the head is lent; the sweep's notification is passed on.
   */
  function LendSwept<T>(s: Swept<T>): (r: Got<T>)
    requires s.count == |s.pool.available|
    ensures r.notified == s.notified
    ensures r.handle.None? <==> |s.pool.available| == 0
    ensures r.handle.None? ==> r.pool == s.pool
    ensures r.handle.Some? ==> LentHead(s.pool, r)
    ensures Valid(s.pool) ==> Valid(r.pool)
  {
    if s.count > 0 then Borrow(s.pool).(notified := s.notified) else Got(s.pool, None, s.notified)
  }

  // ---------------------------------------------------------------- release

  /** What `release` may be handed: null, a plain object, or a pool proxy. */
  datatype Ref<T> = Null | Plain(value: T) | Proxy(handle: Handle<T>)

  /** A call made on a handle: the trapped `returnInstanceToPool`, or any other method. */
  datatype Call = ReturnInstanceToPoolCall | Other(name: string)

  /** What the proxy's invoker does with a call. */
  datatype Dispatch<T> = Trapped(step: Step<T>) | Forwarded(target: T)

  /**
    The invoker behind a handle: the return method is trapped and sent to the
    handle's own pool; every other call goes to the wrapped instance.
   */
  function Invoke<T>(p: Pool<T>, h: Handle<T>, call: Call, reset: T -> bool): (r: Dispatch<T>)
    requires h.pool == p.id
    ensures r.Trapped? <==> call == ReturnInstanceToPoolCall
    ensures r.Trapped? ==> r.step == ReturnInstanceToPool(p, h.instance, reset)
    ensures r.Forwarded? ==> r.target == h.instance
  {
    match call
    case ReturnInstanceToPoolCall => Trapped(ReturnInstanceToPool(p, h.instance, reset))
    case Other(_) => Forwarded(h.instance)
  }

  /**
    `release(object)`, with the object as `arg`. Null dereferences into a NullPointerException, a value
    that is no pool proxy is a ClassCastException, a proxy of another pool is
    an IllegalArgumentException; each leaves the pool as it was. A proxy of
    this pool is returned exactly as its own `returnInstanceToPool` would.
   */
  function Release<T>(p: Pool<T>, arg: Ref<T>, reset: T -> bool): (r: Step<T>)
    ensures arg.Null? ==> r == Step(p, Some(NullPointer), false)
    ensures arg.Plain? ==> r == Step(p, Some(ClassCast), false)
    ensures arg.Proxy? && arg.handle.pool != p.id ==> r == Step(p, Some(IllegalArgument), false)
    ensures arg.Proxy? && arg.handle.pool == p.id ==>
      r == ReturnInstanceToPool(p, arg.handle.instance, reset)
    ensures r.error.None? <==> arg.Proxy? && arg.handle.pool == p.id
  {
    match arg
    case Null => Step(p, Some(NullPointer), false)
    case Plain(_) => Step(p, Some(ClassCast), false)
    case Proxy(h) =>
      if p.id != h.pool then Step(p, Some(IllegalArgument), false)
      else Invoke(p, h, ReturnInstanceToPoolCall, reset).step
  }
}
