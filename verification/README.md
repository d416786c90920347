# ProxyToys object pool, modelled in Dafny

This project models the bookkeeping of ProxyToys' `Pool<T>`. The pool keeps
a list of instances that can be lent (`availableInstances`) and a hash map
from each lent instance to a weak reference on the proxy it was lent under
(`busyInstances`). `get` lends the head of the list wrapped in a proxy.
When the list is empty, `get` first sweeps the map for proxies the garbage
collector has cleared. A `Resetter` decides whether a returning instance is
lent again or dropped. `release` and the proxy's own `returnInstanceToPool`
give an instance back. `writeObject` and `readObject` persist the managed
instances according to a `SerializationMode`.

The model is functional. A pool is an immutable `Pool<T>` value:

- a pool identity;
- the `available` sequence;
- a `busy` map from instance to handle id;
- the id the next handle will get;
- the mode.

Each operation is a pure function from a pool to a new pool, plus what the
Java method returns or throws. Every operation that can call `notifyAll`
(`add`, `get` through its sweep, `getAvailable`, `returnInstanceToPool`,
`release`) also reports whether it did. Three things
the runtime decides become explicit parameters:

- garbage collection: `dead`, the set of handle ids whose weak reference is
  cleared when the sweep runs;
- the resetter: `reset: T -> bool`;
- the hash map's key iteration order: `order`, any duplicate-free sequence
  of exactly the keys of `busy`.

Modules:

- `SeqFacts`: duplicate-free sequences and enumerations of a set.
- `PoolCore`: the state and the operations `add`, the sweep of
  `getAvailable`, `returnInstanceToPool`, `get`, the proxy invoker's trap,
  and `release`.
- `SweepLoop`: the two loops of `getAvailable`, written as methods whose
  results are proved equal to the functional sweep.
- `Serialization`: `writeObject`, `readObject` and their round trips.
- `PoolProperties`: properties that relate several operations or runs.
  These cover size accounting, independence from the iteration order,
  reclaiming as returning, the exclusivity invariant, and the quirks of
  keying `busy` by instance.
- `Scenarios`: the unit tests' expectations, replayed on integer
  instances. Where a test relies on a garbage collection, it is stated for
  any pool.

Where the code and its documentation differ, the model follows the code:

- `add` with a non-null but empty array still notifies the waiters.
- `add` stops at the first null element with a NullPointerException, and
  the elements before the null have already been appended.
- Nothing in the code stops an instance from being in the pool twice. `add`
  accepts repeats and `returnInstanceToPool` does not check that the
  instance is lent. "Each instance in exactly one place" is therefore the
  predicate `PoolProperties.Exclusive`, and each operation gets a lemma
  stating the conditions under which it preserves `Exclusive`.
- The comment on `getAvailable` (Pool.java:315) says the waiters are
  notified only if an instance was collected and the resetter returned it.
  The code notifies whenever anything was collected, accepted or not
  (Pool.java:337-339). `PoolCore.Sweep` ensures
  `r.notified <==> Reclaimable(p, dead) != {}`.
  `Scenarios.CollectedInstanceDropped` shows a rejected instance still
  notifying.
- The comment on `PoolingInvoker.returnInstanceToPool` (Pool.java:434-435)
  says the waiters are notified if the resetter returns the object. The
  code always notifies (Pool.java:359), and
  `PoolCore.ReturnInstanceToPool` ensures `r.notified` whatever the
  resetter answers. `Scenarios.RejectedReturnShrinks` shows a rejected
  return notifying.

In the table, `Pool.java` stands for
`proxytoys/src/main/java/com/thoughtworks/proxy/toys/pool/Pool.java` and
`PoolTest.java` for
`proxytoys/src/test/java/com/thoughtworks/proxy/toys/pool/PoolTest.java`.
The source cells give the full paths.

## Model

| member | source | states |
|---|---|---|
| PoolCore.AppendEach | proxytoys/src/main/java/com/thoughtworks/proxy/toys/pool/Pool.java:264-269 | The loop of `add` appends the elements in order up to the first null. The old list is a prefix of the result, and each appended element is the corresponding array element. It reports completion iff every element was consumed; if it stops early, the element it stopped at is null. |
| PoolCore.Add | proxytoys/src/main/java/com/thoughtworks/proxy/toys/pool/Pool.java:262-272 | A null array changes nothing and notifies nobody. Otherwise only `available` changes: it grows at the tail by the array's leading non-null elements, in order. If there is no null, there is no error and the waiters are notified, even for an empty array. At a null, the result is a NullPointerException with no notification and the earlier elements kept. Handle validity is preserved. |
| PoolCore.Freed | proxytoys/src/main/java/com/thoughtworks/proxy/toys/pool/Pool.java:322-328 | The first loop of the sweep collects exactly the visited keys whose handle is dead, and it collects no key twice. |
| PoolCore.Kept | proxytoys/src/main/java/com/thoughtworks/proxy/toys/pool/Pool.java:329-335 | The second loop keeps exactly the freed instances the resetter accepts, and it keeps none twice. |
| PoolCore.Sweep | proxytoys/src/main/java/com/thoughtworks/proxy/toys/pool/Pool.java:320-342 | Lent instances with a dead handle leave `busy`; live entries stay with the same handle. The old `available` stays as a prefix, and exactly the reclaimed instances the resetter accepts are appended, each once. The count is the new number available. Waiters are notified iff some handle was reclaimed. |
| PoolCore.ReturnInstanceToPool | proxytoys/src/main/java/com/thoughtworks/proxy/toys/pool/Pool.java:354-360 | The instance leaves `busy` and no other entry changes. It is appended to `available` iff the resetter accepts it. The waiters are notified whatever the resetter says. The size changes by minus one if the instance was lent and plus one if it was accepted. |
| PoolCore.Borrow | proxytoys/src/main/java/com/thoughtworks/proxy/toys/pool/Pool.java:284-287 | The head is lent under a fresh handle of this pool. The tail keeps its order, the head is recorded in `busy` under the handle's id, and every other entry is kept. Lending notifies nobody. |
| PoolCore.Get | proxytoys/src/main/java/com/thoughtworks/proxy/toys/pool/Pool.java:281-292 | With something available, the head is lent, no sweep runs and nobody is notified. Otherwise the sweep runs first. The result is null iff the sweep made nothing available, and then the state is the swept one; otherwise the head of the swept pool is lent. The waiters are notified iff that sweep notified them (`getAvailable` at lines 337-339). Handle validity is preserved. |
| PoolCore.LendSwept | proxytoys/src/main/java/com/thoughtworks/proxy/toys/pool/Pool.java:283-290 | After a sweep, the result is null iff nothing is available, and then the state is the swept one; otherwise the head is lent. The sweep's notification is passed on. |
| PoolCore.Invoke | proxytoys/src/main/java/com/thoughtworks/proxy/toys/pool/Pool.java:423-431 | A call is trapped iff it is `returnInstanceToPool`. The trapped call is exactly the owning pool's return of the wrapped instance; every other call goes to the wrapped instance. |
| PoolCore.Release | proxytoys/src/main/java/com/thoughtworks/proxy/toys/pool/Pool.java:302-310 | The outcome depends on the argument. Null gives a NullPointerException and a plain object a ClassCastException. A proxy of another pool gives an IllegalArgumentException. Each of these leaves the pool unchanged and notifies nobody. A proxy of this pool is exactly that proxy's `returnInstanceToPool`. There is no error iff the argument is a proxy of this pool. |
| SweepLoop.CollectFreed | proxytoys/src/main/java/com/thoughtworks/proxy/toys/pool/Pool.java:322-328 | The loop visits every key of `busy` exactly once, in an order of its choosing. What it collects is exactly the freed keys for that order. |
| SweepLoop.ResetFreed | proxytoys/src/main/java/com/thoughtworks/proxy/toys/pool/Pool.java:329-335 | The loop removes every freed instance from the map and keeps, in order, the ones the resetter accepts. |
| SweepLoop.GetAvailable | proxytoys/src/main/java/com/thoughtworks/proxy/toys/pool/Pool.java:320-342 | The imperative `getAvailable` visits the keys in some order that enumerates `busy`. Its result equals the functional sweep for that order. |
| Serialization.WriteObject | proxytoys/src/main/java/com/thoughtworks/proxy/toys/pool/Pool.java:362-386 | The write fails with NotSerializableException iff the pool's own fields cannot be written, or the mode is STANDARD and some managed instance cannot be written. When the mode is NONE, or some instance cannot be written, the list written is empty. Otherwise the list is `available` followed by each lent instance once. The mode is kept. |
| Serialization.WritableIffAll | proxytoys/src/main/java/com/thoughtworks/proxy/toys/pool/Pool.java:364-379 | The trial write of the list built from `available` and the key set succeeds iff every managed instance can be written. |
| Serialization.ReadObject | proxytoys/src/main/java/com/thoughtworks/proxy/toys/pool/Pool.java:388-394 | The read pool makes the read list its `available` list, lends nothing, keeps the mode, and has the list's length as its size. |
| Serialization.RoundTripKeepsEverything | proxytoys/src/main/java/com/thoughtworks/proxy/toys/pool/Pool.java:362-394 | Take a STANDARD pool, or a FORCE pool whose instances can all be written. It comes back with the same size and nothing lent. The old `available` list is a prefix, and an instance is available iff it was managed before. |
| Serialization.RoundTripEmpties | proxytoys/src/main/java/com/thoughtworks/proxy/toys/pool/Pool.java:369-394 | A NONE pool, or a FORCE pool holding an instance that cannot be written, comes back with size zero. Adding instances afterwards succeeds and makes them available in order. |
| Serialization.StaleHandleRejected | proxytoys/src/main/java/com/thoughtworks/proxy/toys/pool/Pool.java:302-310 | A proxy lent by `p` before a round trip is rejected by the pool read back under a new identity: releasing it raises IllegalArgumentException and changes nothing. |
| PoolProperties.SweepSplits | proxytoys/src/main/java/com/thoughtworks/proxy/toys/pool/Pool.java:336 | After a sweep, `available` is the old list followed by as many instances as were re-admitted. |
| PoolProperties.ReclaimedFate | proxytoys/src/main/java/com/thoughtworks/proxy/toys/pool/Pool.java:330-335 | Every instance whose handle was collected leaves the lent map, and it is among the instances appended to `available` iff the resetter accepts it. |
| PoolProperties.SweepSize | proxytoys/src/main/java/com/thoughtworks/proxy/toys/pool/Pool.java:320-352 | A sweep lowers the size by exactly the number of reclaimed instances the resetter rejects. |
| PoolProperties.SweepBusyOrderFree | proxytoys/src/main/java/com/thoughtworks/proxy/toys/pool/Pool.java:323 | The lent map after a sweep is the same for any two iteration orders of the key set. |
| PoolProperties.SweepAvailableOrderFree | proxytoys/src/main/java/com/thoughtworks/proxy/toys/pool/Pool.java:323-336 | For any two iteration orders, the available lists after the sweep have the same untouched prefix and are permutations of each other. |
| PoolProperties.SweepOrderIrrelevant | proxytoys/src/main/java/com/thoughtworks/proxy/toys/pool/Pool.java:320-342 | Two iteration orders give the same lent map, count and notification, and available lists that are permutations with the same prefix. |
| PoolProperties.QuietSweep | proxytoys/src/main/java/com/thoughtworks/proxy/toys/pool/Pool.java:320-342 | A sweep that finds no cleared handle leaves the pool as it was and notifies nobody. It returns the number available. |
| PoolProperties.ReclaimedSuffix | proxytoys/src/main/java/com/thoughtworks/proxy/toys/pool/Pool.java:330-336 | When only `x` is reclaimed, the sweep appends `x` iff the resetter accepts it. |
| PoolProperties.ReclaimedBusy | proxytoys/src/main/java/com/thoughtworks/proxy/toys/pool/Pool.java:331 | When only `x` is reclaimed, the sweep removes exactly `x` from the lent map. |
| PoolProperties.ReclaimIsReturn | proxytoys/src/main/java/com/thoughtworks/proxy/toys/pool/Pool.java:330-335 | When the only cleared handle is that of `x`, the sweep leaves the pool exactly as `returnInstanceToPool(x)` does. |
| PoolProperties.SweepKeepsExclusive | proxytoys/src/main/java/com/thoughtworks/proxy/toys/pool/Pool.java:320-342 | A sweep keeps every instance in exactly one place. |
| PoolProperties.GetKeepsExclusive | proxytoys/src/main/java/com/thoughtworks/proxy/toys/pool/Pool.java:281-292 | If every instance is in exactly one place, `get` keeps it so. Lending from a non-empty list keeps the size, and lending after a sweep loses only what the sweep drops. |
| PoolProperties.LendKeepsExclusive | proxytoys/src/main/java/com/thoughtworks/proxy/toys/pool/Pool.java:284-287 | Lending the head of an exclusive pool keeps it exclusive and keeps the size. |
| PoolProperties.ReturnKeepsExclusive | proxytoys/src/main/java/com/thoughtworks/proxy/toys/pool/Pool.java:354-360 | Returning a lent instance keeps an exclusive pool exclusive. The size stays if the resetter accepts and drops by one otherwise. |
| PoolProperties.AddKeepsExclusive | proxytoys/src/main/java/com/thoughtworks/proxy/toys/pool/Pool.java:262-272 | Adding distinct new instances succeeds and notifies. It appends them in order, grows the size by their number, and keeps the pool exclusive. |
| PoolProperties.ReadKeepsExclusive | proxytoys/src/main/java/com/thoughtworks/proxy/toys/pool/Pool.java:362-394 | If every instance of `p` is in exactly one place, then whenever `writeObject` succeeds, the pool `readObject` builds from its snapshot has every instance in exactly one place too. |
| PoolProperties.WrittenListDistinct | proxytoys/src/main/java/com/thoughtworks/proxy/toys/pool/Pool.java:364-368 | For an exclusive pool, the list built from `available` followed by the key set has no repeats. |
| PoolProperties.LendingRepeatCollapses | proxytoys/src/main/java/com/thoughtworks/proxy/toys/pool/Pool.java:287 | Lending two copies of one instance leaves one `busy` entry, so the size falls from two to one. |
| PoolProperties.ReturningTwiceDuplicates | proxytoys/src/main/java/com/thoughtworks/proxy/toys/pool/Pool.java:354-360 | Returning a lent instance twice appends it twice and grows the size by one. |
| PoolProperties.LendThenReleaseRotates | proxytoys/src/main/java/com/thoughtworks/proxy/toys/pool/Pool.java:281-310 | Lending the head and releasing its proxy, with an accepting resetter, moves the head to the tail. The lent map and the size are unchanged. |
| Scenarios.AddThree | proxytoys/src/test/java/com/thoughtworks/proxy/toys/pool/PoolTest.java:102-107 | Adding three instances to an empty pool makes them available in order and notifies. |
| Scenarios.LendFirst | proxytoys/src/test/java/com/thoughtworks/proxy/toys/pool/PoolTest.java:108-109 | The first `get` lends instance 0 under handle 0 and leaves 1 and 2 available in order. |
| Scenarios.LendSecond | proxytoys/src/test/java/com/thoughtworks/proxy/toys/pool/PoolTest.java:110-111 | The second `get` lends instance 1 under a new handle. |
| Scenarios.LendThird | proxytoys/src/test/java/com/thoughtworks/proxy/toys/pool/PoolTest.java:112-118 | The third `get` lends instance 2, and all three are lent. |
| Scenarios.LendFromExhausted | proxytoys/src/test/java/com/thoughtworks/proxy/toys/pool/PoolTest.java:146-154 | With one instance added, the first `get` lends it under handle 0. With its proxy still held, `getAvailable` reports 0 without notifying, and the next `get` returns null and changes nothing. |
| Scenarios.CollectedInstanceLentAgain | proxytoys/src/test/java/com/thoughtworks/proxy/toys/pool/PoolTest.java:79-94 | Nothing is available and only the proxy of `x` was collected. Then `get` lends `x` again under the next handle id and notifies the waiters. Nothing is left available and the same instances are lent. |
| Scenarios.LendSweptHandle | proxytoys/src/main/java/com/thoughtworks/proxy/toys/pool/Pool.java:283-287 | When the sweep leaves exactly `x` available, `get` lends `x` under the next handle id and leaves nothing available. |
| Scenarios.LendSweptPool | proxytoys/src/main/java/com/thoughtworks/proxy/toys/pool/Pool.java:283-287 | When the sweep leaves exactly `x` available, `get` adds `x` to the instances the sweep left lent. |
| Scenarios.SweptBackAlone | proxytoys/src/main/java/com/thoughtworks/proxy/toys/pool/Pool.java:320-342 | Nothing is available and only `x`'s proxy was collected, with `x` accepted. The sweep makes `x` the only available instance, removes it from the lent ones, and notifies. |
| Scenarios.RecycledHandleReturned | proxytoys/src/test/java/com/thoughtworks/proxy/toys/pool/PoolTest.java:96 | Calling `returnInstanceToPool` on the recycled proxy is trapped and makes instance 1 available again. |
| Scenarios.ReturnedInstanceLentAgain | proxytoys/src/test/java/com/thoughtworks/proxy/toys/pool/PoolTest.java:98-99 | The next `get` lends the same instance 1. |
| Scenarios.RejectedReturnShrinks | proxytoys/src/test/java/com/thoughtworks/proxy/toys/pool/PoolTest.java:188-198 | With a rejecting resetter, lending the only instance gives size one. Calling `returnInstanceToPool` on its proxy is trapped, notifies, and leaves the pool empty with size zero. |
| Scenarios.CollectedInstanceDropped | proxytoys/src/test/java/com/thoughtworks/proxy/toys/pool/PoolTest.java:200-211 | Only `x`'s proxy was collected, and the resetter rejects `x`. The sweep leaves the count unchanged, lowers the size by one and notifies. |
| Scenarios.CollectedInstanceReturned | proxytoys/src/test/java/com/thoughtworks/proxy/toys/pool/PoolTest.java:226-240 | Only `x`'s proxy was collected, and the resetter accepts `x`. The sweep raises the count by one, keeps the size and notifies. |
| Scenarios.AddToExhaustedThenLend | proxytoys/src/test/java/com/thoughtworks/proxy/toys/pool/PoolTest.java:172-182 | Adding to an exhausted pool makes the new instance available, and the next `get` lends it. |
| Scenarios.AddThreeMore | proxytoys/src/test/java/com/thoughtworks/proxy/toys/pool/PoolTest.java:183-185 | Adding three more makes three available, with size five. |
| Scenarios.PlainInstanceNotReleased | proxytoys/src/test/java/com/thoughtworks/proxy/toys/pool/PoolTest.java:121-129 | Releasing an instance that is no proxy is a ClassCastException and changes nothing. |
| Scenarios.ForeignHandleNotReleased | proxytoys/src/test/java/com/thoughtworks/proxy/toys/pool/PoolTest.java:131-144 | Releasing pool 1's proxy into pool 2 is an IllegalArgumentException, and pool 2 is unchanged. |
| Scenarios.StandardRoundTrip | proxytoys/src/test/java/com/thoughtworks/proxy/toys/pool/PoolTest.java:242-257 | A STANDARD pool with one of two instances lent writes both. The read pool has size two and both available, and two chained `get` calls lend both. |
| Scenarios.ForcedRoundTrip | proxytoys/src/test/java/com/thoughtworks/proxy/toys/pool/PoolTest.java:277-284 | A FORCE pool whose instances can all be written writes both, and the read pool has size two. |
| Scenarios.ForcedUnserializableRoundTrip | proxytoys/src/test/java/com/thoughtworks/proxy/toys/pool/PoolTest.java:306-314 | A FORCE pool holding an instance that cannot be written writes an empty list. The read pool has size zero, and adding an instance then works. |
| Scenarios.NoneRoundTrip | proxytoys/src/test/java/com/thoughtworks/proxy/toys/pool/PoolTest.java:316-322 | A NONE pool writes an empty list, and the read pool has size zero. |

## Left out

- Mutual exclusion (`synchronized`) and the monitor: each operation is one atomic step. `notifyAll` is only a boolean in the result, and waiting threads are not modelled.
- Instance equality: the keys of `busy` are compared with Dafny's `==`. This stands for `equals` and `hashCode` of an instance type that honours their contract, as `HashMap` requires. Key types on which the two disagree are not modelled. The tests' `InstanceCounter` overrides `equals` but not `hashCode` (PoolTest.java:44-46). With such keys, two equal instances need not share one entry as `PoolProperties.LendingRepeatCollapses` states.
- Garbage collection and `WeakReference`: the cleared references are the `dead` parameter. The model does not say when a proxy becomes unreachable.
- Creating proxies and dispatching by reflection: `PoolingInvoker.proxy`, the proxy factory, `DelegatingInvoker` and the static lookup of the `returnInstanceToPool` method. A handle is a value `(pool, instance, id)`. The invoker is reduced to its trap decision in `PoolCore.Invoke`; forwarded calls only name their target.
- `Poolable.class.cast` and `PoolingInvoker.class.cast` in `release`: the argument is a sum type `Null | Plain | Proxy`. A proxy built by some other invoker is not modelled.
- The Java serialization byte format, the trial `ObjectOutputStream` write, and IOExceptions other than NotSerializableException. Whether a value can be written is a predicate on instances plus one flag for the pool's own fields. `readObject`'s `defaultReadObject`, ClassNotFoundException and the unchecked cast are not modelled.
- The builder classes and the constructors: a pool is a value with its fields given directly.
- proxytoys/src/main/java/com/thoughtworks/proxy/toys/privilege/Privileging.java and proxytoys/src/com/thoughtworks/proxy/toys/decorate/SimpleInvoker.java hold no pool state; they are not part of this model.
- The iteration order of `HashMap.keySet()` is not computed. Every operation that iterates the key set takes the order as a parameter and requires it to enumerate the keys. For the pure resetter of this model, `PoolProperties.SweepOrderIrrelevant` shows what the order can change.
- The `Resetter` is a pure function of the instance: `reset: T -> bool`. A resetter whose answer depends on earlier calls, or one that throws, is not modelled. With such a resetter, the key iteration order could decide which reclaimed instances survive, so the order-independence lemmas would not hold.
- `int` results (`size`, `getAvailable`) are unbounded naturals. A pool holding more than 2^31 - 1 instances is not modelled.
- `size()` is the helper `PoolCore.Size`. It has no contract of its own; its promises are stated by the operations' size clauses and by `PoolProperties.SweepSize` and `PoolProperties.GetKeepsExclusive`.
- PoolCore.Get: the size clause covers lending from a non-empty list. After a sweep, the size is stated only under exclusivity, in `PoolProperties.GetKeepsExclusive`. Without exclusivity, a re-admitted instance that is also lent elsewhere can merge entries, as `PoolProperties.LendingRepeatCollapses` shows.
- Serialization.StaleHandleRejected: pool identity is a parameter. The read pool's new identity is assumed (`freshId != p.id`) rather than derived from object creation, because the model has no heap of pool objects.
