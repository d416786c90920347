/**
  The behaviour the pool's unit tests check, replayed on the model with
  integer instances. A number `i` stands for the test's `InstanceCounter`
  with id `i`; garbage collection of a handle is the handle's id in `dead`.
  Pools are written out literally: `Pool(id, available, busy, nextHandle, mode)`.
  Each test is one lemma, proved from one small lemma per call it makes.
 */
module Scenarios {
  import opened SeqFacts
  import opened PoolCore
  import opened Serialization
  import opened PoolProperties

  /** The `NoOperationResetter`: every returning instance is reusable. */
  function Accept(x: int): bool { true }

  /** The tests' `NotReturningResetter`: every returning instance is dropped. */
  function Reject(x: int): bool { false }

  /** Serializability of the tests' `InstanceCounter` instances: all can be written. */
  function CounterSerializable(x: int): bool { true }

  /** Serializability of the test case object the test pools: it cannot be written. */
  function TestCaseSerializable(x: int): bool { false }

  // ------------------------------------------------ sizeIsConstant, poolReturnsNullIfExhausted

  lemma AddThree()
    ensures Add(Pool(1, [], map[], 0, STANDARD), Some([Some(0), Some(1), Some(2)]))
         == Step(Pool(1, [0, 1, 2], map[], 0, STANDARD), None, true)
  {
  }

  lemma LendFirst()
    ensures Get(Pool(1, [0, 1, 2], map[], 0, STANDARD), {}, [], Accept)
         == Got(Pool(1, [1, 2], map[0 := 0], 1, STANDARD), Some(Handle(1, 0, 0)), false)
  {
  }

  lemma LendSecond()
    ensures Get(Pool(1, [1, 2], map[0 := 0], 1, STANDARD), {}, [0], Accept)
         == Got(Pool(1, [2], map[0 := 0, 1 := 1], 2, STANDARD), Some(Handle(1, 1, 1)), false)
  {
    assert Elems([0]) == {0};
  }

  lemma LendThird()
    ensures Get(Pool(1, [2], map[0 := 0, 1 := 1], 2, STANDARD), {}, [0, 1], Accept)
         == Got(Pool(1, [], map[0 := 0, 1 := 1, 2 := 2], 3, STANDARD), Some(Handle(1, 2, 2)), false)
  {
    assert Elems([0, 1]) == {0, 1};
  }

  // ------------------------------------------------ poolReturnsNullIfExhausted

  /**
    One instance is added and lent. With its proxy still held, `getAvailable`
    reports 0 and changes nothing, and the next `get` returns null.
   */
  lemma LendFromExhausted()
    ensures Get(Pool(1, [0], map[], 0, STANDARD), {}, [], Accept)
         == Got(Pool(1, [], map[0 := 0], 1, STANDARD), Some(Handle(1, 0, 0)), false)
    ensures Sweep(Pool(1, [], map[0 := 0], 1, STANDARD), {}, [0], Accept)
         == Swept(Pool(1, [], map[0 := 0], 1, STANDARD), 0, false)
    ensures Get(Pool(1, [], map[0 := 0], 1, STANDARD), {}, [0], Accept)
         == Got(Pool(1, [], map[0 := 0], 1, STANDARD), None, false)
  {
    var p := Pool(1, [], map[0 := 0], 1, STANDARD);
    assert Elems([0]) == {0};
    assert Reclaimable(p, {}) == {};
    QuietSweep(p, {}, [0], Accept);
  }

  // ------------------------------------------------ instancesCanBeRecycled

  /**
    With nothing available and only the handle of `x` collected, `get`
    sweeps `x` back, notifies the waiters, and lends `x` again under a new
    handle.
   */
  lemma CollectedInstanceLentAgain<T>(p: Pool<T>, x: T, dead: set<HandleId>, order: seq<T>, reset: T -> bool)
    requires Enumerates(order, p.busy.Keys)
    requires p.available == [] && Reclaimable(p, dead) == {x} && reset(x)
    ensures var r := Get(p, dead, order, reset);
      && r.handle == Some(Handle(p.id, x, p.nextHandle))
      && r.pool.available == []
      && r.pool.busy.Keys == p.busy.Keys
      && r.notified
  {
    SweptBackAlone(p, x, dead, order, reset);
    LendSweptHandle(p, x, dead, order, reset);
    LendSweptPool(p, x, dead, order, reset);
  }

  /** When the sweep makes only `x` available, `get` lends `x` under the next handle id ... */
  lemma LendSweptHandle<T>(p: Pool<T>, x: T, dead: set<HandleId>, order: seq<T>, reset: T -> bool)
    requires Enumerates(order, p.busy.Keys)
    requires p.available == []
    requires Sweep(p, dead, order, reset).pool.available == [x]
    ensures Get(p, dead, order, reset).handle == Some(Handle(p.id, x, p.nextHandle))
    ensures Get(p, dead, order, reset).pool.available == []
  {
  }

  /** ... and `x` joins the instances the sweep left lent. */
  lemma LendSweptPool<T>(p: Pool<T>, x: T, dead: set<HandleId>, order: seq<T>, reset: T -> bool)
    requires Enumerates(order, p.busy.Keys)
    requires p.available == []
    requires Sweep(p, dead, order, reset).pool.available == [x]
    ensures Get(p, dead, order, reset).pool.busy.Keys == Sweep(p, dead, order, reset).pool.busy.Keys + {x}
  {
  }

  /** The sweep in the lemma above makes `x` the one available instance, and notifies. */
  lemma SweptBackAlone<T>(p: Pool<T>, x: T, dead: set<HandleId>, order: seq<T>, reset: T -> bool)
    requires Enumerates(order, p.busy.Keys)
    requires p.available == [] && Reclaimable(p, dead) == {x} && reset(x)
    ensures Sweep(p, dead, order, reset).pool.available == [x]
    ensures Sweep(p, dead, order, reset).pool.busy.Keys == p.busy.Keys - {x}
    ensures Sweep(p, dead, order, reset).notified
    ensures x in p.busy
  {
    ReclaimIsReturn(p, x, dead, order, reset);
  }

  /** Returning the recycled handle through the proxy makes instance 1 available again. */
  lemma RecycledHandleReturned()
    ensures Invoke(Pool(1, [], map[0 := 0, 2 := 2, 1 := 3], 4, STANDARD), Handle(1, 1, 3),
                   ReturnInstanceToPoolCall, Accept)
         == Trapped(Step(Pool(1, [1], map[0 := 0, 2 := 2], 4, STANDARD), None, true))
  {
    assert map[0 := 0, 2 := 2, 1 := 3] - {1} == map[0 := 0, 2 := 2];
  }

  /** The next `get` lends the very same instance 1. */
  lemma ReturnedInstanceLentAgain()
    ensures Get(Pool(1, [1], map[0 := 0, 2 := 2], 4, STANDARD), {}, [0, 2], Accept).handle
         == Some(Handle(1, 1, 4))
  {
    assert Elems([0, 2]) == {0, 2};
  }

  // ------------------------------------------------ returnedElementWillNotReturnToPoolIfExhausted

  /**
    With a rejecting resetter, returning the only lent instance through its
    proxy empties the pool.
   */
  lemma RejectedReturnShrinks()
    ensures Get(Pool(1, [0], map[], 0, STANDARD), {}, [], Reject)
         == Got(Pool(1, [], map[0 := 0], 1, STANDARD), Some(Handle(1, 0, 0)), false)
    ensures Size(Pool(1, [], map[0 := 0], 1, STANDARD)) == 1
    ensures Invoke(Pool(1, [], map[0 := 0], 1, STANDARD), Handle(1, 0, 0), ReturnInstanceToPoolCall, Reject)
         == Trapped(Step(Pool(1, [], map[], 1, STANDARD), None, true))
    ensures Size(Invoke(Pool(1, [], map[0 := 0], 1, STANDARD), Handle(1, 0, 0), ReturnInstanceToPoolCall, Reject).step.pool) == 0
  {
    assert map[0 := 0] - {0} == map[];
  }

  // ------------------------------------------------ garbageCollectedElementWillNotReturnToPoolIfExhausted

  /** Collecting the handle of `x` when the resetter rejects `x` lowers the size by one and leaves `available` alone. */
  lemma CollectedInstanceDropped<T>(p: Pool<T>, x: T, dead: set<HandleId>, order: seq<T>, reset: T -> bool)
    requires Enumerates(order, p.busy.Keys)
    requires Reclaimable(p, dead) == {x} && !reset(x)
    ensures var s := Sweep(p, dead, order, reset);
      s.count == |p.available| && Size(s.pool) == Size(p) - 1 && s.notified
  {
    ReclaimIsReturn(p, x, dead, order, reset);
  }

  // ------------------------------------------------ testGarbageCollectedElementIsResetted

  /** Collecting the handle of `x` when the resetter accepts `x` makes one more instance available at the same size. */
  lemma CollectedInstanceReturned<T>(p: Pool<T>, x: T, dead: set<HandleId>, order: seq<T>, reset: T -> bool)
    requires Enumerates(order, p.busy.Keys)
    requires Reclaimable(p, dead) == {x} && reset(x)
    ensures var s := Sweep(p, dead, order, reset);
      s.count == |p.available| + 1 && Size(s.pool) == Size(p) && s.notified
  {
    ReclaimIsReturn(p, x, dead, order, reset);
  }

  // ------------------------------------------------ poolGrowingManually

  /** Adding to an exhausted pool lends the added instance. */
  lemma AddToExhaustedThenLend()
    ensures Add(Pool(1, [], map[0 := 0], 1, STANDARD), Some([Some(1)]))
         == Step(Pool(1, [1], map[0 := 0], 1, STANDARD), None, true)
    ensures Get(Pool(1, [1], map[0 := 0], 1, STANDARD), {}, [0], Accept)
         == Got(Pool(1, [], map[0 := 0, 1 := 1], 2, STANDARD), Some(Handle(1, 1, 1)), false)
  {
    assert Elems([0]) == {0};
  }

  /** Adding three more then makes three available, five in all. */
  lemma AddThreeMore()
    ensures Add(Pool(1, [], map[0 := 0, 1 := 1], 2, STANDARD), Some([Some(2), Some(3), Some(4)]))
         == Step(Pool(1, [2, 3, 4], map[0 := 0, 1 := 1], 2, STANDARD), None, true)
    ensures Size(Pool(1, [2, 3, 4], map[0 := 0, 1 := 1], 2, STANDARD)) == 5
  {
  }

  // ------------------------------------------------ unmanagedInstanceCannotBeReleased, elementMustBeReturnedToOwnPool

  /** Releasing a plain instance is a ClassCastException and changes nothing. */
  lemma PlainInstanceNotReleased()
    ensures Release(Pool(1, [], map[], 0, STANDARD), Plain(7), Accept)
         == Step(Pool(1, [], map[], 0, STANDARD), Some(ClassCast), false)
  {
  }

  /** Releasing pool 1's handle into pool 2 is an IllegalArgumentException and changes neither pool. */
  lemma ForeignHandleNotReleased()
    ensures Get(Pool(1, [0], map[], 0, STANDARD), {}, [], Accept)
         == Got(Pool(1, [], map[0 := 0], 1, STANDARD), Some(Handle(1, 0, 0)), false)
    ensures Release(Pool(2, [], map[], 0, STANDARD), Proxy(Handle(1, 0, 0)), Accept)
         == Step(Pool(2, [], map[], 0, STANDARD), Some(IllegalArgument), false)
  {
  }

  // ------------------------------------------------ serializeWithJDK and friends

  /**
    A STANDARD pool with two instances, one lent, writes both; the read pool
    has size two, nothing lent, and lends twice.
   */
  lemma StandardRoundTrip()
    ensures WriteObject(Pool(1, [1], map[0 := 0], 1, STANDARD), [0], CounterSerializable, true)
         == Written(Snapshot(STANDARD, [1, 0]))
    ensures ReadObject(Snapshot(STANDARD, [1, 0]), 2) == Pool(2, [1, 0], map[], 0, STANDARD)
    ensures Size(Pool(2, [1, 0], map[], 0, STANDARD)) == 2
    ensures Get(Pool(2, [1, 0], map[], 0, STANDARD), {}, [], Accept)
         == Got(Pool(2, [0], map[1 := 0], 1, STANDARD), Some(Handle(2, 1, 0)), false)
    ensures Get(Pool(2, [0], map[1 := 0], 1, STANDARD), {}, [1], Accept)
         == Got(Pool(2, [], map[1 := 0, 0 := 1], 2, STANDARD), Some(Handle(2, 0, 1)), false)
  {
    assert Elems([0]) == {0};
    assert Elems([1]) == {1};
  }

  /** The same with FORCE, when everything can be written. */
  lemma ForcedRoundTrip()
    ensures WriteObject(Pool(1, [1], map[0 := 0], 1, FORCE), [0], CounterSerializable, true)
         == Written(Snapshot(FORCE, [1, 0]))
    ensures Size(ReadObject(Snapshot(FORCE, [1, 0]), 2)) == 2
  {
    assert Elems([0]) == {0};
  }

  /** FORCE with an instance that cannot be written reads back empty, and `add` refills it. */
  lemma ForcedUnserializableRoundTrip()
    ensures WriteObject(Pool(1, [0], map[], 0, FORCE), [], TestCaseSerializable, true)
         == Written(Snapshot(FORCE, []))
    ensures Size(ReadObject<int>(Snapshot(FORCE, []), 2)) == 0
    ensures Add(Pool(2, [], map[], 0, FORCE), Some([Some(0)])) == Step(Pool(2, [0], map[], 0, FORCE), None, true)
  {
    var instances: seq<int> := [0] + [];
    assert instances[0] == 0 && !TestCaseSerializable(instances[0]);
    assert !Writable(instances, TestCaseSerializable);
  }

  /** NONE writes nothing: the read pool has size zero. */
  lemma NoneRoundTrip()
    ensures WriteObject(Pool(1, [0, 1], map[], 0, NONE), [], CounterSerializable, true)
         == Written(Snapshot(NONE, []))
    ensures Size(ReadObject<int>(Snapshot(NONE, []), 2)) == 0
  {
  }
}
