/**
  Properties of the pool that relate several operations or several runs:
  how the sweep changes the size, that the hash map's iteration order only
  permutes what the sweep re-admits, that reclaiming a collected handle is
  the same as returning it, and when the pool keeps every instance in
  exactly one place.
 */
module PoolProperties {
  import opened SeqFacts
  import opened PoolCore
  import opened Serialization

  /** The available list after a sweep is the old list followed by the re-admitted instances. */
  lemma SweepSplits<T>(p: Pool<T>, dead: set<HandleId>, order: seq<T>, reset: T -> bool)
    requires Enumerates(order, p.busy.Keys)
    ensures var a := Sweep(p, dead, order, reset).pool.available;
      && a == p.available + a[|p.available|..]
      && |a[|p.available|..]| == |Readmitted(p, dead, reset)|
  {
    var a := Sweep(p, dead, order, reset).pool.available;
    assert a == p.available + a[|p.available|..];
    DistinctCard(a[|p.available|..]);
  }

  /** The lent instances after a sweep are those whose handle is alive. */
  lemma SweepKeys<T>(p: Pool<T>, dead: set<HandleId>, order: seq<T>, reset: T -> bool)
    requires Enumerates(order, p.busy.Keys)
    ensures Sweep(p, dead, order, reset).pool.busy.Keys == p.busy.Keys - Reclaimable(p, dead)
  {
  }

  /** The reclaimable instances split into the re-admitted and the dropped ones. */
  lemma ReclaimablePartition<T>(p: Pool<T>, dead: set<HandleId>, reset: T -> bool)
    ensures Reclaimable(p, dead) == Readmitted(p, dead, reset) + Dropped(p, dead, reset)
    ensures Readmitted(p, dead, reset) !! Dropped(p, dead, reset)
  {
  }

  /**
    What the sweep does with each instance whose handle was collected: it
    leaves the lent map, and it is among the appended instances iff the
    resetter accepts it.
   */
  lemma ReclaimedFate<T>(p: Pool<T>, dead: set<HandleId>, order: seq<T>, reset: T -> bool, k: T)
    requires Enumerates(order, p.busy.Keys)
    requires k in Reclaimable(p, dead)
    ensures var q := Sweep(p, dead, order, reset).pool;
      && k !in q.busy
      && (k in q.available[|p.available|..] <==> reset(k))
  {
    var q := Sweep(p, dead, order, reset).pool;
    assert k in Elems(q.available[|p.available|..]) <==> k in Readmitted(p, dead, reset);
  }

  /** Counting the lent keys `k` split into live `l`, re-admitted `a` and dropped `d`. */
  lemma PartitionCard<X>(k: set<X>, l: set<X>, a: set<X>, d: set<X>)
    requires l == k - (a + d) && a + d <= k && a !! d
    ensures |k| == |l| + |a| + |d|
  {
    assert k == l + (a + d);
  }

  /**
    A sweep changes the number of managed instances only by dropping the
    reclaimed instances the resetter rejects.
   */
  lemma SweepSize<T>(p: Pool<T>, dead: set<HandleId>, order: seq<T>, reset: T -> bool)
    requires Enumerates(order, p.busy.Keys)
    ensures Size(Sweep(p, dead, order, reset).pool) + |Dropped(p, dead, reset)| == Size(p)
  {
    SweepSplits(p, dead, order, reset);
    SweepKeys(p, dead, order, reset);
    ReclaimablePartition(p, dead, reset);
    PartitionCard(p.busy.Keys, Sweep(p, dead, order, reset).pool.busy.Keys,
                  Readmitted(p, dead, reset), Dropped(p, dead, reset));
  }

  /** The lent map after a sweep does not depend on the iteration order. */
  lemma SweepBusyOrderFree<T>(
    p: Pool<T>, dead: set<HandleId>, order1: seq<T>, order2: seq<T>, reset: T -> bool)
    requires Enumerates(order1, p.busy.Keys) && Enumerates(order2, p.busy.Keys)
    ensures Sweep(p, dead, order1, reset).pool.busy == Sweep(p, dead, order2, reset).pool.busy
  {
    SweepKeys(p, dead, order1, reset);
    SweepKeys(p, dead, order2, reset);
  }

  /** The re-admitted instances are the same whatever the iteration order, up to permutation. */
  lemma SweepAvailableOrderFree<T>(
    p: Pool<T>, dead: set<HandleId>, order1: seq<T>, order2: seq<T>, reset: T -> bool)
    requires Enumerates(order1, p.busy.Keys) && Enumerates(order2, p.busy.Keys)
    ensures var a1, a2 := Sweep(p, dead, order1, reset).pool.available, Sweep(p, dead, order2, reset).pool.available;
      && a1[..|p.available|] == a2[..|p.available|]
      && multiset(a1) == multiset(a2)
  {
    var a1, a2 := Sweep(p, dead, order1, reset).pool.available, Sweep(p, dead, order2, reset).pool.available;
    var n := |p.available|;
    SweepSplits(p, dead, order1, reset);
    SweepSplits(p, dead, order2, reset);
    SameElemsSameMultiset(a1[n..], a2[n..]);
    assert multiset(a1) == multiset(p.available) + multiset(a1[n..]);
    assert multiset(a2) == multiset(p.available) + multiset(a2[n..]);
  }

  /**
    The iteration order of the key set does not matter beyond the order in
    which re-admitted instances are appended: any two orders give the same
    lent map, the same count, the same notification, and available lists
    that are permutations of each other with the same untouched prefix.
   */
  lemma SweepOrderIrrelevant<T>(
    p: Pool<T>, dead: set<HandleId>, order1: seq<T>, order2: seq<T>, reset: T -> bool)
    requires Enumerates(order1, p.busy.Keys) && Enumerates(order2, p.busy.Keys)
    ensures var s1, s2 := Sweep(p, dead, order1, reset), Sweep(p, dead, order2, reset);
      && s1.pool.busy == s2.pool.busy
      && s1.pool.available[..|p.available|] == s2.pool.available[..|p.available|]
      && multiset(s1.pool.available) == multiset(s2.pool.available)
      && s1.count == s2.count
      && s1.notified == s2.notified
  {
    SweepBusyOrderFree(p, dead, order1, order2, reset);
    SweepAvailableOrderFree(p, dead, order1, order2, reset);
    SweepSplits(p, dead, order1, reset);
    SweepSplits(p, dead, order2, reset);
  }

  /**
    A sweep that finds no collected handle is silent: the pool is unchanged,
    nobody is notified, and the count is the number of available instances.
   */
  lemma QuietSweep<T>(p: Pool<T>, dead: set<HandleId>, order: seq<T>, reset: T -> bool)
    requires Enumerates(order, p.busy.Keys)
    requires Reclaimable(p, dead) == {}
    ensures Sweep(p, dead, order, reset) == Swept(p, |p.available|, false)
  {
    var q := Sweep(p, dead, order, reset).pool;
    SweepSplits(p, dead, order, reset);
    assert Readmitted(p, dead, reset) == {};
    EmptyEnumeration(q.available[|p.available|..]);
    SweepKeys(p, dead, order, reset);
    assert q.busy.Keys == p.busy.Keys;
  }

  /** When only `x` is reclaimable, the sweep appends `x` iff the resetter accepts it. */
  lemma ReclaimedSuffix<T>(p: Pool<T>, x: T, dead: set<HandleId>, order: seq<T>, reset: T -> bool)
    requires Enumerates(order, p.busy.Keys)
    requires Reclaimable(p, dead) == {x}
    ensures Sweep(p, dead, order, reset).pool.available
         == p.available + (if reset(x) then [x] else [])
  {
    var a := Sweep(p, dead, order, reset).pool.available;
    var n := |p.available|;
    assert x in Reclaimable(p, dead);
    SweepSplits(p, dead, order, reset);
    if reset(x) {
      assert Readmitted(p, dead, reset) == {x};
      SingletonEnumeration(a[n..], x);
    } else {
      assert Readmitted(p, dead, reset) == {};
      EmptyEnumeration(a[n..]);
    }
  }

  /** When only `x` is reclaimable, the sweep removes exactly `x` from the lent map. */
  lemma ReclaimedBusy<T>(p: Pool<T>, x: T, dead: set<HandleId>, order: seq<T>, reset: T -> bool)
    requires Enumerates(order, p.busy.Keys)
    requires Reclaimable(p, dead) == {x}
    ensures Sweep(p, dead, order, reset).pool.busy == p.busy - {x}
  {
    SweepKeys(p, dead, order, reset);
  }

  /**
    Reclaiming a collected handle is the same as returning its instance:
    when the only dead handle belongs to `x`, the sweep leaves the pool in
    the state `returnInstanceToPool(x)` would.
   */
  lemma ReclaimIsReturn<T>(p: Pool<T>, x: T, dead: set<HandleId>, order: seq<T>, reset: T -> bool)
    requires Enumerates(order, p.busy.Keys)
    requires Reclaimable(p, dead) == {x}
    ensures Sweep(p, dead, order, reset).pool == ReturnInstanceToPool(p, x, reset).pool
  {
    ReclaimedSuffix(p, x, dead, order, reset);
    ReclaimedBusy(p, x, dead, order, reset);
    var r := ReturnInstanceToPool(p, x, reset).pool;
    assert r.busy == p.busy - {x};
  }

  // ------------------------------------------------------------ exclusivity

  /**
    Every managed instance is in exactly one place: `available` has no
    repeats and shares nothing with `busy`. The source does not maintain
    this on its own: `add` accepts repeats and a handle may be returned twice.
   */
  predicate Exclusive<T>(p: Pool<T>) {
    Distinct(p.available) && forall x :: x in p.available ==> x !in p.busy
  }

  /** The sweep keeps every instance in exactly one place. */
  lemma SweepKeepsExclusive<T>(p: Pool<T>, dead: set<HandleId>, order: seq<T>, reset: T -> bool)
    requires Enumerates(order, p.busy.Keys)
    requires Exclusive(p)
    ensures Exclusive(Sweep(p, dead, order, reset).pool)
  {
    var q := Sweep(p, dead, order, reset).pool;
    var n := |p.available|;
    SweepSplits(p, dead, order, reset);
    var suffix := q.available[n..];
    DistinctAppend(p.available, suffix);
    forall y | y in q.available
      ensures y !in q.busy
    {
      if y !in p.available {
        assert y in Elems(suffix);
      }
    }
  }

  /**
    Under exclusivity `get` keeps the size: lending from a non-empty pool
    moves one instance, and lending after a sweep only loses what the sweep
    drops. Exclusivity survives.
   */
  lemma GetKeepsExclusive<T>(p: Pool<T>, dead: set<HandleId>, order: seq<T>, reset: T -> bool)
    requires Enumerates(order, p.busy.Keys)
    requires Exclusive(p)
    ensures Exclusive(Get(p, dead, order, reset).pool)
    ensures |p.available| > 0 ==> Size(Get(p, dead, order, reset).pool) == Size(p)
    ensures |p.available| == 0 ==>
      Size(Get(p, dead, order, reset).pool) + |Dropped(p, dead, reset)| == Size(p)
  {
    var g := Get(p, dead, order, reset);
    var s := p;
    if |p.available| == 0 {
      s := Sweep(p, dead, order, reset).pool;
      SweepKeepsExclusive(p, dead, order, reset);
      SweepSize(p, dead, order, reset);
    }
    if g.handle.Some? {
      LendKeepsExclusive(s, g);
    }
  }

  /** Lending the head of an exclusive pool keeps it exclusive and keeps its size. */
  lemma LendKeepsExclusive<T>(p: Pool<T>, g: Got<T>)
    requires Exclusive(p) && LentHead(p, g)
    ensures Exclusive(g.pool) && Size(g.pool) == Size(p)
  {
    var a := p.available;
    DistinctTail(a);
    assert a[0] !in p.busy;
    assert |g.pool.busy.Keys| == |p.busy.Keys| + 1;
    forall y | y in g.pool.available
      ensures y !in g.pool.busy
    {
      assert y in a && y != a[0];
    }
  }

  /**
    Returning an instance that is lent keeps an exclusive pool exclusive;
    the size stays when the resetter accepts and drops by one otherwise.
   */
  lemma ReturnKeepsExclusive<T>(p: Pool<T>, x: T, reset: T -> bool)
    requires Exclusive(p) && x in p.busy
    ensures Exclusive(ReturnInstanceToPool(p, x, reset).pool)
    ensures Size(ReturnInstanceToPool(p, x, reset).pool) == Size(p) - (if reset(x) then 0 else 1)
  {
    if reset(x) {
      Snoc(p.available, x);
    }
  }

  /**
    Adding distinct new instances keeps an exclusive pool exclusive, appends
    them in argument order and grows the size by their number.
   */
  lemma AddKeepsExclusive<T>(p: Pool<T>, more: seq<T>)
    requires Exclusive(p) && Distinct(more)
    requires forall x :: x in more ==> x !in p.available && x !in p.busy
    ensures var a := Add(p, Some(seq(|more|, i requires 0 <= i < |more| => Some(more[i]))));
      && a.error == None && a.notified
      && a.pool.available == p.available + more
      && Size(a.pool) == Size(p) + |more|
      && Exclusive(a.pool)
  {
    var xs := seq(|more|, i requires 0 <= i < |more| => Some(more[i]));
    var a := Add(p, Some(xs));
    var n := |p.available|;
    forall i | 0 <= i < |more|
      ensures a.pool.available[n + i] == more[i]
    {
      assert xs[i] == Some(more[i]);
    }
    assert a.pool.available == p.available + more;
    var b := a.pool.available;
    forall i, j | 0 <= i < j < |b|
      ensures b[i] != b[j]
    {
      if i < n && j >= n {
        assert b[j] == more[j - n];
        assert b[i] in p.available;
      }
    }
  }

  /**
    The list `writeObject` builds from an exclusive pool has no repeats, so
    the pool read back from it is exclusive again.
   */
  lemma ReadKeepsExclusive<T>(p: Pool<T>, order: seq<T>, serializable: T -> bool, freshId: PoolId)
    requires Exclusive(p) && Enumerates(order, p.busy.Keys)
    ensures var w := WriteObject(p, order, serializable, true);
      w.Written? ==> Exclusive(ReadObject(w.snapshot, freshId))
  {
    var w := WriteObject(p, order, serializable, true);
    if w.Written? && w.snapshot.elements != [] {
      var e := w.snapshot.elements;
      var rest := e[|p.available|..];
      assert e == p.available + rest;
      WrittenListDistinct(p, rest);
    }
  }

  /** The list built from an exclusive pool, `available` then the key set, has no repeats. */
  lemma WrittenListDistinct<T>(p: Pool<T>, order: seq<T>)
    requires Exclusive(p) && Enumerates(order, p.busy.Keys)
    ensures Distinct(p.available + order)
  {
    var a := p.available + order;
    var n := |p.available|;
    forall i, j | 0 <= i < j < |a|
      ensures a[i] != a[j]
    {
      if i < n && j >= n {
        assert a[j] == order[j - n];
        assert a[j] in Elems(order);
        assert a[i] in p.available;
      }
    }
  }

  // ------------------------------------------------------------ quirks

  /**
    `busy` is keyed by the instance: lending the same instance twice keeps
    one entry, so the pool forgets one of the two copies.
   */
  lemma LendingRepeatCollapses<T>(p: Pool<T>, x: T, dead: set<HandleId>, reset: T -> bool)
    requires p.available == [x, x] && p.busy == map[]
    ensures var g1 := Get(p, dead, [], reset);
      var g2 := Get(g1.pool, dead, [x], reset);
      && g1.handle.Some? && g2.handle.Some?
      && g1.handle.value.id != g2.handle.value.id
      && g2.pool.busy == map[x := g2.handle.value.id]
      && Size(p) == 2 && Size(g2.pool) == 1
  {
    var g1 := Get(p, dead, [], reset);
    assert g1.pool.available == [x];
    assert g1.pool.busy.Keys == {x};
    assert Elems([x]) == {x};
    var g2 := Get(g1.pool, dead, [x], reset);
    assert g2.pool.busy.Keys == {x};
  }

  /**
    `returnInstanceToPool` does not check that the instance is lent: a
    second return appends the instance again, so the pool grows.
   */
  lemma ReturningTwiceDuplicates<T>(p: Pool<T>, x: T, reset: T -> bool)
    requires x in p.busy && reset(x)
    ensures var r1 := ReturnInstanceToPool(p, x, reset).pool;
      var r2 := ReturnInstanceToPool(r1, x, reset).pool;
      && r2.available == p.available + [x, x]
      && Size(r2) == Size(p) + 1
  {
  }

  /**
    Lending the head of an exclusive pool and releasing its handle with an
    accepting resetter moves that instance from the head to the tail.
   */
  lemma LendThenReleaseRotates<T>(p: Pool<T>, dead: set<HandleId>, order: seq<T>, reset: T -> bool)
    requires Enumerates(order, p.busy.Keys)
    requires Exclusive(p) && |p.available| > 0 && reset(p.available[0])
    ensures var g := Get(p, dead, order, reset);
      var r := Release(g.pool, Proxy(g.handle.value), reset);
      && r.error == None
      && r.pool.available == p.available[1..] + [p.available[0]]
      && r.pool.busy == p.busy
      && Size(r.pool) == Size(p)
  {
    var g := Get(p, dead, order, reset);
    LendKeepsExclusive(p, g);
    var r := Release(g.pool, Proxy(g.handle.value), reset);
    assert r.pool.busy.Keys == p.busy.Keys;
  }
}
