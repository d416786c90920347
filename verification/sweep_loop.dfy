/**
  The reclamation sweep written as the two loops of `getAvailable`. The
  first loop walks the key set of `busy` and collects the instances whose
  handle is dead; the hash map gives no iteration order, so each step picks
  any key not yet visited, and the order of visits is reported. The second
  loop removes each collected instance from `busy`, asks the resetter, and
  keeps the accepted ones, which are then appended to `available` together.
 */
module SweepLoop {
  import opened SeqFacts
  import opened PoolCore

  /** `Freed` grows by at most the visited key when the visit grows by one key. */
  lemma FreedSnoc<T>(order: seq<T>, target: T, busy: map<T, HandleId>, dead: set<HandleId>)
    ensures Freed(order + [target], busy, dead)
         == Freed(order, busy, dead) + (if target in busy && busy[target] in dead then [target] else [])
  {
    assert (order + [target])[..|order|] == order;
  }

  /** The state of the first loop: `order` is the visit so far, `remaining` the keys still to visit. */
  ghost predicate Collecting<T>(
    busy: map<T, HandleId>, dead: set<HandleId>, remaining: set<T>, order: seq<T>, freed: seq<T>)
  {
    && remaining !! Elems(order)
    && remaining + Elems(order) == busy.Keys
    && Distinct(order)
    && freed == Freed(order, busy, dead)
  }

  /** One iteration of the first loop keeps its state consistent. */
  lemma CollectStep<T>(
    busy: map<T, HandleId>, dead: set<HandleId>, remaining: set<T>, order: seq<T>, freed: seq<T>, target: T)
    requires Collecting(busy, dead, remaining, order, freed)
    requires target in remaining
    ensures Collecting(busy, dead, remaining - {target}, order + [target],
                       freed + (if busy[target] in dead then [target] else []))
  {
    Snoc(order, target);
    FreedSnoc(order, target, busy, dead);
  }

  /**
    The first loop: visits every key of `busy` once, in an order of its own
    choosing, and collects those whose handle is dead.
   */
  method CollectFreed<T>(busy: map<T, HandleId>, dead: set<HandleId>)
    returns (freed: seq<T>, order: seq<T>)
    ensures Enumerates(order, busy.Keys)
    ensures freed == Freed(order, busy, dead)
  {
    order := [];
    freed := [];
    var remaining := busy.Keys;
    while remaining != {}
      invariant Collecting(busy, dead, remaining, order, freed)
      decreases |remaining|
    {
      var target :| target in remaining;
      CollectStep(busy, dead, remaining, order, freed, target);
      if busy[target] in dead {
        freed := freed + [target];
      }
      order := order + [target];
      remaining := remaining - {target};
    }
  }

  /**
    The second loop: removes each freed instance from `busy` and keeps, in
    order, those the resetter accepts.
   */
  method ResetFreed<T>(busy: map<T, HandleId>, freed: seq<T>, reset: T -> bool)
    returns (rest: map<T, HandleId>, resetted: seq<T>)
    ensures rest == busy - Elems(freed)
    ensures resetted == Kept(freed, reset)
  {
    rest := busy;
    resetted := [];
    var i := 0;
    while i < |freed|
      invariant 0 <= i <= |freed|
      invariant rest == busy - Elems(freed[..i])
      invariant resetted == Kept(freed[..i], reset)
    {
      var element := freed[i];
      assert freed[..i + 1][..i] == freed[..i];
      assert Elems(freed[..i + 1]) == Elems(freed[..i]) + {element};
      rest := rest - {element};
      if reset(element) {
        resetted := resetted + [element];
      }
      i := i + 1;
    }
    assert freed[..i] == freed;
  }

  /**
    `getAvailable()`. Whatever order the key set is visited in, the visit is
    an enumeration of the lent instances and the result is the sweep over
    that enumeration.
   */
  method GetAvailable<T>(p: Pool<T>, dead: set<HandleId>, reset: T -> bool)
    returns (r: Swept<T>, order: seq<T>)
    ensures Enumerates(order, p.busy.Keys)
    ensures r == Sweep(p, dead, order, reset)
  {
    if |p.busy| == 0 {
      order := [];
      r := Swept(p, |p.available|, false);
      return;
    }
    var freed;
    freed, order := CollectFreed(p.busy, dead);
    var busy, resetted := ResetFreed(p.busy, freed, reset);
    var available := p.available + resetted;
    r := Swept(p.(available := available, busy := busy), |available|, |freed| > 0);
  }
}
