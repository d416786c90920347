/**
  Serialization of the pool. `writeObject` first writes the pool's own
  persistent fields (element types, proxy factory, resetter, mode), then a
  list made of the available instances followed by the lent ones in key
  iteration order; the mode decides whether that list or an empty one is
  written. `readObject` makes the read list the available instances of a new
  pool object with nothing lent.

  Whether a value can be written is a predicate `serializable` on instances
  and a flag `fieldsSerializable` for the pool's own fields; the byte format
  is not modelled.
 */
module Serialization {
  import opened SeqFacts
  import opened PoolCore

  /** What `writeObject` puts in the stream: the mode among the pool's fields, and the instance list. */
  datatype Snapshot<T> = Snapshot(mode: SerializationMode, elements: seq<T>)

  /** The outcome of `writeObject`: the written snapshot, or the exception it raises. */
  datatype Written<T> = Written(snapshot: Snapshot<T>) | Failed(error: Error)

  /** Every instance the pool manages, lent or not, can be written. */
  predicate AllSerializable<T>(p: Pool<T>, serializable: T -> bool) {
    && (forall x :: x in p.available ==> serializable(x))
    && (forall x :: x in p.busy ==> serializable(x))
  }

  /**
    `writeObject`. Unwritable pool fields fail in every mode. Otherwise
    STANDARD writes every managed instance and fails if one cannot be
    written; NONE writes the empty list; FORCE writes every managed instance
    when all can be written and the empty list otherwise, never failing on
    an instance.
   */
  function WriteObject<T>(p: Pool<T>, order: seq<T>, serializable: T -> bool, fieldsSerializable: bool)
    : (r: Written<T>)
    requires Enumerates(order, p.busy.Keys)
    ensures r.Failed? <==> !fieldsSerializable || (p.mode == STANDARD && !AllSerializable(p, serializable))
    ensures r.Failed? ==> r.error == NotSerializable
    ensures r.Written? ==> r.snapshot.mode == p.mode
    ensures r.Written? && (p.mode == NONE || !AllSerializable(p, serializable)) ==> r.snapshot.elements == []
    ensures r.Written? && p.mode != NONE && AllSerializable(p, serializable) ==>
      && p.available <= r.snapshot.elements
      && Enumerates(r.snapshot.elements[|p.available|..], p.busy.Keys)
  {
    if !fieldsSerializable then Failed(NotSerializable)
    else
      var instances := p.available + order;
      assert instances[|p.available|..] == order;
      WritableIffAll(p, order, serializable);
      var mode := if p.mode == FORCE then (if Writable(instances, serializable) then STANDARD else NONE) else p.mode;
      if mode == STANDARD then
        if Writable(instances, serializable) then Written(Snapshot(p.mode, instances))
        else Failed(NotSerializable)
      else
        assert p.mode == NONE || !AllSerializable(p, serializable);
        Written(Snapshot(p.mode, []))
  }

  /** The trial write of a list succeeds: every element can be written. */
  predicate Writable<T>(instances: seq<T>, serializable: T -> bool) {
    forall i :: 0 <= i < |instances| ==> serializable(instances[i])
  }

  /** The list `writeObject` builds is writable iff every managed instance is. */
  lemma WritableIffAll<T>(p: Pool<T>, order: seq<T>, serializable: T -> bool)
    requires Enumerates(order, p.busy.Keys)
    ensures Writable(p.available + order, serializable) <==> AllSerializable(p, serializable)
  {
    var instances := p.available + order;
    if Writable(instances, serializable) {
      forall x | x in p.busy
        ensures serializable(x)
      {
        assert x in Elems(order);
        var j :| 0 <= j < |order| && order[j] == x;
        assert instances[|p.available| + j] == x;
      }
      forall x | x in p.available
        ensures serializable(x)
      {
        var j :| 0 <= j < |p.available| && p.available[j] == x;
        assert instances[j] == x;
      }
    }
    if AllSerializable(p, serializable) {
      forall i | 0 <= i < |instances|
        ensures serializable(instances[i])
      {
        if i >= |p.available| {
          assert instances[i] == order[i - |p.available|];
          assert instances[i] in Elems(order);
        }
      }
    }
  }

  /**
    `readObject`: a new pool object whose available instances are the read
    list, in order, and with nothing lent.
   */
  function ReadObject<T>(s: Snapshot<T>, freshId: PoolId): (q: Pool<T>)
    ensures q.id == freshId && q.mode == s.mode
    ensures q.available == s.elements
    ensures q.busy == map[]
    ensures Size(q) == |s.elements|
    ensures Valid(q)
  {
    Pool(freshId, s.elements, map[], 0, s.mode)
  }

  /**
    A STANDARD pool, or a FORCE pool whose instances can all be written,
    survives a round trip with its size: every instance, lent or not, comes
    back as available, and nothing is lent.
   */
  lemma RoundTripKeepsEverything<T>(
    p: Pool<T>, order: seq<T>, serializable: T -> bool, freshId: PoolId)
    requires Enumerates(order, p.busy.Keys)
    requires p.mode != NONE && AllSerializable(p, serializable)
    ensures WriteObject(p, order, serializable, true).Written?
    ensures var q := ReadObject(WriteObject(p, order, serializable, true).snapshot, freshId);
      && Size(q) == Size(p)
      && q.busy == map[]
      && q.available[..|p.available|] == p.available
      && (forall x :: x in q.available <==> x in p.available || x in p.busy)
  {
    var w := WriteObject(p, order, serializable, true);
    var rest := w.snapshot.elements[|p.available|..];
    assert w.snapshot.elements == p.available + rest;
    DistinctCard(rest);
    assert |rest| == |p.busy.Keys|;
    forall x
      ensures x in w.snapshot.elements <==> x in p.available || x in p.busy
    {
      assert x in rest <==> x in Elems(rest);
    }
  }

  /**
    A NONE pool, and a FORCE pool holding an instance that cannot be
    written, come back empty; adding instances afterwards works.
   */
  lemma RoundTripEmpties<T>(
    p: Pool<T>, order: seq<T>, serializable: T -> bool, freshId: PoolId, more: seq<T>)
    requires Enumerates(order, p.busy.Keys)
    requires p.mode == NONE || (p.mode == FORCE && !AllSerializable(p, serializable))
    ensures WriteObject(p, order, serializable, true).Written?
    ensures var q := ReadObject(WriteObject(p, order, serializable, true).snapshot, freshId);
      && Size(q) == 0
      && var a := Add(q, Some(seq(|more|, i requires 0 <= i < |more| => Some(more[i]))));
      && a.error == None
      && a.pool.available == more
      && Size(a.pool) == |more|
  {
    var q := ReadObject(WriteObject(p, order, serializable, true).snapshot, freshId);
    var xs := seq(|more|, i requires 0 <= i < |more| => Some(more[i]));
    var a := Add(q, Some(xs));
    forall i | 0 <= i < |more|
      ensures a.pool.available[i] == more[i]
    {
      assert xs[i] == Some(more[i]);
    }
  }

  /**
    A handle lent by `p` before a round trip belongs to the old pool object.
    The pool read back is a new object, so releasing the handle into it raises
    IllegalArgumentException and changes nothing.
   */
  lemma StaleHandleRejected<T>(
    p: Pool<T>, order: seq<T>, serializable: T -> bool, freshId: PoolId, h: Handle<T>, reset: T -> bool)
    requires Enumerates(order, p.busy.Keys)
    requires h.pool == p.id && freshId != p.id
    ensures var w := WriteObject(p, order, serializable, true);
      w.Written? ==>
        var q := ReadObject(w.snapshot, freshId);
        Release(q, Proxy(h), reset) == Step(q, Some(IllegalArgument), false)
  {
  }
}
