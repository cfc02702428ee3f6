/** An event hook: a set of listeners, with an optional default handler
    that stands in while no listener was added through `on`. */
module EventHook {
  import opened Common

  /** A listener function, known by its identity. */
  datatype Handler = Handler(id: nat)

  /** `on(fn)` on the listener set: the default handler steps aside (when
      there is one), then `fn` joins. */
  function OnResult(fns: seq<Handler>, defaultHandler: Option<Handler>, fn: Handler): (r: seq<Handler>)
    ensures fn in r
    ensures defaultHandler.Some? && defaultHandler.value != fn ==> defaultHandler.value !in r
    ensures forall h :: h in r <==> h == fn || (h in fns && Some(h) != defaultHandler)
    ensures Distinct(fns) ==> Distinct(r)
  {
    var without := if defaultHandler.Some? then SetDelete(fns, defaultHandler.value) else fns;
    SetAdd(without, fn)
  }

  /** The `off` that `on(fn)` returns: `fn` leaves and the default handler
      (when there is one) comes back, whatever else is registered. */
  function ReturnedOffResult(fns: seq<Handler>, defaultHandler: Option<Handler>, fn: Handler): (r: seq<Handler>)
    ensures defaultHandler.None? ==> fn !in r
    ensures defaultHandler.Some? ==> defaultHandler.value in r
    ensures forall h :: h in r <==> (h in fns && h != fn) || Some(h) == defaultHandler
    ensures Distinct(fns) ==> Distinct(r)
  {
    var without := SetDelete(fns, fn);
    if defaultHandler.Some? then SetAdd(without, defaultHandler.value) else without
  }

  /** Deleting what was just added to a set that lacked it restores the
      set. */
  lemma {:induction false} DeleteAdded(s: seq<Handler>, x: Handler)
    requires x !in s
    ensures SetDelete(SetAdd(s, x), x) == s
  {
    DeleteAbsent(s, x);
    assert SetAdd(s, x) == s + [x];
    DeleteAppend(s, x);
  }

  lemma {:induction false} DeleteAbsent(s: seq<Handler>, x: Handler)
    requires x !in s
    ensures SetDelete(s, x) == s
    decreases |s|
  {
    if s != [] {
      DeleteAbsent(s[1..], x);
      assert s == [s[0]] + s[1..];
    }
  }

  lemma {:induction false} DeleteAppend(s: seq<Handler>, x: Handler)
    ensures SetDelete(s + [x], x) == SetDelete(s, x)
    decreases |s|
  {
    if s == [] {
      assert [x][1..] == [];
    } else {
      assert (s + [x])[1..] == s[1..] + [x];
      DeleteAppend(s[1..], x);
    }
  }

  /** A fresh hook with a default handler, then `on(fn)`, then the returned
      `off`: only the default handler is left. */
  lemma OnThenOffRestoresDefault(d: Handler, fn: Handler)
    requires fn != d
    ensures ReturnedOffResult(OnResult([d], Some(d), fn), Some(d), fn) == [d]
  {
    assert SetDelete([d], d) == [] by {
      assert [d][1..] == [];
    }
    assert OnResult([d], Some(d), fn) == [fn];
    assert SetDelete([fn], fn) == [] by {
      assert [fn][1..] == [];
    }
  }

  /** Without a default handler, `on(fn)` then the returned `off` undoes the
      registration exactly. */
  lemma OnThenOffWithoutDefault(fns: seq<Handler>, fn: Handler)
    requires fn !in fns
    ensures ReturnedOffResult(OnResult(fns, None, fn), None, fn) == fns
  {
    DeleteAdded(fns, fn);
  }

  /** With two listeners registered, the returned `off` of one brings the
      default handler back beside the other. */
  lemma DefaultBackBesideOthers(d: Handler, f1: Handler, f2: Handler)
    requires d != f1 && d != f2 && f1 != f2
    ensures var fns := OnResult(OnResult([d], Some(d), f1), Some(d), f2);
      fns == [f1, f2] && ReturnedOffResult(fns, Some(d), f1) == [f2, d]
  {
    assert SetDelete([d], d) == [] by {
      assert [d][1..] == [];
    }
    assert OnResult([d], Some(d), f1) == [f1];
    assert SetDelete([f1], d) == [f1] by {
      assert [f1][1..] == [];
    }
    assert OnResult([f1], Some(d), f2) == [f1, f2];
    assert SetDelete([f1, f2], f1) == [f2] by {
      assert [f1, f2][1..] == [f2];
      assert [f2][1..] == [];
    }
  }

  /** `createExtendedEventHook(defaultHandler)`. */
  class ExtendedEventHook {
    var fns: seq<Handler>
    const defaultHandler: Option<Handler>
    const hasDefaultHandler: bool

    ghost predicate Valid()
      reads this
    {
      Distinct(fns) && (hasDefaultHandler <==> defaultHandler.Some?)
    }

    constructor(defaultHandler: Option<Handler>)
      ensures Valid()
      ensures this.defaultHandler == defaultHandler
      ensures fns == if defaultHandler.Some? then [defaultHandler.value] else []
    {
      this.defaultHandler := defaultHandler;
      hasDefaultHandler := defaultHandler.Some?;
      fns := if defaultHandler.Some? then [defaultHandler.value] else [];
    }

    /** `hasListeners()`. */
    function HasListeners(): (r: bool)
      reads this
      ensures r <==> fns != []
    {
      |fns| > 0
    }

    /** `off(fn)`: removes `fn` and nothing else. */
    method Off(fn: Handler)
      requires Valid()
      modifies this
      ensures Valid()
      ensures fns == SetDelete(old(fns), fn)
      ensures forall h :: h in fns <==> h in old(fns) && h != fn
    {
      fns := SetDelete(fns, fn);
      forall h | h in old(fns) && h != fn
        ensures h in fns
      {
        var i :| 0 <= i < |old(fns)| && old(fns)[i] == h;
      }
    }

    /** `on(fn)`; the result stands for the `{ off }` object it returns. */
    method On(fn: Handler) returns (registration: Handler)
      requires Valid()
      modifies this
      ensures Valid()
      ensures registration == fn
      ensures fns == OnResult(old(fns), defaultHandler, fn)
    {
      if defaultHandler.Some? && hasDefaultHandler {
        fns := SetDelete(fns, defaultHandler.value);
      }
      fns := SetAdd(fns, fn);
      registration := fn;
    }

    /** Calling the `off` that `on(fn)` returned. */
    method ReturnedOff(fn: Handler)
      requires Valid()
      modifies this
      ensures Valid()
      ensures fns == ReturnedOffResult(old(fns), defaultHandler, fn)
    {
      Off(fn);
      if defaultHandler.Some? && hasDefaultHandler {
        fns := SetAdd(fns, defaultHandler.value);
      }
    }

    /** `trigger(param)`: every registered listener is called once with
      `param`, in registration order. */
    method Trigger<P>(param: P) returns (calls: seq<(Handler, P)>)
      requires Valid()
      ensures |calls| == |fns|
      ensures forall i :: 0 <= i < |fns| ==> calls[i] == (fns[i], param)
      ensures forall h :: h in fns ==> |set i | 0 <= i < |calls| && calls[i].0 == h| == 1
    {
      calls := Map(fns, (h: Handler) => (h, param));
      forall h | h in fns
        ensures |set i | 0 <= i < |calls| && calls[i].0 == h| == 1
      {
        var k :| 0 <= k < |fns| && fns[k] == h;
        assert (set i | 0 <= i < |calls| && calls[i].0 == h) == {k};
      }
    }
  }
}
