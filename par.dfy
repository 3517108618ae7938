/**
 * `demoLib.par`: runs several callback-style functions and joins their outcomes.
 * Each child's callback records `{ err, data }` under the child's key in `res`
 * and then checks whether every key has an outcome; if so, the join's callback
 * fires with an error map (when any outcome has an error) or a result map.
 * Launching the children is not modelled: settlements arrive in any order.
 */
module Par {
  import opened Wrappers
  import Utils

  /** What a child's callback recorded: its error (`None` for `null` or
      `undefined`) and its data. */
  datatype Outcome<E, D> = Outcome(err: Option<E>, data: D)

  /** What the join's callback receives: `callback(errorMap)` or `callback(null, resultMap)`. */
  datatype Completion<E, D> =
    | Failed(errors: map<string, Option<E>>)
    | Succeeded(results: map<string, D>)

  /** `keys.some(k => res[k].err != null)` */
  predicate AnyFailed<E, D>(res: map<string, Outcome<E, D>>)
  {
    exists k :: k in res && res[k].err.Some?
  }

  /** The completion `isdone` builds from `res`: if any outcome failed, a map of every
      key's error, including the `null` errors of the children that succeeded;
      otherwise a map of every key's data. */
  function Complete<E, D>(res: map<string, Outcome<E, D>>): (c: Completion<E, D>)
    ensures c.Failed? <==> exists k :: k in res && res[k].err.Some?
    ensures c.Failed? ==> c.errors.Keys == res.Keys && forall k :: k in res ==> c.errors[k] == res[k].err
    ensures c.Succeeded? ==> c.results.Keys == res.Keys && forall k :: k in res ==> c.results[k] == res[k].data
  {
    if AnyFailed(res) then Failed(map k | k in res :: res[k].err)
    else Succeeded(map k | k in res :: res[k].data)
  }

  /** A subset of a finite set with as many elements is the whole set: comparing
      `keys.length` with the number of functions decides whether every key settled. */
  lemma SameSizeSubset(a: set<string>, b: set<string>)
    requires a <= b && |a| == |b|
    ensures a == b
  {
    if a != b {
      var x :| x in b && x !in a;
      SubsetSize(a, b - {x});
    }
  }

  lemma {:induction false} SubsetSize(a: set<string>, b: set<string>)
    requires a <= b
    ensures |a| <= |b|
    decreases |b|
  {
    if a != {} {
      var x :| x in a;
      SubsetSize(a - {x}, b - {x});
    }
  }

  /** The bookkeeping of one `par(fns, callback)` call. */
  class Join<E, D> {
    /** The keys of `fns`. */
    const fns: set<string>
    /** The outcomes recorded so far. */
    var res: map<string, Outcome<E, D>>

    ghost predicate Valid()
      reads this
    {
      res.Keys <= fns
    }

    constructor (fns: set<string>)
      ensures this.fns == fns && res == map[]
      ensures Valid()
    {
      this.fns := fns;
      res := map[];
    }

    /** The callback of child `k` is called with `(err, data)`: its outcome overwrites
        any earlier one, and the join's callback fires, with the completion of all
        recorded outcomes, exactly when every key of `fns` has an outcome. An earlier
        failure does not make it fire before that, and a child that calls back again
        makes it fire again. */
    method Settle(k: string, err: Option<E>, data: D) returns (fired: Option<Completion<E, D>>)
      requires Valid() && k in fns
      modifies this
      ensures Valid()
      ensures res == old(res)[k := Outcome(err, data)]
      ensures fired.Some? <==> res.Keys == fns
      ensures fired.Some? ==> fired.value == Complete(res)
    {
      res := res[k := Outcome(err, data)];
      if |res.Keys| == |fns| {
        SameSizeSubset(res.Keys, fns);
        fired := Some(Complete(res));
      } else {
        fired := None;
      }
    }
  }

  /** One child calling back. */
  datatype Settlement<E, D> = Settlement(key: string, err: Option<E>, data: D)

  function SettledKey<E, D>(s: Settlement<E, D>): string { s.key }

  function SettledOutcome<E, D>(s: Settlement<E, D>): Outcome<E, D> { Outcome(s.err, s.data) }

  /** `res` after a sequence of settlements: each overwrites the key it settles. */
  function Recorded<E, D>(events: seq<Settlement<E, D>>): map<string, Outcome<E, D>>
  {
    Utils.Assign(events, SettledKey, SettledOutcome)
  }

  /** Every settlement comes from a child of `fns`. */
  predicate FromChildren<E, D>(fns: set<string>, events: seq<Settlement<E, D>>)
  {
    forall i :: 0 <= i < |events| ==> events[i].key in fns
  }

  /** The completions the join's callback receives, in order, for a sequence of
      settlements: after each settlement, the completion of `res` if every key has
      an outcome. */
  function Fired<E, D>(fns: set<string>, events: seq<Settlement<E, D>>): (calls: seq<Completion<E, D>>)
    ensures |calls| <= |events|
  {
    if events == [] then []
    else
      var res := Recorded(events);
      Fired(fns, events[..|events| - 1]) + (if res.Keys == fns then [Complete(res)] else [])
  }

  /** A join over `fns` receiving `events` in order; returns what its callback receives. */
  method Run<E, D>(fns: set<string>, events: seq<Settlement<E, D>>) returns (calls: seq<Completion<E, D>>)
    requires FromChildren(fns, events)
    ensures calls == Fired(fns, events)
  {
    var join := new Join(fns);
    calls := [];
    for n := 0 to |events|
      invariant join.fns == fns && join.Valid()
      invariant join.res == Recorded(events[..n])
      invariant calls == Fired(fns, events[..n])
    {
      var e := events[n];
      var fired := join.Settle(e.key, e.err, e.data);
      assert events[..n + 1][..n] == events[..n];
      if fired.Some? {
        calls := calls + [fired.value];
      }
    }
    assert events[..|events|] == events;
  }

  /** The join's callback fires at all exactly when every key of `fns` has settled at
      least once; in particular a join over no functions never fires, and a failure
      does not make it fire early. */
  lemma {:induction false} FiresIffAllSettled<E, D>(fns: set<string>, events: seq<Settlement<E, D>>)
    requires FromChildren(fns, events)
    ensures Fired(fns, events) != [] <==> events != [] && (forall k :: k in fns ==> exists i :: 0 <= i < |events| && events[i].key == k)
  {
    if events != [] {
      var init := events[..|events| - 1];
      assert FromChildren(fns, init);
      FiresIffAllSettled(fns, init);
      if Fired(fns, init) != [] {
        forall k | k in fns ensures exists i :: 0 <= i < |events| && events[i].key == k {
          var i :| 0 <= i < |init| && init[i].key == k;
          assert events[i].key == k;
        }
      }
    }
  }

  /** Once every key has settled, each further settlement fires the callback again,
      with the completion of the outcomes recorded so far. */
  lemma Refires<E, D>(fns: set<string>, events: seq<Settlement<E, D>>, e: Settlement<E, D>)
    requires Recorded(events).Keys == fns && e.key in fns
    ensures Fired(fns, events + [e]) == Fired(fns, events) + [Complete(Recorded(events + [e]))]
  {
    assert (events + [e])[..|events|] == events;
  }

  /** Each outcome a completion carries is the last settlement of that key. */
  lemma CompletionIsLatest<E, D>(fns: set<string>, events: seq<Settlement<E, D>>, k: string)
    requires Recorded(events).Keys == fns && k in fns
    ensures exists i ::
      && Utils.LastWithKey(events, SettledKey, i) && events[i].key == k
      && match Complete(Recorded(events))
         case Failed(errors) => errors[k] == events[i].err
         case Succeeded(results) => results[k] == events[i].data
  {
    var i := Utils.AssignEntry(events, SettledKey, SettledOutcome, k);
    assert events[i].key == k;
  }
}
