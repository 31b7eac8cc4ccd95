/** The observer registry of `PerformanceOptimizer` (`client/js/performance.js`): a `Map` from
    metric name to a `Set` of callbacks, with `addObserver`, `removeObserver` and
    `notifyObservers`.

    A JavaScript `Set` iterates in insertion order, so each metric's set is a duplicate-free
    sequence. Calling a callback is recorded, not executed: `notifyObservers` returns the calls it
    makes, in order, each with the metric's current value (`None` for `undefined`). Which
    callbacks throw is a parameter; a throw ends the `forEach` and propagates. */
module Performance {
  import opened Wrappers

  type Registry<M(==), C(==)> = map<M, seq<C>>

  predicate NoDuplicates<C(==)>(s: seq<C>) {
    forall i, j | 0 <= i < j < |s| :: s[i] != s[j]
  }

  /** Every metric's set really is a set. */
  predicate Valid<M(==), C(==)>(reg: Registry<M, C>) {
    forall m | m in reg :: NoDuplicates(reg[m])
  }

  /** `callback` is registered for `metric`. */
  predicate Registered<M(==), C(==)>(reg: Registry<M, C>, metric: M, callback: C) {
    metric in reg && callback in reg[metric]
  }

  /** `addObserver`: create the metric's set if it is missing, then add the callback to it (a
      callback already present keeps its place). */
  function AddObserver<M(==), C(==)>(reg: Registry<M, C>, metric: M, callback: C): (r: Registry<M, C>)
    ensures r.Keys == reg.Keys + {metric}
    ensures forall m | m in reg && m != metric :: r[m] == reg[m]
    ensures metric in reg && callback in reg[metric] ==> r == reg
    ensures callback !in (if metric in reg then reg[metric] else []) ==>
              r[metric] == (if metric in reg then reg[metric] else []) + [callback]
  {
    var set0 := if metric in reg then reg[metric] else [];
    if callback in set0 then reg[metric := set0] else reg[metric := set0 + [callback]]
  }

  /** `Set.prototype.delete`: the sequence without the callback, order kept. */
  function Without<C(==)>(s: seq<C>, callback: C): (r: seq<C>)
    ensures forall x | x in r :: x in s && x != callback
    ensures forall x | x in s && x != callback :: x in r
    ensures callback !in s ==> r == s
    ensures |r| <= |s|
  {
    if s == [] then []
    else if s[0] == callback then Without(s[1..], callback)
    else [s[0]] + Without(s[1..], callback)
  }

  /** Deleting distributes over concatenation, so every other callback keeps its place. */
  lemma {:induction false} WithoutAppend<C>(a: seq<C>, b: seq<C>, callback: C)
    ensures Without(a + b, callback) == Without(a, callback) + Without(b, callback)
    decreases |a|
  {
    if a != [] {
      assert (a + b)[0] == a[0];
      assert (a + b)[1..] == a[1..] + b;
      WithoutAppend(a[1..], b, callback);
    } else {
      assert a + b == b;
    }
  }

  /** A single callback is deleted exactly when it is the one named. */
  lemma WithoutSingle<C>(x: C, callback: C)
    ensures Without([x], callback) == if x == callback then [] else [x]
  {
    assert [x][1..] == [];
  }

  /** In a set, deleting a member splices it out of its place and leaves the rest in order. */
  lemma WithoutSplices<C>(s: seq<C>, i: nat)
    requires NoDuplicates(s) && i < |s|
    ensures Without(s, s[i]) == s[..i] + s[i + 1..]
  {
    OnlyAt(s, i);
    assert s == s[..i] + [s[i]] + s[i + 1..];
    WithoutAround(s[..i], s[i], s[i + 1..]);
  }

  /** Deleting the one occurrence of a callback leaves what was before and after it. */
  lemma WithoutAround<C>(a: seq<C>, c: C, b: seq<C>)
    requires c !in a && c !in b
    ensures Without(a + [c] + b, c) == a + b
  {
    calc {
      Without(a + [c] + b, c);
      { WithoutAppend(a + [c], b, c); }
      Without(a + [c], c) + Without(b, c);
      { WithoutAppend(a, [c], c); }
      Without(a, c) + Without([c], c) + Without(b, c);
      { WithoutSingle(c, c); assert Without(a, c) + [] == Without(a, c); }
      Without(a, c) + Without(b, c);
      a + b;
    }
  }

  /** A member of a set occurs nowhere else in it. */
  lemma OnlyAt<C>(s: seq<C>, i: nat)
    requires NoDuplicates(s) && i < |s|
    ensures s[i] !in s[..i] && s[i] !in s[i + 1..]
  {
    var a, b := s[..i], s[i + 1..];
    forall k | 0 <= k < |a| ensures a[k] != s[i] {
      assert a[k] == s[k];
    }
    forall k | 0 <= k < |b| ensures b[k] != s[i] {
      assert b[k] == s[i + 1 + k];
    }
  }

  lemma {:induction false} WithoutKeepsDistinct<C>(s: seq<C>, callback: C)
    requires NoDuplicates(s)
    ensures NoDuplicates(Without(s, callback))
  {
    if s != [] {
      WithoutKeepsDistinct(s[1..], callback);
      var rest := Without(s[1..], callback);
      assert s[0] !in s[1..];
      assert s[0] !in rest;
    }
  }

  /** `removeObserver`: an unknown metric is left alone; otherwise the callback leaves that
      metric's set, which stays in the map even when it becomes empty. */
  function RemoveObserver<M(==), C(==)>(reg: Registry<M, C>, metric: M, callback: C): (r: Registry<M, C>)
    ensures metric !in reg ==> r == reg
    ensures r.Keys == reg.Keys
    ensures forall m | m in reg && m != metric :: r[m] == reg[m]
    ensures metric in reg ==> forall x | x in r[metric] :: x in reg[metric] && x != callback
    ensures metric in reg ==> forall x | x in reg[metric] && x != callback :: x in r[metric]
    ensures metric in reg && NoDuplicates(reg[metric]) ==>
              forall i | 0 <= i < |reg[metric]| && reg[metric][i] == callback ::
                r[metric] == reg[metric][..i] + reg[metric][i + 1..]
  {
    if metric in reg then
      assert forall i | 0 <= i < |reg[metric]| && reg[metric][i] == callback && NoDuplicates(reg[metric]) ::
               Without(reg[metric], callback) == reg[metric][..i] + reg[metric][i + 1..] by {
        forall i | 0 <= i < |reg[metric]| && reg[metric][i] == callback && NoDuplicates(reg[metric])
          ensures Without(reg[metric], callback) == reg[metric][..i] + reg[metric][i + 1..] {
          WithoutSplices(reg[metric], i);
        }
      }
      reg[metric := Without(reg[metric], callback)]
    else reg
  }

  /** One callback invocation: the callback and the argument it receives. */
  datatype Call<C, V> = Call(callback: C, argument: Option<V>)

  /** What a notification did: the calls made, in order, and whether the last of them threw
      (the exception then propagates out of `notifyObservers`). */
  datatype Notified<C, V> = Notified(calls: seq<Call<C, V>>, threw: bool)

  /** `forEach` over the callbacks: each is called in turn until one throws. */
  function CallUntilThrow<C, V>(callbacks: seq<C>, arg: Option<V>, throws: C -> bool): (r: Notified<C, V>)
    ensures |r.calls| <= |callbacks|
    ensures forall i | 0 <= i < |r.calls| :: r.calls[i] == Call(callbacks[i], arg)
    ensures r.threw <==> exists i | 0 <= i < |callbacks| :: throws(callbacks[i])
    ensures !r.threw ==> |r.calls| == |callbacks|
    ensures r.threw ==> |r.calls| > 0 && throws(callbacks[|r.calls| - 1])
    ensures r.threw ==> forall i | 0 <= i < |r.calls| - 1 :: !throws(callbacks[i])
  {
    if |callbacks| == 0 then Notified([], false)
    else if throws(callbacks[0]) then Notified([Call(callbacks[0], arg)], true)
    else
      var rest := CallUntilThrow(callbacks[1..], arg, throws);
      assert forall i | 1 <= i < |callbacks| :: callbacks[i] == callbacks[1..][i - 1];
      Notified([Call(callbacks[0], arg)] + rest.calls, rest.threw)
  }

  /** `notifyObservers`: the callbacks registered for the metric, in insertion order, called
      with `metrics[metric]` until one throws; nothing for a metric with no set. */
  function NotifyObservers<M(==), C(==), V>(reg: Registry<M, C>, metrics: map<M, V>, metric: M,
                                             throws: C -> bool): (r: Notified<C, V>)
    ensures metric !in reg ==> r == Notified([], false)
    ensures metric in reg ==>
              var arg := if metric in metrics then Some(metrics[metric]) else None;
              && |r.calls| <= |reg[metric]|
              && (forall i | 0 <= i < |r.calls| :: r.calls[i].callback == reg[metric][i] && r.calls[i].argument == arg)
              && (r.threw <==> exists i | 0 <= i < |reg[metric]| :: throws(reg[metric][i]))
              && (!r.threw ==> |r.calls| == |reg[metric]|)
              && (r.threw ==> |r.calls| > 0 && throws(r.calls[|r.calls| - 1].callback)
                              && forall i | 0 <= i < |r.calls| - 1 :: !throws(r.calls[i].callback))
  {
    if metric !in reg then Notified([], false)
    else CallUntilThrow(reg[metric], if metric in metrics then Some(metrics[metric]) else None, throws)
  }

  /** Adding and removing keep every set free of duplicates, so a notification calls each
      registered callback exactly once. */
  lemma OperationsKeepValid<M, C>(reg: Registry<M, C>, metric: M, callback: C)
    requires Valid(reg)
    ensures Valid(AddObserver(reg, metric, callback))
    ensures Valid(RemoveObserver(reg, metric, callback))
  {
    if metric in reg {
      WithoutKeepsDistinct(reg[metric], callback);
    }
  }

  /** In a valid registry a notification calls no callback twice and no unregistered callback;
      when no callback throws, it calls each registered one exactly once. */
  lemma NotifyCallsEachOnce<M, C, V>(reg: Registry<M, C>, metrics: map<M, V>, metric: M, callback: C,
                                     throws: C -> bool)
    requires Valid(reg)
    ensures var n := NotifyObservers(reg, metrics, metric, throws);
            var calls := n.calls;
            && (forall i, j | 0 <= i < j < |calls| :: calls[i].callback != calls[j].callback)
            && (Registered(reg, metric, callback) && !n.threw ==>
                  exists i | 0 <= i < |calls| :: calls[i].callback == callback)
            && (!Registered(reg, metric, callback) ==> forall j | 0 <= j < |calls| :: calls[j].callback != callback)
  {
    var n := NotifyObservers(reg, metrics, metric, throws);
    if Registered(reg, metric, callback) && !n.threw {
      var i :| 0 <= i < |reg[metric]| && reg[metric][i] == callback;
      assert n.calls[i].callback == callback;
    }
  }

  /** Registration as a relation: adding relates exactly one more pair, removing relates
      exactly one pair fewer, and no other metric is touched. */
  lemma RegisteredAfter<M, C>(reg: Registry<M, C>, metric: M, callback: C, m: M, c: C)
    ensures Registered(AddObserver(reg, metric, callback), m, c) <==>
              Registered(reg, m, c) || (m == metric && c == callback)
    ensures Registered(RemoveObserver(reg, metric, callback), m, c) <==>
              Registered(reg, m, c) && !(m == metric && c == callback)
  {
  }

  /** Adding twice is adding once, and removing a callback just added gives back the old set
      of callbacks for that metric. */
  lemma AddIdempotentRemoveUndoes<M, C>(reg: Registry<M, C>, metric: M, callback: C)
    ensures AddObserver(AddObserver(reg, metric, callback), metric, callback) == AddObserver(reg, metric, callback)
    ensures metric in reg && callback !in reg[metric] ==>
              RemoveObserver(AddObserver(reg, metric, callback), metric, callback) == reg
  {
    if metric in reg && callback !in reg[metric] {
      WithoutAppended(reg[metric], callback);
      assert reg[metric := reg[metric]] == reg;
    }
  }

  lemma {:induction false} WithoutAppended<C>(s: seq<C>, callback: C)
    requires callback !in s
    ensures Without(s + [callback], callback) == s
  {
    if s != [] {
      assert (s + [callback])[1..] == s[1..] + [callback];
      WithoutAppended(s[1..], callback);
    } else {
      assert Without([callback][1..], callback) == [];
    }
  }
}
