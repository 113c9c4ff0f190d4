/** `singleton(action)` (stream/buffered.py): calls made while the action
    is running are hooked to that run's result instead of starting another.
    The result event is a list of waiting callers; the action's completion
    is an input, `Complete`. */
module Coalescing {

  class Singleton<V> {
    /** The callers hooked to the result event, in the order they called. */
    var waiters: seq<nat>
    /** How many times the wrapped action was started. */
    var starts: nat
    /** Every result handed out: the caller and the value, in order. */
    var delivered: seq<(nat, V)>
    /** How many runs of the action have completed. */
    ghost var completions: nat

    /** A run is in flight exactly when callers are waiting, and every start
        but that one has completed. */
    ghost predicate Valid()
      reads this
    {
      starts == completions + (if waiters == [] then 0 else 1)
    }

    constructor ()
      ensures Valid() && waiters == [] && starts == 0 && delivered == []
    {
      waiters, starts, delivered := [], 0, [];
      completions := 0;
    }

    /** `singleton_action()` run with continuation `caller`: hook it to the
        result, and start the action only if it is the sole waiter. */
    method Call(caller: nat) returns (started: bool)
      requires Valid()
      modifies this
      ensures Valid()
      ensures started <==> old(waiters) == []
      ensures waiters == old(waiters) + [caller]
      ensures starts == old(starts) + (if started then 1 else 0)
      ensures delivered == old(delivered) && completions == old(completions)
    {
      waiters := waiters + [caller];
      started := |waiters| == 1;
      if started {
        starts := starts + 1;
      }
    }

    /** The running action finished with `v`: every waiter gets that same
        value, in the order they called, and the event is cleared. */
    method Complete(v: V)
      requires Valid() && waiters != []
      modifies this
      ensures Valid()
      ensures waiters == [] && starts == old(starts) && completions == old(completions) + 1
      ensures |delivered| == |old(delivered)| + |old(waiters)|
      ensures delivered[..|old(delivered)|] == old(delivered)
      ensures forall i :: 0 <= i < |old(waiters)| ==> delivered[|old(delivered)| + i] == (old(waiters)[i], v)
    {
      var i := 0;
      while i < |waiters|
        invariant 0 <= i <= |waiters|
        invariant |delivered| == |old(delivered)| + i
        invariant delivered[..|old(delivered)|] == old(delivered)
        invariant forall j :: 0 <= j < i ==> delivered[|old(delivered)| + j] == (waiters[j], v)
        invariant waiters == old(waiters) && starts == old(starts) && completions == old(completions)
      {
        delivered := delivered + [(waiters[i], v)];
        i := i + 1;
      }
      waiters := [];
      completions := completions + 1;
    }

    /** No second run while one is in flight. */
    lemma AtMostOneInFlight()
      requires Valid()
      ensures starts - completions <= 1
      ensures waiters != [] <==> starts == completions + 1
    {
    }
  }
}
