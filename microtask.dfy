/** The microtask queue (es/index.js:80-148): callbacks queued by `run` are called in one batch
    by the next flush, each identified by a handle that `cancel` can use until that flush. */
module MicroTask {
  import opened Wrappers
  import opened Values

  /** The entries a flush calls, in queue order: the truthy ones. */
  function Runnable(entries: seq<Value>): (r: seq<Value>)
    ensures |r| <= |entries|
    ensures forall k :: 0 <= k < |r| ==> Truthy(r[k])
  {
    if |entries| == 0 then [] else Call(entries[0]) + Runnable(entries[1..])
  }

  /** The call one entry contributes: itself when it is truthy. */
  function Call(entry: Value): seq<Value>
  {
    if Truthy(entry) then [entry] else []
  }

  /** The calls of two queued runs follow one another. */
  lemma {:induction false} RunnableAppend(a: seq<Value>, b: seq<Value>)
    ensures Runnable(a + b) == Runnable(a) + Runnable(b)
  {
    if |a| == 0 {
      assert a + b == b;
    } else {
      var x := a + b;
      assert x[0] == a[0] && x[1..] == a[1..] + b;
      calc {
        Runnable(x);
        Call(a[0]) + Runnable(a[1..] + b);
        { RunnableAppend(a[1..], b); }
        Call(a[0]) + (Runnable(a[1..]) + Runnable(b));
        Runnable(a) + Runnable(b);
      }
    }
  }

  /** A null entry is never called. */
  lemma RunnableSkipsNull(a: seq<Value>, b: seq<Value>)
    ensures Runnable(a + [Null] + b) == Runnable(a) + Runnable(b)
  {
    assert Runnable([Null]) == [] by {
      assert [Null][1..] == [];
    }
    calc {
      Runnable(a + [Null] + b);
      { RunnableAppend(a + [Null], b); }
      Runnable(a + [Null]) + Runnable(b);
      { RunnableAppend(a, [Null]); }
      Runnable(a) + Runnable(b);
    }
  }

  /** Cancelling a queued callback removes exactly that call from the next flush and keeps
      the others in order. */
  lemma CancelledNotRun(entries: seq<Value>, i: nat)
    requires i < |entries| && Truthy(entries[i])
    ensures Runnable(entries) == Runnable(entries[..i]) + [entries[i]] + Runnable(entries[i + 1..])
    ensures Runnable(entries[i := Null]) == Runnable(entries[..i]) + Runnable(entries[i + 1..])
  {
    assert entries == entries[..i] + [entries[i]] + entries[i + 1..];
    assert entries[i := Null] == entries[..i] + [Null] + entries[i + 1..];
    RunnableAppend(entries[..i] + [entries[i]], entries[i + 1..]);
    RunnableAppend(entries[..i], [entries[i]]);
    assert [entries[i]][1..] == [];
    RunnableSkipsNull(entries[..i], entries[i + 1..]);
  }

  /** A value is called by the flush exactly when it is a truthy entry of the queue. */
  lemma {:induction false} RunnableMeaning(entries: seq<Value>, v: Value)
    ensures v in Runnable(entries) <==> v in entries && Truthy(v)
  {
    if |entries| > 0 {
      RunnableMeaning(entries[1..], v);
      assert entries == [entries[0]] + entries[1..];
    }
  }

  /** The queue's state: the handle the next `run` returns (`microtaskCurrHandle`), the handle
      of the first queued entry (`microtaskLastHandle`), the queued entries, and the counter
      written to the observed text node to schedule a flush. */
  class Queue {
    var currHandle: nat
    var lastHandle: nat
    var callbacks: seq<Value>
    var nodeContent: nat

    /** The queued entries carry the handles from `lastHandle` up to the next one. */
    ghost predicate Valid()
      reads this
    {
      currHandle == lastHandle + |callbacks|
    }

    constructor()
      ensures Valid() && currHandle == 0 && lastHandle == 0 && callbacks == [] && nodeContent == 0
    {
      currHandle := 0;
      lastHandle := 0;
      callbacks := [];
      nodeContent := 0;
    }

    /** `run(callback)`: schedules a flush, queues the callback and returns the next handle,
        which names the callback's entry. */
    method Run(callback: Value) returns (handle: nat)
      requires Valid()
      modifies this
      ensures Valid()
      ensures handle == old(currHandle) && currHandle == old(currHandle) + 1
      ensures lastHandle == old(lastHandle) && callbacks == old(callbacks) + [callback]
      ensures nodeContent == old(nodeContent) + 1
      ensures handle - lastHandle == |old(callbacks)| && callbacks[handle - lastHandle] == callback
    {
      nodeContent := nodeContent + 1;
      callbacks := callbacks + [callback];
      handle := currHandle;
      currHandle := currHandle + 1;
    }

    /** `cancel(handle)`: a handle from before the last flush is ignored; a handle whose entry
        is falsy or not yet issued is an error; otherwise its entry becomes null. */
    method Cancel(handle: int) returns (r: Result<()>)
      requires Valid()
      modifies this
      ensures Valid() && currHandle == old(currHandle) && lastHandle == old(lastHandle)
      ensures nodeContent == old(nodeContent)
      ensures var idx := handle - lastHandle;
        if idx < 0 then r.Success? && callbacks == old(callbacks)
        else if idx >= |old(callbacks)| || !Truthy(old(callbacks)[idx]) then
          r == Failure("invalid async handle: " + IntToString(handle)) && callbacks == old(callbacks)
        else r.Success? && callbacks == old(callbacks)[idx := Null]
    {
      var idx := handle - lastHandle;
      if idx >= 0 {
        if idx >= |callbacks| || !Truthy(callbacks[idx]) {
          return Failure("invalid async handle: " + IntToString(handle));
        }
        callbacks := callbacks[idx := Null];
      }
      return Success(());
    }

    /** `microtaskFlush()`: calls the truthy queued entries in order (returned as `ran`), then
        drops the entries and moves `lastHandle` past them. */
    method Flush() returns (ran: seq<Value>)
      requires Valid()
      modifies this
      ensures Valid() && ran == Runnable(old(callbacks))
      ensures callbacks == [] && lastHandle == old(lastHandle) + |old(callbacks)|
      ensures currHandle == old(currHandle) && nodeContent == old(nodeContent)
    {
      var queued := callbacks;
      var len := |queued|;
      ran := [];
      for i := 0 to len
        invariant ran == Runnable(queued[..i])
        invariant callbacks == queued && lastHandle == old(lastHandle)
        invariant currHandle == old(currHandle) && nodeContent == old(nodeContent)
      {
        var cb := queued[i];
        RunnableAppend(queued[..i], [cb]);
        assert queued[..i + 1] == queued[..i] + [cb];
        assert [cb][1..] == [];
        if Truthy(cb) {
          ran := ran + [cb];
        }
      }
      assert queued[..len] == queued;
      callbacks := queued[len..];
      lastHandle := lastHandle + len;
    }
  }
}
