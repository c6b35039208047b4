/**
 * The batch scheduler. Requests are launched in input order as units of work
 * tagged with their index; no more than `connections` units are outstanding at
 * any time; each finished unit whose handler succeeded stores its result under
 * its index; the batch returns the stored results in index order.
 *
 * The event loop is replaced by a sequential model: waiting for the first
 * completed unit removes a nonempty, otherwise arbitrary, subset of the
 * outstanding units, and a unit's result is stored when a wait observes it.
 * Waiting on an empty set of units is an error, as it is in asyncio.
 */
module Scheduler {
  import opened Retrying
  import Reassembly

  /** A launched unit of work: the request it handles and the index it stores under. */
  datatype Task<Q> = Task(index: nat, request: Q)

  /** Why a batch raised instead of returning a list. */
  datatype BatchError =
    | EmptyWait        // `asyncio.wait` was given no units of work
    | HandlerFailed    // a handler call failed (the corrected batch only)

  /** What a batch yields: the list of results, or an exception. */
  datatype Batch<R> = Done(results: seq<R>) | Raised(error: BatchError)

  /**
   * The results a set of finished units stores: a unit whose handler succeeded
   * stores under its own index, a failed one stores nothing.
   */
  function Stored<Q(==), R, E>(done: set<Task<Q>>, reqList: seq<Q>, handler: Q -> Attempt<R, E>): (m: map<nat, R>)
    requires forall t :: t in done ==> t.index < |reqList| && t.request == reqList[t.index]
    ensures forall i: nat :: i in m <==> i < |reqList| && Task(i, reqList[i]) in done && handler(reqList[i]).Ok?
    ensures forall i :: i in m ==> i < |reqList| && m[i] == handler(reqList[i]).value
  {
    map t | t in done && handler(t.request).Ok? :: t.index := handler(t.request).value
  }

  /**
   * Storing at each wait agrees with storing one completion at a time: the
   * units of a completion order, stored together, give the table `Collect`
   * builds from that order.
   */
  lemma StoredIsCollect<Q, R, E>(order: seq<nat>, reqList: seq<Q>, handler: Q -> Attempt<R, E>)
    requires forall k :: 0 <= k < |order| ==> order[k] < |reqList|
    ensures Stored(set k | k in order && k < |reqList| :: Task(k, reqList[k]), reqList, handler)
            == Reassembly.Collect(order, reqList, handler)
  {
    var done := set k | k in order && k < |reqList| :: Task(k, reqList[k]);
    var m, c := Stored(done, reqList, handler), Reassembly.Collect(order, reqList, handler);
    forall i: nat
      ensures i in m <==> i in c
    {
      if i in order {
        var k :| 0 <= k < |order| && order[k] == i;
        assert Task(i, reqList[i]) in done;
      }
    }
    assert m.Keys == c.Keys;
  }

  /** A table holding the successful results of every request is the batch's final table. */
  lemma FullTable<Q, R, E>(table: map<nat, R>, reqList: seq<Q>, handler: Q -> Attempt<R, E>)
    requires forall i :: i in table <==> i in Reassembly.Range(|reqList|) && handler(reqList[i]).Ok?
    requires forall i :: i in table ==> table[i] == handler(reqList[i]).value
    ensures table == Reassembly.Succeeded(reqList, handler)
  {
    assert table.Keys == Reassembly.Succeeded(reqList, handler).Keys;
  }

  /** The state of one batch: the outstanding units, the launch counter and the result table. */
  class Limiter<Q(==), R, E> {
    const reqList: seq<Q>
    const handler: Q -> Attempt<R, E>
    const connections: int

    var tasks: set<Task<Q>>
    var itr: nat
    var respList: map<nat, R>

    /** Every unit launched so far, in launch order. */
    ghost var launched: seq<Task<Q>>
    /** The indices of the units a wait has seen finish. */
    ghost var finished: set<nat>

    ghost predicate Valid()
      reads this
    {
      && itr <= |reqList|
      // the k-th launched unit handles request k and stores under k
      && |launched| == itr
      && (forall k :: 0 <= k < itr ==> launched[k] == Task(k, reqList[k]))
      // the concurrency cap
      && (tasks == {} || |tasks| <= connections)
      && (forall t :: t in tasks ==> t.index < itr && t == launched[t.index])
      // a launched unit not yet seen to finish is still outstanding
      && (forall k :: k in finished ==> k < itr)
      && (forall k :: 0 <= k < itr && k !in finished ==> launched[k] in tasks)
      // the table holds the results of the finished units whose handler succeeded
      && (forall i :: i in respList <==> i in finished && handler(reqList[i]).Ok?)
      && (forall i :: i in respList ==> respList[i] == handler(reqList[i]).value)
    }

    constructor(reqList: seq<Q>, handler: Q -> Attempt<R, E>, connections: int)
      ensures Valid()
      ensures this.reqList == reqList && this.handler == handler && this.connections == connections
      ensures tasks == {} && itr == 0 && respList == map[] && launched == [] && finished == {}
    {
      this.reqList := reqList;
      this.handler := handler;
      this.connections := connections;
      tasks := {};
      itr := 0;
      respList := map[];
      launched := [];
      finished := {};
    }

    /** Launches the unit of work for the next request, below the cap. */
    method Launch()
      requires Valid()
      requires itr < |reqList|
      requires |tasks| < connections
      modifies this
      ensures Valid()
      ensures tasks == old(tasks) + {Task(old(itr), reqList[old(itr)])}
      ensures |tasks| == old(|tasks|) + 1
      ensures itr == old(itr) + 1
      ensures launched == old(launched) + [Task(old(itr), reqList[old(itr)])]
      ensures respList == old(respList) && finished == old(finished)
    {
      var t := Task(itr, reqList[itr]);
      assert t !in tasks;
      tasks := tasks + {t};
      launched := launched + [t];
      itr := itr + 1;
    }

    /**
     * Waits until at least one outstanding unit has finished: the units in
     * `done` are seen to finish and only the others stay outstanding. With no
     * outstanding unit the wait fails (`ok` is false) and nothing changes.
     */
    method WaitFirstCompleted(done: set<Task<Q>>) returns (ok: bool)
      requires Valid()
      requires done <= tasks
      requires tasks != {} ==> done != {}
      modifies this
      ensures Valid()
      ensures ok <==> old(tasks) != {}
      ensures tasks == old(tasks) - done
      ensures ok ==> |tasks| < old(|tasks|)
      ensures finished == old(finished) + set t | t in done :: t.index
      ensures respList == old(respList) + Stored(done, reqList, handler)
      ensures itr == old(itr) && launched == old(launched)
    {
      ok := tasks != {};
      respList := respList + Stored(done, reqList, handler);
      finished := finished + set t | t in done :: t.index;
      tasks := tasks - done;
    }

    /**
     * Waits for every outstanding unit to finish; the set itself is left as it
     * is. With no outstanding unit the wait fails and nothing changes.
     */
    method WaitAll() returns (ok: bool)
      requires Valid()
      modifies this
      ensures Valid()
      ensures ok <==> tasks != {}
      ensures ok ==> finished == Reassembly.Range(itr)
      ensures ok ==> respList == old(respList) + Stored(tasks, reqList, handler)
      ensures ok && itr == |reqList| ==> respList == Reassembly.Succeeded(reqList, handler)
      ensures !ok ==> finished == old(finished) && respList == old(respList)
      ensures tasks == old(tasks) && itr == old(itr) && launched == old(launched)
    {
      ok := tasks != {};
      if ok {
        respList := respList + Stored(tasks, reqList, handler);
        finished := finished + set t | t in tasks :: t.index;
        assert finished == Reassembly.Range(itr);
        if itr == |reqList| {
          FullTable(respList, reqList, handler);
        }
      }
    }
  }

  /**
   * Runs one batch as written: every request is launched once, in input order,
   * and the result is the table of successful results read out in index order.
   * An empty request list, or a cap below one, makes a wait receive no units
   * of work, and the batch raises.
   */
  method Limit<Q(==), R, E>(reqList: seq<Q>, handler: Q -> Attempt<R, E>, connections: int)
    returns (b: Batch<R>, ghost launched: seq<Task<Q>>)
    ensures b.Raised? <==> reqList == [] || connections < 1
    ensures b.Raised? ==> b.error == EmptyWait && launched == []
    ensures b.Done? ==> b.results == Reassembly.Readout(Reassembly.Succeeded(reqList, handler))
    ensures b.Done? ==> |launched| == |reqList|
    ensures forall k :: 0 <= k < |launched| ==> launched[k] == Task(k, reqList[k])
  {
    var limiter := new Limiter(reqList, handler, connections);
    for i := 0 to |reqList|
      invariant limiter.Valid()
      invariant limiter.itr == i
      invariant limiter.reqList == reqList && limiter.handler == handler && limiter.connections == connections
      invariant connections < 1 ==> i == 0
      invariant limiter.tasks != {} <==> i > 0
    {
      if |limiter.tasks| >= connections {
        assert limiter.tasks <= limiter.tasks;
        var done :| done <= limiter.tasks && (limiter.tasks != {} ==> done != {});
        var ok := limiter.WaitFirstCompleted(done);
        if !ok {
          return Raised(EmptyWait), limiter.launched;
        }
      }
      limiter.Launch();
    }
    var ok := limiter.WaitAll();
    launched := limiter.launched;
    if !ok {
      return Raised(EmptyWait), launched;
    }
    b := Done(Reassembly.Readout(limiter.respList));
  }

  /** The fallback applied to the batch's list: a list result is returned unchanged. */
  function OrEmpty<R>(result: seq<R>): (r: seq<R>)
    ensures r == result
  {
    if |result| > 0 then result else []
  }

  /**
   * The batch as evidently intended: an empty request list gives the empty
   * list, and otherwise the result lines up with the request list, or the
   * batch raises because a handler call failed.
   */
  method LimitIntended<Q(==), R, E>(reqList: seq<Q>, handler: Q -> Attempt<R, E>, connections: int) returns (b: Batch<R>)
    requires connections >= 1
    ensures reqList == [] ==> b == Done([])
    ensures b.Done? <==> forall i :: 0 <= i < |reqList| ==> handler(reqList[i]).Ok?
    ensures b.Done? ==> |b.results| == |reqList|
    ensures b.Done? ==> forall i :: 0 <= i < |reqList| ==> b.results[i] == handler(reqList[i]).value
    ensures b.Raised? ==> b.error == HandlerFailed
  {
    if reqList == [] {
      return Done([]);
    }
    ghost var launched;
    var r;
    r, launched := Limit(reqList, handler, connections);
    Reassembly.FullLengthIffAllSucceeded(reqList, handler);
    if |r.results| == |reqList| {
      Reassembly.AllSucceededInOrder(reqList, handler);
      b := r;
    } else {
      b := Raised(HandlerFailed);
    }
  }

  /** The client: batch configuration fixed at construction. */
  class RateHttp {
    const connections: int
    const retries: int

    constructor(connections: int := 5, retries: int := 3)
      ensures this.connections == connections && this.retries == retries
    {
      this.connections := connections;
      this.retries := retries;
    }

    /**
     * Handles every request of `reqList` and returns the successful results in
     * input order; an empty list, or a cap below one, raises.
     */
    method Execute<Q(==), R, E>(reqList: seq<Q>, handler: Q -> Attempt<R, E>) returns (b: Batch<R>, ghost launched: seq<Task<Q>>)
      ensures b.Raised? <==> reqList == [] || connections < 1
      ensures b.Raised? ==> b.error == EmptyWait && launched == []
      ensures b.Done? ==> b.results == Reassembly.Readout(Reassembly.Succeeded(reqList, handler))
      ensures b.Done? ==> |launched| == |reqList|
      ensures forall k :: 0 <= k < |launched| ==> launched[k] == Task(k, reqList[k])
    {
      var r;
      r, launched := Limit(reqList, handler, connections);
      b := if r.Done? then Done(OrEmpty(r.results)) else r;
    }
  }
}
