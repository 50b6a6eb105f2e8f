/**
  The load balancer's shared state and its request handler.

  A Backend is a heap object whose counter the handler updates in place; the
  load balancer holds the backends through a slice of pointers, whose order and
  membership never change. The mutex that guards the scan is not modelled: each
  method below runs as one sequential step.
 */
module Balancer {
  import opened Wrappers
  import opened Selection

  class Backend {
    const address: string
    var activeConn: int64

    constructor (address: string, activeConn: int64)
      ensures this.address == address && this.activeConn == activeConn
    {
      this.address := address;
      this.activeConn := activeConn;
    }
  }

  class LoadBalancer {
    const backends: seq<Backend>

    constructor (backends: seq<Backend>)
      ensures this.backends == backends
    {
      this.backends := backends;
    }

    /**
      The backends' counters, in pool order: the abstraction the pure selection
      policy is stated on. Its ensures only expose the comprehension to callers.
     */
    function Counts(): (cs: seq<int64>)
      reads backends
      ensures |cs| == |backends|
      ensures forall i :: 0 <= i < |backends| ==> cs[i] == backends[i].activeConn
    {
      seq(|backends|, i reads backends requires 0 <= i < |backends| => backends[i].activeConn)
    }

    /** No backend appears twice in the pool. */
    ghost predicate Distinct()
    {
      forall i, j :: 0 <= i < j < |backends| ==> backends[i] != backends[j]
    }

    /**
      The least-active-connections scan. The result is null exactly when no
      counter is below MaxInt (in particular on an empty pool); otherwise it is
      a backend of the pool whose counter is the smallest, the earliest such in
      pool order. Nothing is modified.
     */
    method GetLeastConnBackend() returns (selected: Backend?)
      ensures selected == null <==> forall j :: 0 <= j < |backends| ==> backends[j].activeConn == MaxInt
      ensures selected != null ==>
        && selected in backends
        && (forall b :: b in backends ==> selected.activeConn <= b.activeConn)
      ensures selected != null ==>
        exists i :: 0 <= i < |backends| && backends[i] == selected
          && forall j :: 0 <= j < i ==> backends[j].activeConn > selected.activeConn
      ensures match LeastConn(Counts())
        case None => selected == null
        case Some(i) => selected == backends[i]
    {
      selected := null;
      var minConn := MaxInt;
      ghost var chosen: Option<nat> := None;
      ghost var cs := Counts();
      for i := 0 to |backends|
        invariant chosen == LeastConn(cs[..i])
        invariant chosen.None? ==> selected == null && minConn == MaxInt
        invariant chosen.Some? ==> chosen.value < i && selected == backends[chosen.value] && minConn == cs[chosen.value]
      {
        assert cs[..i + 1][..i] == cs[..i];
        var backend := backends[i];
        if backend.activeConn < minConn {
          minConn := backend.activeConn;
          selected := backend;
          chosen := Some(i);
        }
      }
      assert cs[..|backends|] == cs;
    }

    /**
      The first half of a request: choose a backend and increment its counter.
      The chosen backend's counter goes up by exactly one (it was below MaxInt,
      so the increment never wraps) and every other backend keeps its counter.
      When the scan finds nothing the state is left as it was.
     */
    method Reserve() returns (backend: Backend?)
      modifies backends
      ensures match old(LeastConn(Counts()))
        case None => backend == null
        case Some(i) => backend == backends[i]
      ensures backend != null ==> backend.activeConn as int == old(backend.activeConn) as int + 1
      ensures forall b :: b in backends && b != backend ==> b.activeConn == old(b.activeConn)
      ensures Distinct() ==> Counts() == AfterReserve(old(Counts()))
    {
      backend := GetLeastConnBackend();
      if backend != null {
        backend.activeConn := Inc(backend.activeConn);
      }
    }

    /** The second half of a request: decrement the counter of the backend it reserved. */
    method Release(backend: Backend)
      modifies backend
      ensures backend.activeConn == Dec(old(backend.activeConn))
      ensures Distinct() ==> forall i :: 0 <= i < |backends| && backends[i] == backend ==>
        Counts() == AfterRelease(old(Counts()), i)
    {
      backend.activeConn := Dec(backend.activeConn);
    }

    /**
      One request from start to finish: reserve a backend, forward to its
      address, release the reservation. Forwarding does not touch the counters,
      and the release runs whether or not it succeeds, so every counter ends
      where it started. The result is the address the request is forwarded to,
      or None when the scan finds no backend.
     */
    method ServeHTTP() returns (target: Option<string>)
      modifies backends
      ensures forall b :: b in backends ==> b.activeConn == old(b.activeConn)
      ensures Counts() == old(Counts())
      ensures match old(LeastConn(Counts()))
        case None => target == None
        case Some(i) => target == Some(backends[i].address)
    {
      var backend := Reserve();
      if backend == null {
        return None;
      }
      // The request is forwarded to backend.address here.
      target := Some(backend.address);
      Release(backend);
    }
  }

  /*
    Clients of the class on the start-up pool of three backends, one step of
    the three-request scenario each. Each returns the address the new request
    is forwarded to and the counters afterwards.
   */

  /** Three idle backends: the first request takes the first backend. */
  method FirstRequest() returns (target: string, counts: seq<int64>)
    ensures target == "http://localhost:3031" && counts == [1, 0, 0]
  {
    var a := new Backend("http://localhost:3031", 0);
    var b := new Backend("http://localhost:3032", 0);
    var c := new Backend("http://localhost:3033", 0);
    var lb := new LoadBalancer([a, b, c]);
    assert lb.Distinct();
    assert lb.Counts() == [0, 0, 0];
    var first := lb.Reserve();
    assert first == a by { FirstArrival(); }
    target := first.address;
    counts := lb.Counts();
    FirstArrival();
  }

  /** With the first request still open, the second request takes the second backend. */
  method SecondRequest() returns (target: string, counts: seq<int64>)
    ensures target == "http://localhost:3032" && counts == [1, 1, 0]
  {
    var a := new Backend("http://localhost:3031", 1);
    var b := new Backend("http://localhost:3032", 0);
    var c := new Backend("http://localhost:3033", 0);
    var lb := new LoadBalancer([a, b, c]);
    assert lb.Distinct();
    assert lb.Counts() == [1, 0, 0];
    var second := lb.Reserve();
    assert second == b by { SecondArrival(); }
    target := second.address;
    counts := lb.Counts();
    SecondArrival();
  }

  /** With both requests open, the first completes and the next request takes the first backend again. */
  method CompletionThenRequest() returns (target: string, counts: seq<int64>)
    ensures target == "http://localhost:3031" && counts == [1, 1, 0]
  {
    var a := new Backend("http://localhost:3031", 1);
    var b := new Backend("http://localhost:3032", 1);
    var c := new Backend("http://localhost:3033", 0);
    var lb := new LoadBalancer([a, b, c]);
    assert lb.Distinct();
    assert lb.Counts() == [1, 1, 0];
    lb.Release(a);
    assert lb.Counts() == [0, 1, 0] by { ThirdArrival(); }
    var third := lb.Reserve();
    assert third == a by { ThirdArrival(); }
    target := third.address;
    counts := lb.Counts();
    ThirdArrival();
  }
}
