/**
  The least-active-connections policy on the values of the per-backend counters.

  A pool's state is the sequence of its backends' active-connection counters, in
  pool order. Counters are Go `int`s, modelled here as 64-bit two's-complement
  integers: the scan starts from the sentinel MaxInt and the counter updates
  `++` and `--` wrap around at the ends of the range.
 */
module Selection {
  import opened Wrappers

  newtype int64 = x: int | -0x8000_0000_0000_0000 <= x < 0x8000_0000_0000_0000

  /** The sentinel the scan starts from: `int(^uint(0) >> 1)` on a 64-bit platform. */
  const MaxInt: int64 := 0x7FFF_FFFF_FFFF_FFFF
  const MinInt: int64 := -0x8000_0000_0000_0000

  const Modulus: int := 0x1_0000_0000_0000_0000

  /** Go's `c--` on an `int`. */
  function Dec(c: int64): (r: int64)
    ensures (c as int - 1 - r as int) % Modulus == 0
    ensures c != MinInt ==> r as int == c as int - 1
  {
    if c == MinInt then MaxInt else c - 1
  }

  /** Go's `c++` on an `int`; the decrement undoes it on every value. */
  function Inc(c: int64): (r: int64)
    ensures (c as int + 1 - r as int) % Modulus == 0
    ensures c != MaxInt ==> r as int == c as int + 1
    ensures Dec(r) == c
  {
    if c == MaxInt then MinInt else c + 1
  }

  /**
    Index i is the backend the least-connections policy chooses: its counter is
    below the sentinel, no counter is smaller, and every backend before it has a
    strictly larger counter (the earliest of the tied backends wins).
   */
  ghost predicate IsLeastConn(cs: seq<int64>, i: int)
  {
    && 0 <= i < |cs|
    && cs[i] < MaxInt
    && (forall j :: 0 <= j < |cs| ==> cs[i] <= cs[j])
    && (forall j :: 0 <= j < i ==> cs[i] < cs[j])
  }

  /**
    The result of the linear scan: the running minimum starts at MaxInt and the
    choice moves to a later backend only on a strictly smaller counter. None when
    the pool is empty or every counter equals MaxInt.
   */
  function LeastConn(cs: seq<int64>): (r: Option<nat>)
    ensures r.Some? ==> IsLeastConn(cs, r.value)
    ensures r.None? <==> forall j :: 0 <= j < |cs| ==> cs[j] == MaxInt
    ensures forall i :: IsLeastConn(cs, i) ==> r == Some(i)
    decreases |cs|
  {
    if |cs| == 0 then None
    else
      var prefix := cs[..|cs| - 1];
      var prev := LeastConn(prefix);
      var minConn := if prev.Some? then cs[prev.value] else MaxInt;
      if cs[|cs| - 1] < minConn then Some(|cs| - 1) else prev
  }

  /** The counters once a request has reserved a slot on the chosen backend. */
  function AfterReserve(cs: seq<int64>): (r: seq<int64>)
    ensures |r| == |cs|
  {
    match LeastConn(cs)
    case None => cs
    case Some(i) => cs[i := Inc(cs[i])]
  }

  /** The counters once the request holding a slot on backend i has finished. */
  function AfterRelease(cs: seq<int64>, i: nat): (r: seq<int64>)
    requires i < |cs|
    ensures |r| == |cs|
  {
    cs[i := Dec(cs[i])]
  }

  /** A reservation adds exactly one to the chosen counter, never wraps, and changes nothing else. */
  lemma ReserveIncrementsChosen(cs: seq<int64>)
    ensures |AfterReserve(cs)| == |cs|
    ensures LeastConn(cs).None? ==> AfterReserve(cs) == cs
    ensures LeastConn(cs).Some? ==>
      var i := LeastConn(cs).value;
      && AfterReserve(cs)[i] as int == cs[i] as int + 1
      && forall j :: 0 <= j < |cs| && j != i ==> AfterReserve(cs)[j] == cs[j]
  {
  }

  /** Releasing the backend a reservation chose restores every counter. */
  lemma ReserveThenReleaseRestores(cs: seq<int64>)
    requires LeastConn(cs).Some?
    ensures AfterRelease(AfterReserve(cs), LeastConn(cs).value) == cs
  {
  }

  /**
    The counters describe the requests in flight: backend i's counter is the
    number of reservations on i that have not been released.
   */
  ghost predicate Tracks(cs: seq<int64>, inFlight: multiset<nat>)
  {
    && (forall i :: 0 <= i < |cs| ==> cs[i] as int == inFlight[i])
    && (forall i :: i in inFlight ==> i < |cs|)
  }

  lemma TracksNonNegative(cs: seq<int64>, inFlight: multiset<nat>)
    requires Tracks(cs, inFlight)
    ensures forall i :: 0 <= i < |cs| ==> cs[i] >= 0
  {
  }

  lemma ReservePreservesTracking(cs: seq<int64>, inFlight: multiset<nat>)
    requires Tracks(cs, inFlight)
    requires LeastConn(cs).Some?
    ensures Tracks(AfterReserve(cs), inFlight + multiset{LeastConn(cs).value})
  {
    var i := LeastConn(cs).value;
    var after := inFlight + multiset{i};
    forall j | 0 <= j < |cs|
      ensures AfterReserve(cs)[j] as int == after[j]
    {
      ReserveIncrementsChosen(cs);
    }
  }

  lemma ReleasePreservesTracking(cs: seq<int64>, inFlight: multiset<nat>, i: nat)
    requires Tracks(cs, inFlight)
    requires i in inFlight
    ensures i < |cs| && cs[i] > 0
    ensures Tracks(AfterRelease(cs, i), inFlight - multiset{i})
  {
    var after := inFlight - multiset{i};
    forall j | 0 <= j < |cs|
      ensures AfterRelease(cs, i)[j] as int == after[j]
    {
    }
  }

  /** One step of the pool's life: a request arrives, or the request holding a slot on a backend departs. */
  datatype Event = Arrive | Depart(index: nat)

  /**
    Replays a sequence of events one at a time from the given counters and
    in-flight reservations. A departure that matches no reservation in flight
    is not something the handler can produce (each decrement is paired with the
    increment of the same call), so it is skipped.
   */
  function Replay(cs: seq<int64>, inFlight: multiset<nat>, trace: seq<Event>): (seq<int64>, multiset<nat>)
    decreases |trace|
  {
    if trace == [] then (cs, inFlight)
    else match trace[0]
      case Arrive =>
        (match LeastConn(cs)
         case None => Replay(cs, inFlight, trace[1..])
         case Some(i) => Replay(AfterReserve(cs), inFlight + multiset{i}, trace[1..]))
      case Depart(i) =>
        if i in inFlight && i < |cs| then Replay(AfterRelease(cs, i), inFlight - multiset{i}, trace[1..])
        else Replay(cs, inFlight, trace[1..])
  }

  /** Every interleaving of arrivals and departures keeps the counters equal to the in-flight counts. */
  lemma {:induction false} ReplayKeepsTracking(cs: seq<int64>, inFlight: multiset<nat>, trace: seq<Event>)
    requires Tracks(cs, inFlight)
    ensures Tracks(Replay(cs, inFlight, trace).0, Replay(cs, inFlight, trace).1)
    ensures |Replay(cs, inFlight, trace).0| == |cs|
    decreases |trace|
  {
    if trace != [] {
      match trace[0]
      case Arrive =>
        match LeastConn(cs) {
          case None =>
            ReplayKeepsTracking(cs, inFlight, trace[1..]);
          case Some(i) =>
            ReservePreservesTracking(cs, inFlight);
            ReserveIncrementsChosen(cs);
            ReplayKeepsTracking(AfterReserve(cs), inFlight + multiset{i}, trace[1..]);
        }
      case Depart(i) =>
        if i in inFlight && i < |cs| {
          ReleasePreservesTracking(cs, inFlight, i);
          ReplayKeepsTracking(AfterRelease(cs, i), inFlight - multiset{i}, trace[1..]);
        } else {
          ReplayKeepsTracking(cs, inFlight, trace[1..]);
        }
    }
  }

  /** n backends, each carrying c active connections. */
  function Uniform(n: nat, c: int64): seq<int64>
  {
    seq(n, _ => c)
  }

  /** n backends, all idle: the pool's state at process start. */
  function Idle(n: nat): seq<int64>
  {
    Uniform(n, 0)
  }

  /** Starting from an idle pool, every counter stays non-negative whatever the order of arrivals and departures. */
  lemma {:induction false} ReplayFromIdleNonNegative(n: nat, trace: seq<Event>)
    ensures var cs := Replay(Idle(n), multiset{}, trace).0;
      |cs| == n && forall i :: 0 <= i < n ==> cs[i] >= 0
  {
    assert Tracks(Idle(n), multiset{});
    ReplayKeepsTracking(Idle(n), multiset{}, trace);
    TracksNonNegative(Replay(Idle(n), multiset{}, trace).0, Replay(Idle(n), multiset{}, trace).1);
  }

  /** The counters after k arrivals with no departure in between. */
  function Reserved(cs: seq<int64>, k: nat): (r: seq<int64>)
    ensures |r| == |cs|
    decreases k
  {
    if k == 0 then cs
    else match LeastConn(cs)
      case None => cs
      case Some(_) => Reserved(AfterReserve(cs), k - 1)
  }

  /** The backends those k arrivals choose, in order; it stops early once the scan finds none. */
  function Picks(cs: seq<int64>, k: nat): seq<nat>
    decreases k
  {
    if k == 0 then []
    else match LeastConn(cs)
      case None => []
      case Some(i) => [i] + Picks(AfterReserve(cs), k - 1)
  }

  /** The k pool positions lo, lo + 1, ..., lo + k - 1 in order. */
  function Positions(lo: nat, k: nat): seq<nat>
    decreases k
  {
    if k == 0 then [] else [lo] + Positions(lo + 1, k - 1)
  }

  /** The first j backends carry c + 1 active connections and the others c. */
  ghost predicate Filled(cs: seq<int64>, j: nat, c: int64)
  {
    && c < MaxInt
    && j <= |cs|
    && (forall i :: 0 <= i < j ==> cs[i] as int == c as int + 1)
    && (forall i :: j <= i < |cs| ==> cs[i] == c)
  }

  /** The next request takes the first backend still at c, which then joins the others at c + 1. */
  lemma FilledNext(cs: seq<int64>, j: nat, c: int64)
    requires Filled(cs, j, c) && j < |cs|
    ensures LeastConn(cs) == Some(j)
    ensures Filled(AfterReserve(cs), j + 1, c)
  {
    assert IsLeastConn(cs, j);
  }

  /*
    The step lemmas below name the next position j' and the remaining count k'
    as parameters, so that the inductions can pass plain variables to their
    recursive calls.
   */

  lemma PositionsStep(j: nat, k: nat, j': nat, k': nat)
    requires 0 < k && j' == j + 1 && k' == k - 1
    ensures Positions(j, k) == [j] + Positions(j', k')
  {
  }

  lemma PicksStep(cs: seq<int64>, j: nat, k: nat, k': nat)
    requires LeastConn(cs) == Some(j) && 0 < k && k' == k - 1
    ensures Picks(cs, k) == [j] + Picks(AfterReserve(cs), k')
  {
  }

  lemma ReservedStep(cs: seq<int64>, j: nat, k: nat, k': nat)
    requires LeastConn(cs) == Some(j) && 0 < k && k' == k - 1
    ensures Reserved(cs, k) == Reserved(AfterReserve(cs), k')
  {
  }

  /** One arrival on a partly filled pool: it takes backend j and fills it. */
  lemma FilledStep(cs: seq<int64>, j: nat, k: nat, c: int64, j': nat, k': nat)
    requires Filled(cs, j, c) && j < |cs| && 0 < k && j' == j + 1 && k' == k - 1
    ensures Filled(AfterReserve(cs), j', c)
    ensures Reserved(cs, k) == Reserved(AfterReserve(cs), k')
    ensures Picks(cs, k) == [j] + Picks(AfterReserve(cs), k')
    ensures Positions(j, k) == [j] + Positions(j', k')
  {
    FilledNext(cs, j, c);
    PositionsStep(j, k, j', k');
    PicksStep(cs, j, k, k');
    ReservedStep(cs, j, k, k');
  }

  /** k further requests held open leave the first j + k backends at c + 1 and the rest at c. */
  lemma {:induction false} ReservedFills(cs: seq<int64>, j: nat, k: nat, c: int64)
    requires Filled(cs, j, c) && j + k <= |cs|
    ensures Filled(Reserved(cs, k), j + k, c)
    decreases k
  {
    if k > 0 {
      var j', k' := j + 1, k - 1;
      FilledStep(cs, j, k, c, j', k');
      ReservedFills(AfterReserve(cs), j', k', c);
    }
  }

  /**
    Load spreading: when the first j of the backends carry one request more
    than the others, k further requests held open (j + k at most the pool size)
    pick backends j, j + 1, ..., j + k - 1, one each, in pool order.
   */
  lemma {:induction false} PicksSpread(cs: seq<int64>, j: nat, k: nat, c: int64)
    requires Filled(cs, j, c) && j + k <= |cs|
    ensures Picks(cs, k) == Positions(j, k)
    decreases k
  {
    if k > 0 {
      var j', k' := j + 1, k - 1;
      FilledStep(cs, j, k, c, j', k');
      PicksSpread(AfterReserve(cs), j', k', c);
    }
  }

  /** Positions(lo, k) holds k entries, the i-th of which is lo + i. */
  lemma {:induction false} PositionsCount(lo: nat, k: nat)
    ensures |Positions(lo, k)| == k
    ensures forall i :: 0 <= i < k ==> Positions(lo, k)[i] == lo + i
    decreases k
  {
    if k > 0 {
      var lo', k' := lo + 1, k - 1;
      PositionsStep(lo, k, lo', k');
      PositionsCount(lo', k');
    }
  }

  /**
    From an idle pool of n backends, n requests held open choose each backend
    exactly once, in pool order: the i-th request takes backend i.
   */
  lemma IdlePoolSpreads(n: nat)
    ensures Picks(Idle(n), n) == Positions(0, n)
    ensures |Picks(Idle(n), n)| == n && forall i :: 0 <= i < n ==> Picks(Idle(n), n)[i] == i
    ensures Reserved(Idle(n), n) == Uniform(n, 1)
  {
    assert Filled(Idle(n), 0, 0);
    PicksSpread(Idle(n), 0, n, 0);
    PositionsCount(0, n);
    ReservedFills(Idle(n), 0, n, 0);
    var after := Reserved(Idle(n), n);
    assert forall i :: 0 <= i < n ==> after[i] == Uniform(n, 1)[i];
  }

  /** On three idle backends the first request takes backend 0. */
  lemma FirstArrival()
    ensures LeastConn([0, 0, 0]) == Some(0)
    ensures AfterReserve([0, 0, 0]) == [1, 0, 0]
  {
    assert IsLeastConn([0, 0, 0], 0);
  }

  /** While the first request is held open, the second takes backend 1. */
  lemma SecondArrival()
    ensures LeastConn([1, 0, 0]) == Some(1)
    ensures AfterReserve([1, 0, 0]) == [1, 1, 0]
  {
    assert IsLeastConn([1, 0, 0], 1);
  }

  /** Once the first request completes, the third request takes backend 0 again. */
  lemma ThirdArrival()
    ensures AfterRelease([1, 1, 0], 0) == [0, 1, 0]
    ensures LeastConn([0, 1, 0]) == Some(0)
    ensures AfterReserve([0, 1, 0]) == [1, 1, 0]
  {
    assert IsLeastConn([0, 1, 0], 0);
  }
}
