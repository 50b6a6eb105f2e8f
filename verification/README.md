# Least-connections load balancer

A model of the core of a small Go reverse-proxying load balancer. The balancer
holds a fixed, ordered pool of backends. Each backend has an address and a
counter of its active connections. For every incoming request it:

1. picks the backend with the fewest active connections
   (`GetLeastConnBackend`: one linear scan, running minimum starting at the
   sentinel `MaxInt`, replaced only on a strictly smaller count, so the earliest
   of the tied backends wins);
2. increments that backend's counter;
3. forwards the request;
4. decrements the counter when the handler returns (a deferred decrement).

The project has two layers:

- `selection.dfy` (module `Selection`) works on the values of the counters.
  - A pool state is the sequence of counters, in pool order.
  - Go's `int` is modelled as a 64-bit two's-complement `int64`, and `++`/`--` wrap explicitly.
  - `LeastConn` is the scan's result, and `IsLeastConn` is its declarative meaning: argmin, first index on ties, never a counter equal to `MaxInt`.
  - `AfterReserve` and `AfterRelease` give the counters after the two halves of a request.
  - The lemmas prove:
    - a reservation changes exactly the chosen counter;
    - a reserve/release pair is net zero;
    - counters always equal the number of requests in flight on each backend, whatever the interleaving of arrivals and departures (each taken as one step), so they never go negative;
    - load spreading from an idle pool;
    - the three-backend scenario of the program's startup pool, which `balancer.dfy` also states on the classes, one request per client method.
- `balancer.dfy` (module `Balancer`) is the imperative shape of the source.
  - `Backend` is a class with an in-place `activeConn` field.
  - `LoadBalancer` holds a sequence of backend references.
  - `GetLeastConnBackend` is the scan loop itself, proved against `LeastConn`.
  - `Reserve`, `Release` and `ServeHTTP` update the counters in place.
  - Statements that relate the whole pool's counters to `AfterReserve`/`AfterRelease` hold only for a pool in which no backend appears twice (`Distinct`). Otherwise two positions share one counter.
- `wrappers.dfy` holds the `Option` type that stands for a possibly-nil result.

Three behaviours of the code are worth stating outright:

- **Empty pool.** The code has no service-unavailable path: the scan returns nil and `ServeHTTP` dereferences it at main.go:42. The model returns `null`/`None` and changes no counter.
- **Counter updates and the lock.** The increment at main.go:42 and the deferred decrement at main.go:45 run outside the mutex, which guards only the scan (main.go:22-23). The model treats each step as atomic and claims nothing about concurrent requests.
- **`MaxInt` counters.** Because the scan compares strictly against the sentinel `MaxInt` (main.go:26, 29), a backend whose counter equals `MaxInt` is never selected; with every counter at `MaxInt` the result is nil. The model keeps this: the result is then absent.

## Model

| member | source | states |
|---|---|---|
| Selection.Inc | main.go:42 | `++` on a 64-bit int: the result is congruent to c + 1 modulo 2^64, equals c + 1 below `MaxInt`, and `Dec` undoes it on every value |
| Selection.Dec | main.go:45 | `--` on a 64-bit int: the result is congruent to c - 1 modulo 2^64 and equals c - 1 above `MinInt` |
| Selection.LeastConn | main.go:21-36 | the scan's choice is an index whose counter is below `MaxInt`, no larger than any counter, and strictly smaller than every earlier counter. It is absent exactly when every counter is `MaxInt`, which includes the empty pool. Any index with those properties is the one chosen |
| Balancer.LoadBalancer.GetLeastConnBackend | main.go:21-36 | the loop returns null exactly when every backend's counter is `MaxInt`. Otherwise it returns a backend of the pool whose counter is at most every counter, at a position where all earlier backends have strictly larger counters. The result is the backend at `LeastConn` of the pool's counters. No state is modified |
| Selection.ReserveIncrementsChosen | main.go:39-42 | a reservation keeps the pool size, adds exactly one to the chosen counter with no wrap-around, and leaves every other counter unchanged. When nothing is chosen it changes nothing |
| Selection.ReserveThenReleaseRestores | main.go:42-46 | decrementing the backend a reservation chose restores every counter exactly |
| Balancer.LoadBalancer.Reserve | main.go:39-42 | returns the backend at `LeastConn` of the old counters, or null. That backend's counter goes up by exactly one, and no other backend's counter changes. On a pool without repeated backends the new counters are `AfterReserve` of the old ones |
| Balancer.LoadBalancer.Release | main.go:43-46 | the released backend's counter becomes `Dec` of its old value. On a pool without repeated backends the new counters are `AfterRelease` at that backend's position |
| Balancer.LoadBalancer.ServeHTTP | main.go:38-54 | one request leaves every backend's counter where it started. It forwards to the address of the backend `LeastConn` chooses, or to nothing when no backend is chosen |
| Selection.TracksNonNegative | main.go:42-46 | counters that equal the number of reservations in flight are never negative |
| Selection.ReservePreservesTracking | main.go:39-42 | a reservation adds the chosen backend to the in-flight reservations and keeps counters equal to in-flight counts |
| Selection.ReleasePreservesTracking | main.go:43-46 | a backend holding an in-flight reservation has a positive counter. Releasing it keeps counters equal to in-flight counts |
| Selection.ReplayKeepsTracking | main.go:38-54 | any sequence of request arrivals and completions keeps the counters equal to the in-flight counts and keeps the pool size |
| Selection.ReplayFromIdleNonNegative | main.go:38-54 | starting from an all-zero pool, no sequence of arrivals and completions makes a counter negative |
| Selection.FilledNext | main.go:28-33 | when the first j backends carry one connection more than the rest, the next request takes backend j, and afterwards the first j + 1 carry the extra connection |
| Selection.ReservedFills | main.go:28-42 | k further requests held open leave exactly the first j + k backends at the higher count |
| Selection.PicksSpread | main.go:28-42 | k further requests held open pick backends j, j + 1, ..., j + k - 1, in that order |
| Selection.IdlePoolSpreads | main.go:28-42 | from an idle pool of n backends, n requests held open pick every backend exactly once, in pool order (the i-th request takes backend i), and leave every counter at 1 |
| Selection.FirstArrival | main.go:57-61 | on three idle backends the first request takes backend 0, giving counters [1, 0, 0] |
| Selection.SecondArrival | main.go:57-61 | with the first request still open, the second request takes backend 1, giving [1, 1, 0] |
| Selection.ThirdArrival | main.go:57-61 | once the first request completes ([0, 1, 0]), the third request takes backend 0 again, giving [1, 1, 0] |
| Balancer.FirstRequest | main.go:57-63 | on the class, the start-up pool of three idle backends sends its first request to the first backend's address and leaves the counters at [1, 0, 0] |
| Balancer.SecondRequest | main.go:57-63 | on the class, with the first request still open, the second request goes to the second backend's address and the counters become [1, 1, 0] |
| Balancer.CompletionThenRequest | main.go:57-63 | on the class, with both requests open, the first completing and a third arriving sends the third to the first backend's address again and leaves the counters at [1, 1, 0] |
| Balancer.Backend.constructor | main.go:11-14 | a backend starts with the given address and connection count |
| Balancer.LoadBalancer.constructor | main.go:16-19 | the balancer holds the given backends in the given order |

## Left out

- The reverse proxy (main.go:48-53) is network I/O through a library. `ServeHTTP` treats forwarding as a step that does not touch the counters and returns the address it would forward to. The URL built from an address that already contains a scheme is not modelled.
- `main` (main.go:56-66) is left out: the listener, the port and the start-up message. Its three-backend pool appears in the three arrival lemmas and in the three client methods that build it with the class constructors.
- The mutex (main.go:18, 22-23) is left out, and so are concurrent requests. Every method runs as one sequential step. The increment and decrement at main.go:42 and main.go:45 run outside the lock in the source, so the source does not make select-then-increment atomic and does not keep concurrently updated counters race-free. The model claims neither.
- Balancer.LoadBalancer.ServeHTTP: on an empty pool, or when every counter is `MaxInt`, the source dereferences the nil result and panics. The model returns `None` and leaves every counter unchanged.
- Go's `int` is platform-sized. The model fixes it at 64 bits, the width of the platforms the sentinel `int(^uint(0) >> 1)` is usually evaluated on.
- Balancer.LoadBalancer.Reserve: the equation between the whole pool's counters and `AfterReserve` is stated only when no backend appears twice in the pool. The per-backend clauses hold for every pool.
- Balancer.LoadBalancer.Release: the equation with `AfterRelease` is likewise stated only for a pool without repeated backends.
- Selection.ReplayKeepsTracking: a completion that matches no request in flight is skipped. The handler cannot produce one, because each decrement is paired with the increment of the same call.
- Balancer.LoadBalancer.ServeHTTP: a failed forward is not a separate path. `proxy.ServeHTTP` (main.go:53) returns nothing to the handler, and the library reports an upstream failure to the client itself. A panic while forwarding would leave the handler early, but the deferred decrement at main.go:43-46 runs on that exit too. The model has a single exit, after forwarding, where it releases.
