# ratehttp in Dafny

A model of the scheduling core of `ratehttp`, a small Python library that runs
a batch of HTTP requests under a cap on concurrent connections, with
per-request retries, and returns the results in input order.

It has three modules, one for each part of the library's core:

- `Retrying` (`retrying.dfy`) models `RateSession`, the session wrapper. Its
  `__retry__` loop is the method `RateSession.Retry`. The callable it retries
  is represented by the outcomes of its successive calls: `func(n)` is what
  call number n+1 yields, either a value or an error. The loop is proved equal
  to the recursive function `RetryOutcome`. That function is characterised
  completely in its contract: the number of calls, the value returned, and
  what is raised. The five verb forwarders `get`, `patch`, `post`, `put` and
  `request` each go through the same loop, on the transport's outcomes for
  their own verb.
- `Reassembly` (`reassembly.dfy`) models the result table and how it is read
  out. `SortedKeys` lists a key set in ascending order, and `Readout` reads a
  table in that order. A handler call either succeeds or fails. A unit of work
  whose call fails stores nothing, because `func_mod` never reaches its store.
  `Succeeded` is the table a batch ends with: the successful results under
  their indices. `Collect` builds the table one completion at a time, for an
  arbitrary completion order. The lemmas prove the following:
  - every completion order gives the same table;
  - when every call succeeds, the readout is every result in input order;
  - when one call fails, the readout is one element short and shifted;
  - when every call fails, the readout is empty.
- `Scheduler` (`scheduler.dfy`) models `RateHttp`, the batch scheduler. The
  state of the coroutine `__limit__` is the class `Limiter`. Its fields are the
  set `tasks` of outstanding units of work, the launch counter `itr` and the
  result table `respList`. It also keeps a ghost history of launched units and
  the ghost set of indices a wait has seen finish. Its invariant `Valid` holds
  that:
  - at most `connections` units are outstanding;
  - the k-th launched unit carries index k and request k;
  - every launched unit not yet seen to finish is still outstanding;
  - the table holds exactly the finished units whose handler call succeeded,
    each under its own index.

  `asyncio.wait(..., FIRST_COMPLETED)` is modelled as a nondeterministic
  choice of a nonempty subset of the outstanding units, and the proofs hold
  for every choice. `asyncio.wait` raises `ValueError` when it is given an
  empty set, so both wait methods fail on an empty `tasks`. `Limit` is the
  launch loop of `__limit__` as written: the batch raises exactly when the
  request list is empty or `connections < 1`. `RateHttp.Execute` adds the
  empty-result fallback. `LimitIntended` is the batch as its fallback and
  docstring describe it (see Findings).

`RateSession.Retry` and the five verb methods implement the loop with the
last attempt's error kept (`error := LastError(e)`). The loop as Python runs
it is the separate function `RetryAsWrittenFrom`. Two facts about the code
set the retry semantics:

- With `retries <= 0`, `__retry__` makes no call at all. It raises the fresh
  `Exception()` created before the loop.
- After a failed call, `__retry__` raises an `UnboundLocalError`, not the last
  attempt's error (see Findings). The docstring of `RateSession` describes
  `retries` as the number of retries for a successful request.

## Model

| member | source | states |
|---|---|---|
| `Retrying.RetryFrom` | ratehttp/ratehttp.py:31-42 | from any loop state: the call count never exceeds `retries`; every call before the last one failed; a returned value is what the last call produced; giving up happens after exactly `retries` calls and raises the last call's error, or the initial exception if no call was made |
| `Retrying.RateSession.Retry` | ratehttp/ratehttp.py:31-42 | the `while` loop over the attempt counter gives exactly `RetryOutcome(func, retries)`; it keeps the last attempt's error, as the corrected loop of the Findings table does |
| `Retrying.CallsBounded` | ratehttp/ratehttp.py:32-34 | at most `max(retries, 0)` calls; with `retries <= 0` no call, and the fresh exception is raised |
| `Retrying.FirstSuccessReturned` | ratehttp/ratehttp.py:34-36 | if call k is the first success and k < retries, its value is returned after exactly k+1 calls |
| `Retrying.AllFailGivesUp` | ratehttp/ratehttp.py:33-42 | if every call within the budget fails, the loop gives up after exactly `max(retries, 0)` calls with the intended error |
| `Retrying.RetryAsWrittenFrom` | ratehttp/ratehttp.py:37-42 | the loop with Python 3's unbinding of the `except ... as error` name; its contract says only that the call count never goes down, and `AsWrittenLosesLastError` states what it does |
| `Retrying.AsWrittenLosesLastError` | ratehttp/ratehttp.py:37-42 | as written, the loop makes the same calls and returns the same values as intended, but after any failed call it raises `UnboundLocal` in place of that call's error |
| `Retrying.OneFailedCallLosesItsError` | ratehttp/ratehttp.py:33-42 | with one allowed call that fails with "timeout", the code as written raises `UnboundLocal`, while the intended loop raises "timeout" |
| `Retrying.RateSession.constructor` | ratehttp/ratehttp.py:26-28 | the session keeps the retry count it is given, 3 by default |
| `Retrying.RateSession.Get` | ratehttp/ratehttp.py:44-45 | `get` has the retry semantics of `RetryOutcome`, applied to the transport's GET outcomes |
| `Retrying.RateSession.Patch` | ratehttp/ratehttp.py:47-48 | `patch` has the retry semantics of `RetryOutcome`, applied to the PATCH outcomes |
| `Retrying.RateSession.Post` | ratehttp/ratehttp.py:50-51 | `post` has the retry semantics of `RetryOutcome`, applied to the POST outcomes |
| `Retrying.RateSession.Put` | ratehttp/ratehttp.py:53-54 | `put` has the retry semantics of `RetryOutcome`, applied to the PUT outcomes |
| `Retrying.RateSession.Request` | ratehttp/ratehttp.py:56-57 | `request` has the retry semantics of `RetryOutcome`, applied to the generic request's outcomes |
| `Reassembly.SortedKeys` | ratehttp/ratehttp.py:121 | the keys of the table in strictly ascending order: each key appears, nothing else does, and the length equals the number of keys |
| `Reassembly.Readout` | ratehttp/ratehttp.py:121 | reading the table in key order gives one value per entry |
| `Reassembly.RangeSortsToIdentity` | ratehttp/ratehttp.py:121 | the keys `{0..n-1}` sort to `0, 1, ..., n-1` |
| `Reassembly.ReadoutOfFullTable` | ratehttp/ratehttp.py:121 | a table with keys exactly `0..n-1` reads out as a list of length n whose element i is the entry under key i |
| `Reassembly.MissingKeyShifts` | ratehttp/ratehttp.py:121 | a table holding the keys `0..n-1` except j reads out with n-1 elements: position i < j holds the entry under i, and position i >= j holds the entry under i+1 |
| `Reassembly.SkipSorts` | ratehttp/ratehttp.py:121 | the keys `0..n-1` without j sort to `0, ..., j-1, j+1, ..., n-1` |
| `Reassembly.IncreasingUnique` | ratehttp/ratehttp.py:121 | two strictly ascending key lists with the same members are equal, so sorting the items has a single answer |
| `Reassembly.Collect` | ratehttp/ratehttp.py:98-100 | when units finish in a given order, the table holds exactly the finished indices whose handler call succeeded, each under its own index with that call's result |
| `Reassembly.AnyCompletionOrder` | ratehttp/ratehttp.py:98-121 | every completion order that covers all indices yields the same table, `Succeeded`: the successful results under their indices |
| `Reassembly.AllSucceededInOrder` | ratehttp/ratehttp.py:98-121 | when every handler call succeeds, the readout has the input's length and element i is the result for request i |
| `Reassembly.OneFailureShifts` | ratehttp/ratehttp.py:98-121 | when only the call for request j fails, the readout is one element short, and from position j on each element is the result for the next request |
| `Reassembly.MiddleFailureShifts` | ratehttp/ratehttp.py:98-121 | for requests `[10, 11, 12]` and a handler that fails on 11, the readout is `[10, 12]`, so 12 sits at the position of request 11 |
| `Reassembly.NoneSucceededReadsEmpty` | ratehttp/ratehttp.py:98-121 | when every handler call fails, the readout is `[]` |
| `Reassembly.FullLengthIffAllSucceeded` | ratehttp/ratehttp.py:98-121 | the readout has one element per request if and only if no handler call failed |
| `Scheduler.Stored` | ratehttp/ratehttp.py:98-100 | a set of finished units stores results exactly under the indices of those whose handler call succeeded, each one that call's result |
| `Scheduler.StoredIsCollect` | ratehttp/ratehttp.py:98-100 | storing the units of a completion order together at a wait gives the same table as storing them one at a time with `Collect` |
| `Scheduler.Limiter.constructor` | ratehttp/ratehttp.py:110-111 | a batch starts with no outstanding units, an empty result table and `itr = 0`, and the invariant holds |
| `Scheduler.Limiter.Launch` | ratehttp/ratehttp.py:113-119 | below the cap, launches the unit `(itr, reqList[itr])`: it joins the outstanding set as a new member, `itr` goes up by one, and the invariant `Valid`, which includes the cap of `connections` outstanding units, is kept |
| `Scheduler.Limiter.WaitFirstCompleted` | ratehttp/ratehttp.py:113-116 | on a nonempty outstanding set, removes the finished units, at least one, so the set shrinks, and adds the successful results to the table; on an empty set it fails and changes nothing |
| `Scheduler.Limiter.WaitAll` | ratehttp/ratehttp.py:120 | on a nonempty outstanding set, every launched unit is seen to finish, and once every request has been launched the table is `Succeeded`; on an empty set it fails and changes nothing |
| `Scheduler.Limit` | ratehttp/ratehttp.py:86-121 | for every choice of completions at each wait: the batch raises exactly when the request list is empty or `connections < 1`; otherwise unit k handles request k, one unit per request, and the result is the readout of `Succeeded` |
| `Scheduler.OrEmpty` | ratehttp/ratehttp.py:144-146 | the fallback never changes a list result |
| `Scheduler.LimitIntended` | ratehttp/ratehttp.py:120-146 | an empty request list gives `[]`; otherwise the batch returns a list if and only if every handler call succeeded, and then element i is the result for request i; otherwise it raises `HandlerFailed` |
| `Scheduler.RateHttp.constructor` | ratehttp/ratehttp.py:71-82 | the client keeps its connection cap and retry count, with defaults 5 and 3 |
| `Scheduler.RateHttp.Execute` | ratehttp/ratehttp.py:123-146 | raises exactly when the request list is empty or the cap is below one; otherwise returns the successful results in index order, one unit launched per request |

## Left out

- Retrying.RetryAsWrittenFrom: its own contract says only that the call count never goes down. What the code as written does is stated by `Retrying.AsWrittenLosesLastError`, relative to `Retrying.RetryFrom`.
- Reassembly.Readout: its own contract gives only the length. The key order it reads in is stated by `Reassembly.SortedKeys`, and the resulting list is stated by `Reassembly.ReadoutOfFullTable`.

- Timing: the launch spacing `1 / rate`, the retry sleep derived from it, `time.sleep` and `asyncio.sleep`. These are floating-point wall-clock effects. The `rate` parameter therefore has no counterpart in the model.
- The aiohttp session and connector: `raise_for_status`, `TCPConnector(limit_per_host=..., ssl=...)`, and the `async with` that opens and closes the session. These are library I/O, so the `ssl` flag is not modelled.
- Transport errors in the retry loop: aiohttp's `get` and the other verbs return a request object without sending anything. The request is sent, and a status or connection error is raised, only when the handler awaits that object, after `__retry__` has returned. So the loop as written never retries a transport error. The model does not capture this: `func(n)` is the outcome of the call itself, and the awaited request is not part of this model.
- The handler's access to the session: the model's handler is a function of the request alone, whose call succeeds or fails. A handler's internal use of the session's retries is not represented, and `RateHttp.retries` is only stored.
- The exception of a failed handler call: asyncio keeps it in the finished task and never re-raises it, so the batch goes on. The model records only that the call failed; the error value is dropped.
- The `tqdm` progress bar, which is observational only.
- Real concurrency: the event loop, `asyncio.create_task`, `asyncio.wait` and `asyncio.run`. A unit's result is stored when the wait that observes its completion returns, not at the moment the unit finishes. This does not affect the table the batch reads out at the end.
- Scheduler.LimitIntended: requires `connections >= 1`. With a smaller cap the batch as written raises on its first wait, and the intended behaviour for such a cap is not evident from the code.

## Findings

| source | as written | input that shows it | evidently intended | confidence | as-written member | corrected member |
|---|---|---|---|---|---|---|
| ratehttp/ratehttp.py:37-42 | Python 3 unbinds the name `error` at the end of `except Exception as error:`, so after any failed call, `raise error` on line 42 raises `UnboundLocalError` | `retries = 1` and a call that fails with "timeout" | re-raise the last attempt's error ("timeout") after the retries are spent | high, by Python 3's documented `except ... as` semantics; not executed | `Retrying.AsWrittenLosesLastError` | `Retrying.RetryFrom` |
| ratehttp/ratehttp.py:120 | `await asyncio.wait(tasks)` raises `ValueError` when `tasks` is empty, which it is for an empty request list, so `execute([])` raises and the `[]` fallback on lines 144-146 is never reached | `reqList == []` | an empty request list gives `[]` | high, by asyncio's documented behaviour on an empty set; not executed | `Scheduler.Limit` | `Scheduler.LimitIntended` |
| ratehttp/ratehttp.py:98-121 | a failed handler call leaves its index out of `resp_list`, and `asyncio.wait` does not re-raise the failure, so the list on line 121 is shorter and later results move to earlier positions | requests `[10, 11, 12]` with a handler that fails on 11: the result is `[10, 12]` | results line up with the requests, or the batch reports the failure | high, by asyncio's documented behaviour for task exceptions; not executed | `Reassembly.MiddleFailureShifts` | `Scheduler.LimitIntended` |
