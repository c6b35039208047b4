/**
 * The retrying session: every request verb is routed through one loop that
 * calls the underlying transport until a call succeeds or `retries` calls
 * have failed.
 *
 * The callable handed to the loop is modelled by the outcomes of its
 * successive calls: `func(n)` is what the (n+1)-th call yields.
 */
module Retrying {

  /** The outcome of one call of the underlying transport. */
  datatype Attempt<T, E> = Ok(value: T) | Fail(error: E)

  /** What the loop raises once it gives up. */
  datatype Raised<E> =
    | FreshException        // the `Exception()` created before the first attempt
    | LastError(error: E)   // the error of the last failed attempt
    | UnboundLocal          // reading a local name that Python has already unbound

  /** The result of one retried call, with the number of calls of `func` it made. */
  datatype Retried<T, E> =
    | Returned(value: T, calls: nat)
    | Gave(error: Raised<E>, calls: nat)

  /** The request verbs the session exposes. */
  datatype Verb = Get | Patch | Post | Put | Request

  /** The underlying session: for each verb, the outcomes of its successive calls. */
  type Transport<T, E> = Verb -> nat -> Attempt<T, E>

  function Max0(n: int): nat { if n < 0 then 0 else n }

  /**
   * The loop, entered with `attempts` calls already failed and `error` bound
   * to what the loop would raise now. After a failed call `error` is bound to
   * that call's error.
   */
  function RetryFrom<T, E>(func: nat -> Attempt<T, E>, retries: int, attempts: nat, error: Raised<E>): (r: Retried<T, E>)
    ensures attempts <= r.calls
    ensures r.calls <= if attempts < retries then retries else attempts
    ensures forall j :: attempts <= j < r.calls && (r.Gave? || j < r.calls - 1) ==> func(j).Fail?
    ensures r.Returned? ==> attempts < r.calls && func(r.calls - 1) == Ok(r.value)
    ensures r.Gave? ==> r.calls == (if attempts < retries then retries else attempts)
    ensures r.Gave? && r.calls == attempts ==> r.error == error
    ensures r.Gave? && r.calls > attempts ==> r.error == LastError(func(r.calls - 1).error)
    decreases retries - attempts
  {
    if attempts < retries then
      match func(attempts)
      case Ok(v) => Returned(v, attempts + 1)
      case Fail(e) => RetryFrom(func, retries, attempts + 1, LastError(e))
    else
      Gave(error, attempts)
  }

  /** What one retried call yields, from a fresh attempt counter. */
  function RetryOutcome<T, E>(func: nat -> Attempt<T, E>, retries: int): Retried<T, E>
  {
    RetryFrom(func, retries, 0, FreshException)
  }

  /** The loop makes at most `retries` calls, and none at all when `retries <= 0`. */
  lemma CallsBounded<T, E>(func: nat -> Attempt<T, E>, retries: int)
    ensures RetryOutcome(func, retries).calls <= Max0(retries)
    ensures retries <= 0 ==> RetryOutcome(func, retries) == Gave(FreshException, 0)
  {
  }

  /** The first success is returned at once: the call count is its index plus one. */
  lemma FirstSuccessReturned<T, E>(func: nat -> Attempt<T, E>, retries: int, k: nat)
    requires k < retries
    requires func(k).Ok?
    requires forall j :: 0 <= j < k ==> func(j).Fail?
    ensures RetryOutcome(func, retries) == Returned(func(k).value, k + 1)
  {
  }

  /** If no call within the budget succeeds, the loop gives up after exactly `retries` calls. */
  lemma AllFailGivesUp<T, E>(func: nat -> Attempt<T, E>, retries: int)
    requires forall j :: 0 <= j < retries ==> func(j).Fail?
    ensures RetryOutcome(func, retries).Gave?
    ensures RetryOutcome(func, retries).calls == Max0(retries)
    ensures RetryOutcome(func, retries).error ==
              if retries <= 0 then FreshException else LastError(func(retries - 1).error)
  {
  }

  /**
   * The loop as the code is written. Python 3 unbinds the name bound by
   * `except Exception as error:` when the clause ends, so after a failed call
   * the local `error` is unbound, whatever the clause assigned to it.
   */
  function RetryAsWrittenFrom<T, E>(func: nat -> Attempt<T, E>, retries: int, attempts: nat, error: Raised<E>): (r: Retried<T, E>)
    ensures attempts <= r.calls
    decreases retries - attempts
  {
    if attempts < retries then
      match func(attempts)
      case Ok(v) => Returned(v, attempts + 1)
      case Fail(_) => RetryAsWrittenFrom(func, retries, attempts + 1, UnboundLocal)
    else
      Gave(error, attempts)
  }

  /**
   * As written, the loop agrees with the intended one on every call count and
   * every returned value, but once a call has failed it raises `UnboundLocal`
   * in place of that call's error.
   */
  lemma {:induction false} AsWrittenLosesLastError<T, E>(func: nat -> Attempt<T, E>, retries: int, attempts: nat, error: Raised<E>)
    ensures var w, r := RetryAsWrittenFrom(func, retries, attempts, error), RetryFrom(func, retries, attempts, error);
      w.calls == r.calls &&
      (w.Returned? <==> r.Returned?) &&
      (r.Returned? ==> w.value == r.value) &&
      (r.Gave? ==> w.error == if r.calls == attempts then error else UnboundLocal)
    decreases retries - attempts
  {
    if attempts < retries {
      match func(attempts)
      case Ok(_) =>
      case Fail(e) =>
        AsWrittenLosesLastError(func, retries, attempts + 1, UnboundLocal);
        AsWrittenLosesLastError(func, retries, attempts + 1, LastError(e));
        assert RetryAsWrittenFrom(func, retries, attempts + 1, UnboundLocal) == RetryAsWrittenFrom(func, retries, attempts, error);
        assert RetryFrom(func, retries, attempts + 1, LastError(e)) == RetryFrom(func, retries, attempts, error);
    }
  }

  /** A concrete input: one allowed call that fails with "timeout". */
  lemma OneFailedCallLosesItsError()
    ensures RetryAsWrittenFrom<int, string>((n: nat) => Fail("timeout"), 1, 0, FreshException) == Gave(UnboundLocal, 1)
    ensures RetryOutcome<int, string>((n: nat) => Fail("timeout"), 1) == Gave(LastError("timeout"), 1)
  {
  }

  /** The session wrapper: retry configuration plus the five verb forwarders. */
  class RateSession {
    const retries: int

    constructor(retries: int := 3)
      ensures this.retries == retries
    {
      this.retries := retries;
    }

    /** Calls `func` until a call succeeds or `retries` calls have failed. */
    method Retry<T, E>(func: nat -> Attempt<T, E>) returns (r: Retried<T, E>)
      ensures r == RetryOutcome(func, retries)
    {
      var attempts: nat := 0;
      var error: Raised<E> := FreshException;
      while attempts < retries
        invariant RetryFrom(func, retries, attempts, error) == RetryOutcome(func, retries)
        decreases retries - attempts
      {
        match func(attempts)
        case Ok(v) =>
          return Returned(v, attempts + 1);
        case Fail(e) =>
          attempts := attempts + 1;
          error := LastError(e);
      }
      r := Gave(error, attempts);
    }

    method Get<T, E>(transport: Transport<T, E>) returns (r: Retried<T, E>)
      ensures r == RetryOutcome(transport(Verb.Get), retries)
    {
      r := Retry(transport(Verb.Get));
    }

    method Patch<T, E>(transport: Transport<T, E>) returns (r: Retried<T, E>)
      ensures r == RetryOutcome(transport(Verb.Patch), retries)
    {
      r := Retry(transport(Verb.Patch));
    }

    method Post<T, E>(transport: Transport<T, E>) returns (r: Retried<T, E>)
      ensures r == RetryOutcome(transport(Verb.Post), retries)
    {
      r := Retry(transport(Verb.Post));
    }

    method Put<T, E>(transport: Transport<T, E>) returns (r: Retried<T, E>)
      ensures r == RetryOutcome(transport(Verb.Put), retries)
    {
      r := Retry(transport(Verb.Put));
    }

    method Request<T, E>(transport: Transport<T, E>) returns (r: Retried<T, E>)
      ensures r == RetryOutcome(transport(Verb.Request), retries)
    {
      r := Retry(transport(Verb.Request));
    }
  }
}
