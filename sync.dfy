/**
 * The one-shot result container used to hand the outcome of an asynchronous
 * connect from the callback thread to the waiting caller: a completion flag, an
 * optional value and an optional exception.
 */
module Sync {
  import opened Wrappers

  /** What a container holds at one moment. */
  datatype Contents<T, E> = Contents(done: bool, value: Option<T>, exception: Option<E>)

  /** The four `setDone` overloads, as data. */
  datatype Completion<T, E> =
    | Mark                                        // setDone()
    | WithValue(v: Option<T>)                     // setDone(value)
    | WithException(e: Option<E>)                 // setDone(exception)
    | WithBoth(bv: Option<T>, be: Option<E>)      // setDone(value, exception)
  {
    /** Whether this overload assigns the value field. */
    predicate StoresValue() { WithValue? || WithBoth? }

    /** Whether this overload assigns the exception field. */
    predicate StoresException() { WithException? || WithBoth? }

    /** The value this overload assigns. */
    function StoredValue(): Option<T> requires StoresValue() {
      if WithValue? then v else bv
    }

    /** The exception this overload assigns. */
    function StoredException(): Option<E> requires StoresException() {
      if WithException? then e else be
    }
  }

  /** The effect of one `setDone` call on the container's contents. */
  function Complete<T, E>(c: Contents<T, E>, op: Completion<T, E>): (r: Contents<T, E>)
    ensures r.done
  {
    match op
    case Mark => c.(done := true)
    case WithValue(v) => Contents(true, v, c.exception)
    case WithException(e) => Contents(true, c.value, e)
    case WithBoth(v, e) => Contents(true, v, e)
  }

  /** The contents after a sequence of `setDone` calls, in order. */
  function CompleteAll<T, E>(c: Contents<T, E>, ops: seq<Completion<T, E>>): Contents<T, E>
    decreases |ops|
  {
    if ops == [] then c else Complete(CompleteAll(c, ops[..|ops| - 1]), ops[|ops| - 1])
  }

  /**
   * Completion is monotone: a container that is done after some prefix of the
   * calls is done after all of them.
   */
  lemma {:induction false} DoneIsMonotone<T, E>(c: Contents<T, E>, ops: seq<Completion<T, E>>, k: nat)
    requires k <= |ops| && CompleteAll(c, ops[..k]).done
    ensures CompleteAll(c, ops).done
  {
    if k == |ops| {
      assert ops[..k] == ops;
    }
  }

  /** `getValue` returns the value of the most recent call that stored one. */
  lemma {:induction false} ValueIsLatest<T, E>(c: Contents<T, E>, ops: seq<Completion<T, E>>, i: nat)
    requires i < |ops| && ops[i].StoresValue()
    requires forall j :: i < j < |ops| ==> !ops[j].StoresValue()
    ensures CompleteAll(c, ops).value == ops[i].StoredValue()
    decreases |ops|
  {
    if i < |ops| - 1 {
      ValueIsLatest(c, ops[..|ops| - 1], i);
    }
  }

  /** Calls that store no value leave the value as it was. */
  lemma {:induction false} ValueUntouched<T, E>(c: Contents<T, E>, ops: seq<Completion<T, E>>)
    requires forall j :: 0 <= j < |ops| ==> !ops[j].StoresValue()
    ensures CompleteAll(c, ops).value == c.value
    decreases |ops|
  {
    if ops != [] {
      ValueUntouched(c, ops[..|ops| - 1]);
    }
  }

  /** `getException` returns the exception of the most recent call that stored one. */
  lemma {:induction false} ExceptionIsLatest<T, E>(c: Contents<T, E>, ops: seq<Completion<T, E>>, i: nat)
    requires i < |ops| && ops[i].StoresException()
    requires forall j :: i < j < |ops| ==> !ops[j].StoresException()
    ensures CompleteAll(c, ops).exception == ops[i].StoredException()
    decreases |ops|
  {
    if i < |ops| - 1 {
      ExceptionIsLatest(c, ops[..|ops| - 1], i);
    }
  }

  /** Calls that store no exception leave the exception as it was. */
  lemma {:induction false} ExceptionUntouched<T, E>(c: Contents<T, E>, ops: seq<Completion<T, E>>)
    requires forall j :: 0 <= j < |ops| ==> !ops[j].StoresException()
    ensures CompleteAll(c, ops).exception == c.exception
    decreases |ops|
  {
    if ops != [] {
      ExceptionUntouched(c, ops[..|ops| - 1]);
    }
  }

  /** The container itself: three fields updated in place by the `setDone` overloads. */
  class Result<T, E> {
    var done: bool
    var value: Option<T>
    var exception: Option<E>

    /** The container's current contents. */
    function Current(): Contents<T, E>
      reads this
    {
      Contents(done, value, exception)
    }

    /** `new Result()`: not done, no value, no exception. */
    constructor ()
      ensures Current() == Contents(false, None, None)
    {
      done, value, exception := false, None, None;
    }

    /** `new Result(initialValue)`: not done, holding the initial value and no exception. */
    constructor WithInitial(initialValue: Option<T>)
      ensures Current() == Contents(false, initialValue, None)
    {
      done, value, exception := false, initialValue, None;
    }

    /** `isDone()` */
    function IsDone(): bool
      reads this
    {
      done
    }

    /** `setDone()`: marks the container done; value and exception stay as they are. */
    method SetDone()
      modifies this
      ensures Current() == Complete(old(Current()), Mark)
      ensures done && value == old(value) && exception == old(exception)
    {
      done := true;
    }

    /** `setDone(value)`: stores the value and marks done; the exception stays as it is. */
    method SetDoneValue(v: Option<T>)
      modifies this
      ensures Current() == Complete(old(Current()), WithValue(v))
      ensures done && value == v && exception == old(exception)
    {
      value := v;
      SetDone();
    }

    /** `setDone(exception)`: stores the exception and marks done; the value stays as it is. */
    method SetDoneException(e: Option<E>)
      modifies this
      ensures Current() == Complete(old(Current()), WithException(e))
      ensures done && value == old(value) && exception == e
    {
      exception := e;
      SetDone();
    }

    /** `setDone(value, exception)`: stores both and marks done. */
    method SetDoneBoth(v: Option<T>, e: Option<E>)
      modifies this
      ensures Current() == Complete(old(Current()), WithBoth(v, e))
      ensures done && value == v && exception == e
    {
      value := v;
      exception := e;
      SetDone();
    }

    /** `getValue()` */
    function GetValue(): Option<T>
      reads this
    {
      value
    }

    /** `getException()` */
    function GetException(): Option<E>
      reads this
    {
      exception
    }
  }
}
