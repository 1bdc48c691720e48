/*
 * The value-or-error sum type `Result<T, Error>` and its `void`
 * specialisation, include/mmml/result.hpp.
 *
 * A `Result` value is the engaged union member together with the
 * `m_has_value` flag; the datatypes below carry exactly that.  The
 * assignment operators, which update a `Result` object in place, are
 * modelled on the classes `ResultObject` and `VoidResultObject`.
 */
module Results {

  /** `Result<T, E>`: `Success` when `m_has_value`, `Failure` otherwise. */
  datatype Result<T, E> = Success(value: T) | Failure(error: E)
  {
    /** `has_value()` and `explicit operator bool`. */
    predicate HasValue() { Success? }

    /** `value()`, `operator*` and `operator->`, which assert `has_value()`. */
    function Value(): (v: T)
      requires HasValue()
      ensures this == Success(v)
    {
      value
    }

    /** `error()`, which asserts `!has_value()`. */
    function Error(): (e: E)
      requires !HasValue()
      ensures this == Failure(e)
    {
      error
    }
  }

  /** `Result<void, E>`: `Ok` when `m_has_value`, `Err` otherwise. */
  datatype VoidResult<E> = Ok | Err(error: E)
  {
    predicate HasValue() { Ok? }

    function Error(): (e: E)
      requires !HasValue()
      ensures this == Err(e)
    {
      error
    }
  }

  /** A `Result<T, E>` object; `state` is its current value. */
  class ResultObject<T, E> {
    var state: Result<T, E>

    /** The value constructors (with or without `Success_Tag`). */
    constructor FromValue(v: T)
      ensures state.HasValue() && state.Value() == v
    {
      state := Success(v);
    }

    /** The error constructors (with or without `Error_Tag`). */
    constructor FromError(e: E)
      ensures !state.HasValue() && state.Error() == e
    {
      state := Failure(e);
    }

    /** Copy and move construction take the state and the payload of `other`. */
    constructor Copy(other: ResultObject<T, E>)
      ensures state == other.state
    {
      if other.state.HasValue() {
        state := Success(other.state.value);
      } else {
        state := Failure(other.state.error);
      }
    }

    /** Copy assignment: afterwards this object has `other`'s state and
      * payload; assigning an object to itself changes nothing. */
    method CopyAssign(other: ResultObject<T, E>)
      modifies this
      ensures state == old(other.state)
      ensures other == this ==> state == old(state)
    {
      if this == other {
      } else if state.HasValue() && other.state.HasValue() {
        state := Success(other.state.value);
      } else if !state.HasValue() && !other.state.HasValue() {
        state := Failure(other.state.error);
      } else if state.HasValue() && !other.state.HasValue() {
        state := Failure(other.state.error);
      } else {
        state := Success(other.state.value);
      }
    }

    /** Move assignment: the same four cases without the self-assignment
      * test; the payload of `other` is taken over. */
    method MoveAssign(other: ResultObject<T, E>)
      modifies this
      ensures state == old(other.state)
    {
      if state.HasValue() && other.state.HasValue() {
        state := Success(other.state.value);
      } else if !state.HasValue() && !other.state.HasValue() {
        state := Failure(other.state.error);
      } else if state.HasValue() && !other.state.HasValue() {
        state := Failure(other.state.error);
      } else {
        state := Success(other.state.value);
      }
    }
  }

  /** A `Result<void, E>` object. */
  class VoidResultObject<E> {
    var state: VoidResult<E>

    /** The default constructor gives success. */
    constructor ()
      ensures state.HasValue()
    {
      state := Ok;
    }

    /** The error constructors give failure. */
    constructor FromError(e: E)
      ensures !state.HasValue() && state.Error() == e
    {
      state := Err(e);
    }

    constructor Copy(other: VoidResultObject<E>)
      ensures state == other.state
    {
      if other.state.HasValue() {
        state := Ok;
      } else {
        state := Err(other.state.error);
      }
    }

    /** Copy and move assignment (their bodies are the same): success
      * assigned to success changes nothing; every other combination takes
      * the state and error of `other`. */
    method Assign(other: VoidResultObject<E>)
      modifies this
      ensures state == old(other.state)
      ensures old(state.HasValue()) && old(other.state.HasValue()) ==> state == old(state)
    {
      if this == other {
      } else if state.HasValue() && other.state.HasValue() {
      } else if !state.HasValue() && !other.state.HasValue() {
        state := Err(other.state.error);
      } else if state.HasValue() && !other.state.HasValue() {
        state := Err(other.state.error);
      } else {
        state := Ok;
      }
    }
  }
}
