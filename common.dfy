/**
 * Values shared by both services: optional fields, the exceptions the services
 * raise, and the two reactive result shapes (Mono and Flux) re-expressed as
 * plain data.
 */
module Common {

  /** A Java reference that may be unset (null). */
  datatype Option<+T> = None | Some(value: T)

  /** A Java Double. The services only ever copy it, so it stays opaque. */
  datatype Double = Double(bits: bv64)

  /**
   * The exceptions raised along a pipeline. Each carries the message that the
   * global exception handler puts in the error body.
   */
  datatype Error =
    | NotFound(message: string)         // NotFoundException (404)
    | InvalidInput(message: string)     // InvalidInputException (422)
    | IllegalArgument(message: string)  // IllegalArgumentException
    | NullPointer                       // a getter called on an unset model

  /** What a Mono signals: one value, completion without a value, or an error. */
  datatype Mono<+T> = Just(value: T) | Empty | Fail(error: Error)

  /** What a finite Flux signals: its values in order, then completion (None) or an error. */
  datatype Flux<+T> = Flux(items: seq<T>, error: Option<Error>)

  /**
   * Mono.zip of two sources: a value only when both emit one; an error when
   * either fails. When both fail the two signals race; the model reports the
   * first source's error.
   */
  function Zip<A, B>(a: Mono<A>, b: Mono<B>): (r: Mono<(A, B)>)
    ensures r.Just? <==> a.Just? && b.Just?
    ensures r.Just? ==> r.value == (a.value, b.value)
    ensures r.Fail? <==> a.Fail? || b.Fail?
    ensures r.Fail? ==> r.error == (if a.Fail? then a.error else b.error)
  {
    if a.Fail? then Fail(a.error)
    else if b.Fail? then Fail(b.error)
    else if a.Empty? || b.Empty? then Empty
    else Just((a.value, b.value))
  }
}
