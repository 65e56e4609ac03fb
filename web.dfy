/**
 * The pieces both controllers build their handlers from: the 36-character
 * identifier filter and the mapping of a service result to a response entity.
 */
module Web {
  import opened Common

  /** The length of the canonical textual form of a UUID. */
  const IdLength := 36

  const StatusOk := 200
  const StatusCreated := 201
  const StatusBadRequest := 400

  datatype ResponseEntity<T> = ResponseEntity(status: int, body: Option<T>)

  /**
   * Mono.just(id).filter(id -> id.length() == 36).switchIfEmpty(Mono.error(invalid)):
   * a string length check only, with no check of UUID syntax.
   */
  function FilterId(id: string, invalid: Error): (r: Mono<string>)
    ensures r.Just? <==> |id| == IdLength
    ensures r.Just? ==> r.value == id
    ensures !r.Just? ==> r == Fail(invalid)
  {
    if |id| == IdLength then Just(id) else Fail(invalid)
  }

  /** flatMap(service): call the service only on an emitted id. */
  function ThenCall<T>(id: Mono<string>, service: string -> Mono<T>): Mono<T>
  {
    match id
    case Just(v) => service(v)
    case Empty => Empty
    case Fail(e) => Fail(e)
  }

  /** map(ResponseEntity::ok) */
  function MapOk<T>(m: Mono<T>): Mono<ResponseEntity<T>>
  {
    match m
    case Just(v) => Just(ResponseEntity(StatusOk, Some(v)))
    case Empty => Empty
    case Fail(e) => Fail(e)
  }

  /** map(c -> ResponseEntity.status(HttpStatus.CREATED).body(c)) */
  function MapCreated<T>(m: Mono<T>): Mono<ResponseEntity<T>>
  {
    match m
    case Just(v) => Just(ResponseEntity(StatusCreated, Some(v)))
    case Empty => Empty
    case Fail(e) => Fail(e)
  }

  /** defaultIfEmpty(ResponseEntity.badRequest().build()) */
  function DefaultIfEmptyBadRequest<T>(m: Mono<ResponseEntity<T>>): Mono<ResponseEntity<T>>
  {
    if m.Empty? then Just(ResponseEntity(StatusBadRequest, None)) else m
  }
}
