/**
 * The enrollments service's HTTP handlers: each path id is filtered on its
 * length before the service is called, and the service result is mapped to a
 * response entity.
 */
module EnrollmentController {
  import opened Common
  import opened Web
  import opened EntityModelUtil

  function InvalidEnrollmentId(enrollmentId: string): Error
  {
    InvalidInput("Invalid enrollment id: " + enrollmentId)
  }

  /**
   * GET /api/v1/enrollments/{enrollmentId}. A wrong-length id is rejected
   * whatever the service would answer; an empty service result is not
   * defaulted, so the reply is a 200 without a body.
   */
  function GetEnrollmentByEnrollmentId(enrollmentId: string, service: string -> Mono<EnrollmentResponse>)
    : (r: Mono<ResponseEntity<EnrollmentResponse>>)
    ensures |enrollmentId| != IdLength ==> r == Fail(InvalidInput("Invalid enrollment id: " + enrollmentId))
    ensures |enrollmentId| == IdLength && service(enrollmentId).Just? ==>
              r == Just(ResponseEntity(200, Some(service(enrollmentId).value)))
    ensures |enrollmentId| == IdLength && service(enrollmentId).Empty? ==> r == Empty
    ensures |enrollmentId| == IdLength && service(enrollmentId).Fail? ==> r == Fail(service(enrollmentId).error)
  {
    MapOk(ThenCall(FilterId(enrollmentId, InvalidEnrollmentId(enrollmentId)), service))
  }

  /** POST /api/v1/enrollments: 201 with the created enrollment, or 400 when the service emits nothing. */
  function AddEnrollment(result: Mono<EnrollmentResponse>): (r: Mono<ResponseEntity<EnrollmentResponse>>)
    ensures result.Just? ==> r == Just(ResponseEntity(201, Some(result.value)))
    ensures result.Empty? ==> r == Just(ResponseEntity(400, None))
    ensures result.Fail? ==> r == Fail(result.error)
  {
    DefaultIfEmptyBadRequest(MapCreated(result))
  }

  /**
   * PUT /api/v1/enrollments/{enrollmentId}; `service` is
   * id => updateEnrollmentByEnrollmentId(request, id). An empty result is a 400.
   */
  function UpdateEnrollmentByEnrollmentId(enrollmentId: string, service: string -> Mono<EnrollmentResponse>)
    : (r: Mono<ResponseEntity<EnrollmentResponse>>)
    ensures |enrollmentId| != IdLength ==> r == Fail(InvalidInput("Invalid enrollment id: " + enrollmentId))
    ensures |enrollmentId| == IdLength && service(enrollmentId).Just? ==>
              r == Just(ResponseEntity(200, Some(service(enrollmentId).value)))
    ensures |enrollmentId| == IdLength && service(enrollmentId).Empty? ==> r == Just(ResponseEntity(400, None))
    ensures |enrollmentId| == IdLength && service(enrollmentId).Fail? ==> r == Fail(service(enrollmentId).error)
  {
    DefaultIfEmptyBadRequest(MapOk(ThenCall(FilterId(enrollmentId, InvalidEnrollmentId(enrollmentId)), service)))
  }

  /** DELETE /api/v1/enrollments/{enrollmentId}: as update. */
  function DeleteEnrollmentByEnrollmentId(enrollmentId: string, service: string -> Mono<EnrollmentResponse>)
    : (r: Mono<ResponseEntity<EnrollmentResponse>>)
    ensures |enrollmentId| != IdLength ==> r == Fail(InvalidInput("Invalid enrollment id: " + enrollmentId))
    ensures |enrollmentId| == IdLength && service(enrollmentId).Just? ==>
              r == Just(ResponseEntity(200, Some(service(enrollmentId).value)))
    ensures |enrollmentId| == IdLength && service(enrollmentId).Empty? ==> r == Just(ResponseEntity(400, None))
    ensures |enrollmentId| == IdLength && service(enrollmentId).Fail? ==> r == Fail(service(enrollmentId).error)
  {
    DefaultIfEmptyBadRequest(MapOk(ThenCall(FilterId(enrollmentId, InvalidEnrollmentId(enrollmentId)), service)))
  }
}
