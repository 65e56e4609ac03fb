/**
 * The courses service's HTTP handlers: each path id is filtered on its length
 * before the service is called, and the service result is mapped to a
 * response entity.
 */
module CourseController {
  import opened Common
  import opened Web
  import opened CourseService

  /**
   * GET /api/v1/courses/{courseId}. A wrong-length id is rejected whatever the
   * service would answer; an empty service result is not defaulted.
   */
  function GetCourseByCourseId(courseId: string, service: string -> Mono<CourseResponse>)
    : (r: Mono<ResponseEntity<CourseResponse>>)
    ensures |courseId| != IdLength ==> r == Fail(InvalidInput("Provided courseId is invalid " + courseId))
    ensures |courseId| == IdLength && service(courseId).Just? ==>
              r == Just(ResponseEntity(200, Some(service(courseId).value)))
    ensures |courseId| == IdLength && service(courseId).Empty? ==> r == Empty
    ensures |courseId| == IdLength && service(courseId).Fail? ==> r == Fail(service(courseId).error)
  {
    MapOk(ThenCall(FilterId(courseId, InvalidInput("Provided courseId is invalid " + courseId)), service))
  }

  /** POST /api/v1/courses: 201 with the created course, or 400 when the service emits nothing. */
  function AddCourse(result: Mono<CourseResponse>): (r: Mono<ResponseEntity<CourseResponse>>)
    ensures result.Just? ==> r == Just(ResponseEntity(201, Some(result.value)))
    ensures result.Empty? ==> r == Just(ResponseEntity(400, None))
    ensures result.Fail? ==> r == Fail(result.error)
  {
    DefaultIfEmptyBadRequest(MapCreated(result))
  }

  /**
   * PUT /api/v1/courses/{courseId}; `service` is id => updateCourse(request, id).
   * A wrong-length id is rejected before the service; an empty result is a 400.
   */
  function UpdateCourseByCourseId(courseId: string, service: string -> Mono<CourseResponse>)
    : (r: Mono<ResponseEntity<CourseResponse>>)
    ensures |courseId| != IdLength ==> r == Fail(InvalidInput("Provided courseId is invalid " + courseId))
    ensures |courseId| == IdLength && service(courseId).Just? ==>
              r == Just(ResponseEntity(200, Some(service(courseId).value)))
    ensures |courseId| == IdLength && service(courseId).Empty? ==> r == Just(ResponseEntity(400, None))
    ensures |courseId| == IdLength && service(courseId).Fail? ==> r == Fail(service(courseId).error)
  {
    DefaultIfEmptyBadRequest(MapOk(ThenCall(
      FilterId(courseId, InvalidInput("Provided courseId is invalid " + courseId)), service)))
  }

  /** DELETE /api/v1/courses/{courseId}: as update, with its own rejection message. */
  function DeleteCourseByCourseId(courseId: string, service: string -> Mono<CourseResponse>)
    : (r: Mono<ResponseEntity<CourseResponse>>)
    ensures |courseId| != IdLength ==> r == Fail(InvalidInput("Provided Course id is invalid: " + courseId))
    ensures |courseId| == IdLength && service(courseId).Just? ==>
              r == Just(ResponseEntity(200, Some(service(courseId).value)))
    ensures |courseId| == IdLength && service(courseId).Empty? ==> r == Just(ResponseEntity(400, None))
    ensures |courseId| == IdLength && service(courseId).Fail? ==> r == Fail(service(courseId).error)
  {
    DefaultIfEmptyBadRequest(MapOk(ThenCall(
      FilterId(courseId, InvalidInput("Provided Course id is invalid: " + courseId)), service)))
  }
}
