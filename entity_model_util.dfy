/**
 * The enrollments service's data model and the builders that copy fields
 * between its request, context, entity and response shapes.
 */
module EntityModelUtil {
  import opened Common

  datatype Semester = Fall | Spring | Summer

  /** The students service's reply, as the enrollments service decodes it. */
  datatype StudentResponse = StudentResponse(
    studentId: string, firstName: string, lastName: string, program: string, stuff: string)

  /** The courses service's reply, as the enrollments service decodes it. */
  datatype CourseResponse = CourseResponse(
    courseId: string, courseNumber: string, courseName: string,
    numHours: int, numCredits: Double, department: string)

  /** The body of a create or update request. */
  datatype EnrollmentRequest = EnrollmentRequest(
    enrollmentYear: int, semester: Semester, studentId: string, courseId: string)

  /**
   * The stored record. `id` is the persistence identifier and `enrollmentId`
   * the externally visible natural key; either may be unset on a freshly built
   * entity.
   */
  datatype Enrollment = Enrollment(
    id: Option<string>, enrollmentId: Option<string>,
    enrollmentYear: int, semester: Semester,
    studentId: string, studentFirstName: string, studentLastName: string,
    courseId: string, courseNumber: string, courseName: string)

  /** The public projection: the entity's nine fields other than `id`. */
  datatype EnrollmentResponse = EnrollmentResponse(
    enrollmentId: Option<string>, enrollmentYear: int, semester: Semester,
    studentId: string, studentFirstName: string, studentLastName: string,
    courseId: string, courseNumber: string, courseName: string)

  /**
   * The scratchpad of one add or update: the request and the two lookup
   * results, each unset until its lookup emits a value.
   */
  datatype RequestContext = RequestContext(
    request: EnrollmentRequest, student: Option<StudentResponse>, course: Option<CourseResponse>)

  /** new RequestContext(request): both lookup results unset. */
  function NewRequestContext(request: EnrollmentRequest): (rc: RequestContext)
    ensures rc.request == request && rc.student == None && rc.course == None
  {
    RequestContext(request, None, None)
  }

  /**
   * toEnrollmentEntity(rc), with the generated UUID passed in as `uuid`. The
   * builder reads the student model before the course model; an unset model
   * is dereferenced and raises a NullPointerException.
   */
  function ToEnrollmentEntity(rc: RequestContext, uuid: string): (r: Mono<Enrollment>)
    ensures r.Fail? <==> rc.student.None? || rc.course.None?
    ensures r.Fail? ==> r.error == NullPointer
    ensures r.Just? ==>
      && r.value.id == None
      && r.value.enrollmentId == Some(uuid)
      && r.value.enrollmentYear == rc.request.enrollmentYear
      && r.value.semester == rc.request.semester
      && r.value.studentId == rc.student.value.studentId
      && r.value.studentFirstName == rc.student.value.firstName
      && r.value.studentLastName == rc.student.value.lastName
      && r.value.courseId == rc.course.value.courseId
      && r.value.courseName == rc.course.value.courseName
      && r.value.courseNumber == rc.course.value.courseNumber
  {
    if rc.student.None? || rc.course.None? then Fail(NullPointer)
    else
      var s := rc.student.value;
      var c := rc.course.value;
      Just(Enrollment(
        None, Some(uuid), rc.request.enrollmentYear, rc.request.semester,
        s.studentId, s.firstName, s.lastName,
        c.courseId, c.courseNumber, c.courseName))
  }

  /** toEnrollmentEntity(response): the response's enrollmentId goes into `id`. */
  function ToEnrollmentEntityFromResponse(response: EnrollmentResponse): (e: Enrollment)
  {
    Enrollment(
      response.enrollmentId, None, response.enrollmentYear, response.semester,
      response.studentId, response.studentFirstName, response.studentLastName,
      response.courseId, response.courseNumber, response.courseName)
  }

  /** toEnrollmentResponseModel: a copy of every same-named property. */
  function ToEnrollmentResponseModel(e: Enrollment): (r: EnrollmentResponse)
  {
    EnrollmentResponse(
      e.enrollmentId, e.enrollmentYear, e.semester,
      e.studentId, e.studentFirstName, e.studentLastName,
      e.courseId, e.courseNumber, e.courseName)
  }

  /**
   * A response differs from the entity it projects only in `id`, which it
   * does not carry: two entities project to the same response exactly when
   * they agree everywhere except `id`.
   */
  lemma ResponseForgetsOnlyStorageId(a: Enrollment, b: Enrollment)
    ensures ToEnrollmentResponseModel(a) == ToEnrollmentResponseModel(b) <==> a.(id := b.id) == b
  {
  }

  /**
   * Going from a response to an entity and back loses the natural key: it
   * lands in `id`, which the response does not carry.
   */
  lemma ResponseEntityResponseDropsKey(response: EnrollmentResponse)
    ensures ToEnrollmentResponseModel(ToEnrollmentEntityFromResponse(response))
         == response.(enrollmentId := None)
  {
  }

  /**
   * Going from an entity to a response and back moves the natural key into
   * `id` and leaves the natural key unset; the other eight fields survive.
   */
  lemma EntityResponseEntityMovesKey(e: Enrollment)
    ensures ToEnrollmentEntityFromResponse(ToEnrollmentResponseModel(e))
         == e.(id := e.enrollmentId, enrollmentId := None)
  {
  }

  /**
   * The built entity's student fields are those of the student response, and
   * do not depend on the studentId the request asked for.
   */
  lemma EntityIgnoresRequestedStudentId(rc: RequestContext, otherStudentId: string, uuid: string)
    ensures ToEnrollmentEntity(rc.(request := rc.request.(studentId := otherStudentId)), uuid)
         == ToEnrollmentEntity(rc, uuid)
  {
  }
}
