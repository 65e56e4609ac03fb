# Reactive enrollment system — a verified model of its core

The system is two Spring WebFlux services. The **courses service** stores
courses keyed by a generated 36-character `courseId` and answers create,
read, update and delete requests. The **enrollments service** stores
enrollments keyed by a generated `enrollmentId`. When a request asks to
enroll a student in a course, the service looks the student up in the
students service and the course up in the courses service, then copies
their names and numbers into the stored record. Both services reject ids
whose length is not 36 before touching the store, and both turn an empty
result into `400 Bad Request` on writes.

The model covers:

- **Reactive values.** `Mono` is a value that emits one item, completes
  empty or fails with a typed error (`Common.Mono`). `Flux` is a finite
  sequence of items with an optional terminal error. `Mono.zip` is
  `Common.Zip`.
- **The stores.** The reactive repositories become one class,
  `Repository.Repository<T>`. It holds a map from natural key to record
  and the `findAll` order, and the services update it in place through
  `Save` and `Delete`.
- **The services.** `EnrollmentService.EnrollmentServiceImpl` and
  `CourseService.CourseServiceImpl` are classes over a store. Their methods
  are proved against specification functions such as `AddResult`,
  `UpdateResult` and `ReadAll`. Lemmas state what those functions promise:
  - where each field of a stored enrollment comes from;
  - which lookup's error wins;
  - that an update keeps the key;
  - that reading back what an add saved gives the reply the add returned.
- **`EntityModelUtil`**: the field-copying builders and the round trips
  between entity and response.
- **`CourseClient`**: the request URL and the mapping of the courses
  service's error statuses to typed errors.
- **The two controllers** (`CourseController`, `EnrollmentController`):
  the id-length guard, the error messages, and the mapping of a service
  result to 200, 201 or 400.

Things the code takes from outside are parameters of the model:

- Remote services are functions. The students service is a function from
  studentId to a `Mono`. The courses service is a function from request URL
  to HTTP reply, which `CourseClient.Decode` turns into a `Mono`.
- Generated UUIDs are parameters. The UUID for a new key must not already
  be a key in the store.
- The ids the database assigns on insert are parameters.

`EnrollmentServiceImpl` also keeps a ghost log of the remote lookups that
add and update issue, in order. It is used to state which lookups a
failure skips.

Reads re-fetch the student and the course of every stored record and
overwrite the names, course number and course name with what those lookups
return. They do not return the stored snapshot, and a failed lookup fails
the read.

## Model

| member | source | states |
|---|---|---|
| Common.Zip | enrollments-service/src/main/java/com/champlain/enrollmentsservice/businesslayer/enrollments/EnrollmentServiceImpl.java:56-60 | Mono.zip emits a pair exactly when both sources emit a value, and fails exactly when either fails, with the student side's error first. |
| Repository.Without | courses-service/src/main/java/com/champlain/courseservice/businesslayer/CourseServiceImpl.java:94 | Removing a key from the findAll order keeps every other key, loses that one, keeps keys distinct and shortens the order by one when the key was present. |
| Repository.Repository.Save | enrollments-service/src/main/java/com/champlain/enrollmentsservice/businesslayer/enrollments/EnrollmentServiceImpl.java:82 | save overwrites the record under a present key in place and appends a new key at the end of the findAll order; nothing else changes. |
| Repository.Repository.Delete | enrollments-service/src/main/java/com/champlain/enrollmentsservice/businesslayer/enrollments/EnrollmentServiceImpl.java:109 | delete removes exactly the record under the key, from the rows and from the order. |
| EntityModelUtil.ToEnrollmentEntity | enrollments-service/src/main/java/com/champlain/enrollmentsservice/utils/EntityModelUtil.java:11-23 | The entity gets the generated enrollmentId, no storage id, the request's year and semester, the student response's id and names and the course response's id, number and name; an unset model raises a NullPointerException. |
| EntityModelUtil.EntityIgnoresRequestedStudentId | enrollments-service/src/main/java/com/champlain/enrollmentsservice/utils/EntityModelUtil.java:16-18 | The built entity's student fields do not depend on the studentId the request asked for. |
| EntityModelUtil.ResponseForgetsOnlyStorageId | enrollments-service/src/main/java/com/champlain/enrollmentsservice/utils/EntityModelUtil.java:38-44 | Two entities have equal projections exactly when they agree on every field except the storage id. |
| EntityModelUtil.ResponseEntityResponseDropsKey | enrollments-service/src/main/java/com/champlain/enrollmentsservice/utils/EntityModelUtil.java:24-44 | Response to entity to response keeps eight fields and loses the enrollmentId, which the response-to-entity builder puts into id. |
| EntityModelUtil.EntityResponseEntityMovesKey | enrollments-service/src/main/java/com/champlain/enrollmentsservice/utils/EntityModelUtil.java:24-44 | Entity to response to entity moves the enrollmentId into id and leaves enrollmentId unset. |
| CourseClient.RequestUrlOfNewClient | enrollments-service/src/main/java/com/champlain/enrollmentsservice/domainclientlayer/Courses/CourseClient.java:21-30 | The GET for a course goes to http:// + host + : + port + /api/v1/courses/ + courseId. |
| CourseClient.RequestUrlInjective | enrollments-service/src/main/java/com/champlain/enrollmentsservice/domainclientlayer/Courses/CourseClient.java:21-30 | Different course ids are fetched from different URLs. |
| CourseClient.Decode | enrollments-service/src/main/java/com/champlain/enrollmentsservice/domainclientlayer/Courses/CourseClient.java:28-47 | An error status (4xx or 5xx) yields an error and any other status the decoded body (or nothing); 404 gives NotFound and 422 InvalidInput with messages naming the id; other errors give IllegalArgument "Something went wrong". |
| CourseClient.ErrorMessageNamesId | enrollments-service/src/main/java/com/champlain/enrollmentsservice/domainclientlayer/Courses/CourseClient.java:35-40 | The 404 and 422 messages identify the course id: equal messages mean equal ids. |
| CourseClient.OtherErrorIgnoresId | enrollments-service/src/main/java/com/champlain/enrollmentsservice/domainclientlayer/Courses/CourseClient.java:41-43 | For every other error status the error does not depend on the course id. |
| EnrollmentService.StudentRequestResponse | enrollments-service/src/main/java/com/champlain/enrollmentsservice/businesslayer/enrollments/EnrollmentServiceImpl.java:114-119 | A student lookup error passes through verbatim; a value is recorded in the context; an empty lookup still emits the context with the student unset. |
| EnrollmentService.CourseRequestResponse | enrollments-service/src/main/java/com/champlain/enrollmentsservice/businesslayer/enrollments/EnrollmentServiceImpl.java:121-126 | The same for the course lookup, leaving the student and the request untouched. |
| EnrollmentService.AssembleOutcome | enrollments-service/src/main/java/com/champlain/enrollmentsservice/businesslayer/enrollments/EnrollmentServiceImpl.java:78-81 | Starting from a new context with both lookup results unset, a failed student lookup is returned verbatim and the course lookup is never issued; otherwise a failed course lookup is returned verbatim; an empty lookup ends in a NullPointerException; with both values the entity's fields come from the request and the two lookups. |
| EnrollmentService.AddOutcome | enrollments-service/src/main/java/com/champlain/enrollmentsservice/businesslayer/enrollments/EnrollmentServiceImpl.java:76-85 | A successful add answers with the generated key, the request's year and semester and the lookups' student and course fields; lookup errors come back unchanged. |
| EnrollmentService.AddWithMissingCourse | enrollments-service/src/main/java/com/champlain/enrollmentsservice/businesslayer/enrollments/EnrollmentServiceImpl.java:121-126 | When the courses service answers 404, add fails with NotFound "CourseId not found: " + courseId. |
| EnrollmentService.ReadAfterAdd | enrollments-service/src/main/java/com/champlain/enrollmentsservice/businesslayer/enrollments/EnrollmentServiceImpl.java:56-72 | With stable remote services, reading back the saved record yields the reply the add gave. |
| EnrollmentService.Rekeyed | enrollments-service/src/main/java/com/champlain/enrollmentsservice/businesslayer/enrollments/EnrollmentServiceImpl.java:96-97 | The updated entity carries the stored enrollmentId and id and otherwise equals the assembled one. |
| EnrollmentService.UpdateAbsentKey | enrollments-service/src/main/java/com/champlain/enrollmentsservice/businesslayer/enrollments/EnrollmentServiceImpl.java:89-90 | Updating an absent key fails with NotFound "Enrollment id not found " + id and issues no lookup. |
| EnrollmentService.UpdateOutcome | enrollments-service/src/main/java/com/champlain/enrollmentsservice/businesslayer/enrollments/EnrollmentServiceImpl.java:88-99 | A successful update keeps the enrollmentId, takes year and semester from the request and the other fields from fresh lookups, and does not depend on the discarded UUID; lookup errors come back unchanged. |
| EnrollmentService.Refresh | enrollments-service/src/main/java/com/champlain/enrollmentsservice/businesslayer/enrollments/EnrollmentServiceImpl.java:56-72 | A read projection keeps the stored id, year, semester, studentId and courseId and takes the names, number and course name from the live lookups; it fails when either lookup fails. |
| EnrollmentService.ReadAllComplete | enrollments-service/src/main/java/com/champlain/enrollmentsservice/businesslayer/enrollments/EnrollmentServiceImpl.java:31-49 | When every lookup succeeds, getAll completes with one refreshed projection per stored record, in order. |
| EnrollmentService.ReadAllErrorFromLookup | enrollments-service/src/main/java/com/champlain/enrollmentsservice/businesslayer/enrollments/EnrollmentServiceImpl.java:31-49 | A getAll that fails fails with the error of some stored record's lookup. |
| EnrollmentService.ReadAllFailsOnFailedLookup | enrollments-service/src/main/java/com/champlain/enrollmentsservice/businesslayer/enrollments/EnrollmentServiceImpl.java:31-49 | A stored record whose student or course lookup fails makes getAll end in an error, wherever that record sits in the findAll order. |
| EnrollmentService.ReadAllItemsFromStore | enrollments-service/src/main/java/com/champlain/enrollmentsservice/businesslayer/enrollments/EnrollmentServiceImpl.java:31-49 | Every item getAll emits is the refreshed projection of some stored record, and there are at most as many items as records. |
| EnrollmentService.ConvertToResponseModel | enrollments-service/src/main/java/com/champlain/enrollmentsservice/businesslayer/enrollments/EnrollmentServiceImpl.java:128-140 | The service's own conversion agrees with toEnrollmentResponseModel. |
| EnrollmentService.EnrollmentServiceImpl.GetAllEnrollments | enrollments-service/src/main/java/com/champlain/enrollmentsservice/businesslayer/enrollments/EnrollmentServiceImpl.java:31-50 | The loop over the store emits exactly the stream ReadAll specifies. |
| EnrollmentService.EnrollmentServiceImpl.GetEnrollmentByEnrollmentId | enrollments-service/src/main/java/com/champlain/enrollmentsservice/businesslayer/enrollments/EnrollmentServiceImpl.java:53-72 | NotFound "Enrollment id not found " + id on a miss; otherwise the refreshed projection of the stored record. |
| EnrollmentService.EnrollmentServiceImpl.AssembleEntity | enrollments-service/src/main/java/com/champlain/enrollmentsservice/businesslayer/enrollments/EnrollmentServiceImpl.java:77-81 | The student GET is logged and sent first; a failed student lookup ends the chain before the course GET is logged or sent; the entity produced is Assemble's, and the GETs logged are exactly AssembleCalls. |
| EnrollmentService.EnrollmentServiceImpl.AddEnrollment | enrollments-service/src/main/java/com/champlain/enrollmentsservice/businesslayer/enrollments/EnrollmentServiceImpl.java:76-85 | On success exactly one record is added, under the fresh key, and the reply is its projection; on any failure the store is unchanged; the issued lookups are logged. |
| EnrollmentService.EnrollmentServiceImpl.UpdateEnrollmentByEnrollmentId | enrollments-service/src/main/java/com/champlain/enrollmentsservice/businesslayer/enrollments/EnrollmentServiceImpl.java:88-100 | On success only the record under the key is replaced, keeping its storage id; on failure (including an absent key) the store is unchanged. |
| EnrollmentService.EnrollmentServiceImpl.DeleteEnrollmentByEnrollmentId | enrollments-service/src/main/java/com/champlain/enrollmentsservice/businesslayer/enrollments/EnrollmentServiceImpl.java:103-111 | NotFound on a miss with the store unchanged; otherwise exactly that record is removed and its pre-deletion projection returned. |
| CourseService.NewCourse | courses-service/src/main/java/com/champlain/courseservice/businesslayer/CourseServiceImpl.java:51-53 | The added course has the generated courseId, no row id yet, and all other fields from the request. |
| CourseService.UpdatedCourse | courses-service/src/main/java/com/champlain/courseservice/businesslayer/CourseServiceImpl.java:72-78 | The updated course keeps the stored courseId and id and takes every other field from the request. |
| CourseService.UpdateResult | courses-service/src/main/java/com/champlain/courseservice/businesslayer/CourseServiceImpl.java:65-82 | NotFound "Course id not found: " + id on a miss; on success the reply carries the key and echoes the request. |
| CourseService.CourseServiceImpl.GetAllCourses | courses-service/src/main/java/com/champlain/courseservice/businesslayer/CourseServiceImpl.java:27-30 | One response per stored course, in findAll order, with fields copied. |
| CourseService.CourseServiceImpl.GetCourseByCourseId | courses-service/src/main/java/com/champlain/courseservice/businesslayer/CourseServiceImpl.java:34-41 | NotFound "Course id not found " + id on a miss; otherwise the stored course's projection under that key. |
| CourseService.CourseServiceImpl.AddCourse | courses-service/src/main/java/com/champlain/courseservice/businesslayer/CourseServiceImpl.java:50-56 | An empty body completes empty and a failed body fails with its error, leaving the store unchanged; otherwise exactly one course is added under the generated key with the request's fields. |
| CourseService.CourseServiceImpl.UpdateCourseByCourseId | courses-service/src/main/java/com/champlain/courseservice/businesslayer/CourseServiceImpl.java:65-82 | Only the record under the key is replaced, keeping both identifiers; a miss fails with NotFound and saves nothing. |
| CourseService.CourseServiceImpl.UpdateCourse | courses-service/src/main/java/com/champlain/courseservice/businesslayer/CourseServiceImpl.java:101-111 | The same contract as updateCourseByCourseId. |
| CourseService.CourseServiceImpl.DeleteCourseByCourseId | courses-service/src/main/java/com/champlain/courseservice/businesslayer/CourseServiceImpl.java:91-96 | NotFound on a miss; otherwise exactly that record is removed and its snapshot returned. |
| Web.FilterId | courses-service/src/main/java/com/champlain/courseservice/presentationlayer/CourseController.java:35-36 | An id passes exactly when it has 36 characters, unchanged; otherwise the given InvalidInput is raised. |
| CourseController.GetCourseByCourseId | courses-service/src/main/java/com/champlain/courseservice/presentationlayer/CourseController.java:33-39 | A wrong-length id fails with InvalidInput "Provided courseId is invalid " + id whatever the service answers; a 36-character id goes to the service; a value is a 200; an empty result stays empty. |
| CourseController.AddCourse | courses-service/src/main/java/com/champlain/courseservice/presentationlayer/CourseController.java:47-51 | A created course is a 201 carrying it; an empty result is a 400; errors pass through. |
| CourseController.UpdateCourseByCourseId | courses-service/src/main/java/com/champlain/courseservice/presentationlayer/CourseController.java:60-67 | The same length guard, then the update's result as a 200, or a 400 when empty. |
| CourseController.DeleteCourseByCourseId | courses-service/src/main/java/com/champlain/courseservice/presentationlayer/CourseController.java:70-77 | The guard with message "Provided Course id is invalid: " + id, then a 200, or a 400 when empty. |
| EnrollmentController.GetEnrollmentByEnrollmentId | enrollments-service/src/main/java/com/champlain/enrollmentsservice/presentationlayer/enrollments/EnrollmentController.java:30-35 | A wrong-length id fails with InvalidInput "Invalid enrollment id: " + id whatever the service answers; an empty service result is not turned into a 400. |
| EnrollmentController.AddEnrollment | enrollments-service/src/main/java/com/champlain/enrollmentsservice/presentationlayer/enrollments/EnrollmentController.java:39-43 | A created enrollment is a 201 carrying it; an empty result is a 400; errors pass through. |
| EnrollmentController.UpdateEnrollmentByEnrollmentId | enrollments-service/src/main/java/com/champlain/enrollmentsservice/presentationlayer/enrollments/EnrollmentController.java:46-53 | The same guard, then the update's result as a 200, or a 400 when empty. |
| EnrollmentController.DeleteEnrollmentByEnrollmentId | enrollments-service/src/main/java/com/champlain/enrollmentsservice/presentationlayer/enrollments/EnrollmentController.java:56-63 | The same guard, then the deletion's result as a 200, or a 400 when empty. |

## Left out

- Concurrency and scheduling are not modelled. A Reactor pipeline is
  modelled as the value it finally emits. `flatMap` in `getAllEnrollments`
  may interleave the per-record lookups; the model emits records in
  `findAll` order and reports the first failing record's error.
- Common.Zip: Reactor's `Mono.zip` ends with whichever source signals
  first: an error, or an empty completion that cancels the other source.
  The model fixes one outcome. When both sources fail it reports the student
  lookup's error. When one source is empty and the other fails it reports
  the failure. Reactor may complete empty in that second case, and does so
  whenever the empty source signals first, as synchronous sources do.
  EnrollmentService.Refresh, and through it getAll and get-by-id, inherits
  this choice.
- Web.FilterId: Java's `String.length()` counts UTF-16 code units, and the
  model counts Unicode characters. The two agree for ids made only of
  characters in the Basic Multilingual Plane, such as UUIDs. An id holding
  a character outside that plane is measured differently: for example, one
  emoji followed by 34 letters is 36 long to Java and 35 long to the model.
- CourseClient.RequestUrlOfNewClient: WebClient expands `/{courseId}` as a
  URI template and percent-encodes the id. The model appends the raw id,
  which is exact for ids made of unreserved characters, such as UUIDs.
  CourseClient.RequestUrlInjective holds either way, because percent-encoding
  is injective.
- WebClient, HTTP transport, JSON decoding and Spring's request binding are
  not modelled. A request body is a `Mono` given to the model. A body that
  fails to decode is a `Fail` or an `Empty` of that `Mono`.
- The students-service client (`StudentClientAsynchronous`) is not
  modelled. The integration tests show what it does:
  - It GETs `/api/v1/students/{id}`.
  - It turns 404 into NotFound "StudentId not found: " + id.
  - It turns 422 into InvalidInput "StudentId invalid: " + id.

  Here it is an unconstrained function from studentId to
  `Mono<StudentResponse>`, so every lemma holds whatever it answers.
- UUID generation (`generateUUIDString`) and database id assignment are
  parameters, not computations.
- `UUID.randomUUID` is not modelled: collisions are excluded by a
  precondition.
- `BeanUtils.copyProperties` is modelled as copying each same-named field.
  The entity's `id` is not copied, because the response has no such field.
- `numCredits` is a Java `double`. It is modelled as opaque bits
  (`Common.Double`), because no operation computes with it.
- The reactive repositories (MongoDB / R2DBC) are modelled as an in-memory
  map with an insertion order. Persistence failures are not modelled.
- The courses service's own `EntityModelUtil` (`toCourseEntity`,
  `toCourseResponseModel`, `generateUUIDString`) is modelled as
  field-for-field copies
  (`CourseService.ToCourseEntity`, `CourseService.ToCourseResponseModel`).
- The global exception handlers that turn `NotFoundException` into 404 and
  `InvalidInputException` into 422 are not modelled. Controllers end in a
  typed `Fail`.
- `log`, `log.debug` and `doOnNext` logging have no effect on results and
  are left out.
- Java `null` strings are not modelled. Every string field is a sequence of
  characters, and an unset lookup result is `None`.
- The `getAllCourses` and `getAllEnrollments` handlers in the controllers
  only forward to the services. Only the service methods are modelled.
- `RequestContext` has an `enrollment` field that no core code reads or
  writes; it is left out.
- `EnrollmentService` (the interface) and `EnrollmentException` declare
  nothing beyond what the implementation does.
- The enrollments tests expect the message "Enrollment not found". The
  code says "Enrollment id not found " followed by the id, and the model
  follows the code.
- The courses service uses two messages on a miss: "Course id not found "
  (no colon) in `getCourseByCourseId`, and "Course id not found: " in
  update and delete. The model keeps both. The course controller's guard
  likewise says "Provided courseId is invalid " on get and update and
  "Provided Course id is invalid: " on delete.
