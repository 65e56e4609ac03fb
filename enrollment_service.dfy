/**
 * The enrollment orchestrator. Add and update look up the student and then
 * the course, assemble the entity from the request and the two lookup
 * results, and save it; reads re-fetch the student and the course of every
 * stored enrollment and overwrite the names in the projection they return;
 * delete returns the record as it was before removal.
 */
module EnrollmentService {
  import opened Common
  import opened EntityModelUtil
  import CourseClient
  import opened Repository

  /** A GET issued to a remote service during an add or an update. */
  datatype RemoteCall = StudentLookup(studentId: string) | CourseLookup(courseId: string)

  /** The two remote lookups as the orchestrator sees them during one call. */
  datatype Lookups = Lookups(
    student: string -> Mono<StudentResponse>,
    course: string -> Mono<CourseResponse>)

  /**
   * The lookups of a service whose course client is `client`: the students
   * service is an abstract lookup; the course lookup goes through the course
   * client against `courseServer`, the courses service's reply per URL.
   */
  function LookupsOf(
    client: CourseClient.Client,
    students: string -> Mono<StudentResponse>,
    courseServer: string -> CourseClient.HttpReply): Lookups
  {
    Lookups(students, id => CourseClient.GetCourseByCourseId(client, id, courseServer))
  }

  function EnrollmentNotFound(enrollmentId: string): Error
  {
    NotFound("Enrollment id not found " + enrollmentId)
  }

  /** The store's invariant: every record sits under its own natural key and has a storage id. */
  ghost predicate Keyed(rows: map<string, Enrollment>)
  {
    forall k :: k in rows ==> rows[k].enrollmentId == Some(k) && rows[k].id.Some?
  }

  /**
   * studentRequestResponse: an error passes through unchanged; a value is
   * recorded in the context; an empty lookup still emits the context, with the
   * student left unset.
   */
  function StudentRequestResponse(rc: RequestContext, s: Mono<StudentResponse>): (r: Mono<RequestContext>)
    ensures s.Fail? ==> r == Fail(s.error)
    ensures !s.Fail? ==> r.Just? && r.value.request == rc.request && r.value.course == rc.course
    ensures s.Just? ==> r.value.student == Some(s.value)
    ensures s.Empty? ==> r.value.student == rc.student
  {
    match s
    case Fail(e) => Fail(e)
    case Empty => Just(rc)
    case Just(v) => Just(rc.(student := Some(v)))
  }

  /** courseRequestResponse: the same for the course lookup. */
  function CourseRequestResponse(rc: RequestContext, c: Mono<CourseResponse>): (r: Mono<RequestContext>)
    ensures c.Fail? ==> r == Fail(c.error)
    ensures !c.Fail? ==> r.Just? && r.value.request == rc.request && r.value.student == rc.student
    ensures c.Just? ==> r.value.course == Some(c.value)
    ensures c.Empty? ==> r.value.course == rc.course
  {
    match c
    case Fail(e) => Fail(e)
    case Empty => Just(rc)
    case Just(v) => Just(rc.(course := Some(v)))
  }

  /**
   * The add/update pipeline from a request to the entity to save: the
   * student lookup, then (flatMap) the course lookup, then the builder.
   */
  function Assemble(req: EnrollmentRequest, lk: Lookups, uuid: string): (r: Mono<Enrollment>)
  {
    match StudentRequestResponse(NewRequestContext(req), lk.student(req.studentId))
    case Fail(e) => Fail(e)
    case Empty => Empty
    case Just(rc) =>
      match CourseRequestResponse(rc, lk.course(req.courseId))
      case Fail(e) => Fail(e)
      case Empty => Empty
      case Just(rc2) => ToEnrollmentEntity(rc2, uuid)
  }

  /** The GETs the pipeline issues: the course lookup only once the student lookup did not fail. */
  function AssembleCalls(req: EnrollmentRequest, lk: Lookups): seq<RemoteCall>
  {
    if lk.student(req.studentId).Fail? then [StudentLookup(req.studentId)]
    else [StudentLookup(req.studentId), CourseLookup(req.courseId)]
  }

  /** What the pipeline yields, case by case on the two lookups. */
  lemma AssembleOutcome(req: EnrollmentRequest, lk: Lookups, uuid: string)
    ensures var s, c, r := lk.student(req.studentId), lk.course(req.courseId), Assemble(req, lk, uuid);
      && (s.Fail? ==> r == Fail(s.error) && AssembleCalls(req, lk) == [StudentLookup(req.studentId)])
      && (!s.Fail? ==> AssembleCalls(req, lk) == [StudentLookup(req.studentId), CourseLookup(req.courseId)])
      && (!s.Fail? && c.Fail? ==> r == Fail(c.error))
      && (!s.Fail? && !c.Fail? && (s.Empty? || c.Empty?) ==> r == Fail(NullPointer))
      && (r.Just? <==> s.Just? && c.Just?)
      && (r.Just? ==>
            && r.value.id == None
            && r.value.enrollmentId == Some(uuid)
            && r.value.enrollmentYear == req.enrollmentYear
            && r.value.semester == req.semester
            && r.value.studentId == s.value.studentId
            && r.value.studentFirstName == s.value.firstName
            && r.value.studentLastName == s.value.lastName
            && r.value.courseId == c.value.courseId
            && r.value.courseNumber == c.value.courseNumber
            && r.value.courseName == c.value.courseName)
  {
  }

  /** The record as the repository stores it: an unset storage id is assigned on first save. */
  function Persisted(e: Enrollment, storageId: string): (p: Enrollment)
  {
    if e.id.None? then e.(id := Some(storageId)) else e
  }

  /** addEnrollment's reply; `uuid` is the generated enrollment id, `storageId` the one persistence assigns. */
  function AddResult(request: Mono<EnrollmentRequest>, lk: Lookups, uuid: string, storageId: string): Mono<EnrollmentResponse>
  {
    match request
    case Empty => Empty
    case Fail(e) => Fail(e)
    case Just(req) =>
      match Assemble(req, lk, uuid)
      case Just(e) => Just(ToEnrollmentResponseModel(Persisted(e, storageId)))
      case Empty => Empty
      case Fail(e) => Fail(e)
  }

  /** The GETs addEnrollment issues (none without a request). */
  function AddCalls(request: Mono<EnrollmentRequest>, lk: Lookups): seq<RemoteCall>
  {
    if request.Just? then AssembleCalls(request.value, lk) else []
  }

  /**
   * A successful add answers with the generated key, the request's year and
   * semester, and the student and course fields of the two lookups; any lookup
   * error is answered verbatim.
   */
  lemma AddOutcome(req: EnrollmentRequest, lk: Lookups, uuid: string, storageId: string)
    ensures var s, c, r := lk.student(req.studentId), lk.course(req.courseId), AddResult(Just(req), lk, uuid, storageId);
      && (s.Fail? ==> r == Fail(s.error))
      && (!s.Fail? && c.Fail? ==> r == Fail(c.error))
      && (r.Just? <==> s.Just? && c.Just?)
      && (r.Just? ==> r.value == EnrollmentResponse(
            Some(uuid), req.enrollmentYear, req.semester,
            s.value.studentId, s.value.firstName, s.value.lastName,
            c.value.courseId, c.value.courseNumber, c.value.courseName))
  {
    AssembleOutcome(req, lk, uuid);
  }

  /**
   * A course the courses service answers with 404 makes add fail with the
   * client's NotFound, whose message names the requested course id.
   */
  lemma AddWithMissingCourse(
    client: CourseClient.Client, students: string -> Mono<StudentResponse>,
    courseServer: string -> CourseClient.HttpReply,
    req: EnrollmentRequest, uuid: string, storageId: string)
    requires !students(req.studentId).Fail?
    requires courseServer(CourseClient.RequestUrl(client, req.courseId)).status == 404
    ensures AddResult(Just(req), LookupsOf(client, students, courseServer), uuid, storageId)
         == Fail(NotFound("CourseId not found: " + req.courseId))
  {
    AddOutcome(req, LookupsOf(client, students, courseServer), uuid, storageId);
  }

  /**
   * Read after add: while the remote services answer the stored student and
   * course ids as they answered the requested ones, reading the saved record
   * back yields exactly the reply the add gave.
   */
  lemma ReadAfterAdd(req: EnrollmentRequest, lk: Lookups, uuid: string, storageId: string)
    requires Assemble(req, lk, uuid).Just?
    requires var e := Assemble(req, lk, uuid).value;
      lk.student(e.studentId) == lk.student(req.studentId) && lk.course(e.courseId) == lk.course(req.courseId)
    ensures Refresh(Persisted(Assemble(req, lk, uuid).value, storageId), lk)
         == AddResult(Just(req), lk, uuid, storageId)
  {
    AssembleOutcome(req, lk, uuid);
    AddOutcome(req, lk, uuid, storageId);
  }

  /** The updated record: the assembled entity keeps the stored natural key and storage id. */
  function Rekeyed(e: Enrollment, stored: Enrollment): (u: Enrollment)
    ensures u.enrollmentId == stored.enrollmentId && u.id == stored.id
    ensures u.(enrollmentId := e.enrollmentId, id := e.id) == e
  {
    e.(enrollmentId := stored.enrollmentId, id := stored.id)
  }

  /** updateEnrollmentByEnrollmentId's reply against the store `rows`. */
  function UpdateResult(
    rows: map<string, Enrollment>, request: Mono<EnrollmentRequest>, enrollmentId: string,
    lk: Lookups, uuid: string): Mono<EnrollmentResponse>
  {
    if enrollmentId !in rows then Fail(EnrollmentNotFound(enrollmentId))
    else
      match request
      case Empty => Empty
      case Fail(e) => Fail(e)
      case Just(req) =>
        match Assemble(req, lk, uuid)
        case Just(e) => Just(ToEnrollmentResponseModel(Rekeyed(e, rows[enrollmentId])))
        case Empty => Empty
        case Fail(e) => Fail(e)
  }

  /** The GETs an update issues: none when the key is absent. */
  function UpdateCalls(
    rows: map<string, Enrollment>, request: Mono<EnrollmentRequest>, enrollmentId: string,
    lk: Lookups): seq<RemoteCall>
  {
    if enrollmentId in rows then AddCalls(request, lk) else []
  }

  /** An update of an absent key fails with NotFound and issues no lookup. */
  lemma UpdateAbsentKey(
    rows: map<string, Enrollment>, request: Mono<EnrollmentRequest>, enrollmentId: string,
    lk: Lookups, uuid: string)
    requires enrollmentId !in rows
    ensures UpdateResult(rows, request, enrollmentId, lk, uuid)
         == Fail(NotFound("Enrollment id not found " + enrollmentId))
    ensures UpdateCalls(rows, request, enrollmentId, lk) == []
  {
  }

  /**
   * A successful update answers with the stored natural key, the request's
   * year and semester and the fresh lookups' fields; the UUID the builder
   * generated along the way is discarded.
   */
  lemma UpdateOutcome(
    rows: map<string, Enrollment>, req: EnrollmentRequest, enrollmentId: string,
    lk: Lookups, uuid: string, otherUuid: string)
    requires Keyed(rows) && enrollmentId in rows
    ensures var s, c, r := lk.student(req.studentId), lk.course(req.courseId),
                           UpdateResult(rows, Just(req), enrollmentId, lk, uuid);
      && (s.Fail? ==> r == Fail(s.error))
      && (!s.Fail? && c.Fail? ==> r == Fail(c.error))
      && (r.Just? <==> s.Just? && c.Just?)
      && (r.Just? ==> r.value == EnrollmentResponse(
            Some(enrollmentId), req.enrollmentYear, req.semester,
            s.value.studentId, s.value.firstName, s.value.lastName,
            c.value.courseId, c.value.courseNumber, c.value.courseName))
      && r == UpdateResult(rows, Just(req), enrollmentId, lk, otherUuid)
  {
    AssembleOutcome(req, lk, uuid);
    AssembleOutcome(req, lk, otherUuid);
  }

  /**
   * The read-path enrichment of one stored record: both lookups are issued
   * (Mono.zip); the names come from them, every other field from the record.
   */
  function Refresh(e: Enrollment, lk: Lookups): (r: Mono<EnrollmentResponse>)
    ensures var s, c := lk.student(e.studentId), lk.course(e.courseId);
      && (r.Just? <==> s.Just? && c.Just?)
      && (r.Fail? <==> s.Fail? || c.Fail?)
      && (r.Fail? ==> r.error == if s.Fail? then s.error else c.error)
      && (r.Just? ==> r.value == EnrollmentResponse(
            e.enrollmentId, e.enrollmentYear, e.semester,
            e.studentId, s.value.firstName, s.value.lastName,
            e.courseId, c.value.courseNumber, c.value.courseName))
  {
    match Zip(lk.student(e.studentId), lk.course(e.courseId))
    case Just((s, c)) =>
      Just(ToEnrollmentResponseModel(e.(
        studentFirstName := s.firstName, studentLastName := s.lastName,
        courseNumber := c.courseNumber, courseName := c.courseName)))
    case Empty => Empty
    case Fail(err) => Fail(err)
  }

  /**
   * getAllEnrollments over the records under `keys`, in that order: each
   * refreshed record is emitted, a record with an empty lookup is skipped, and
   * the first failed lookup ends the stream with its error.
   */
  function ReadAll(rows: map<string, Enrollment>, keys: seq<string>, lk: Lookups): Flux<EnrollmentResponse>
    requires forall k :: k in keys ==> k in rows
  {
    if keys == [] then Flux([], None)
    else
      match Refresh(rows[keys[0]], lk)
      case Just(v) =>
        var rest := ReadAll(rows, keys[1..], lk);
        Flux([v] + rest.items, rest.error)
      case Empty => ReadAll(rows, keys[1..], lk)
      case Fail(e) => Flux([], Some(e))
  }

  /** When every lookup succeeds, the stream completes with one projection per record, in order. */
  lemma {:induction false} ReadAllComplete(rows: map<string, Enrollment>, keys: seq<string>, lk: Lookups)
    requires forall k :: k in keys ==> k in rows
    requires forall i :: 0 <= i < |keys| ==> Refresh(rows[keys[i]], lk).Just?
    ensures ReadAll(rows, keys, lk).error == None
    ensures |ReadAll(rows, keys, lk).items| == |keys|
    ensures forall i :: 0 <= i < |keys| ==>
              Just(ReadAll(rows, keys, lk).items[i]) == Refresh(rows[keys[i]], lk)
  {
    if keys != [] {
      assert Refresh(rows[keys[0]], lk).Just?;
      forall i | 0 <= i < |keys[1..]| ensures Refresh(rows[keys[1..][i]], lk).Just? {
        assert keys[1..][i] == keys[i + 1];
      }
      ReadAllComplete(rows, keys[1..], lk);
    }
  }

  /** A stream that ends in an error ends in the error of some record's lookup. */
  lemma {:induction false} ReadAllErrorFromLookup(rows: map<string, Enrollment>, keys: seq<string>, lk: Lookups)
    requires forall k :: k in keys ==> k in rows
    ensures var f := ReadAll(rows, keys, lk);
      f.error.Some? ==> exists i :: 0 <= i < |keys| && Refresh(rows[keys[i]], lk) == Fail(f.error.value)
  {
    if keys != [] {
      var f := ReadAll(rows, keys, lk);
      if Refresh(rows[keys[0]], lk).Fail? {
        assert Refresh(rows[keys[0]], lk) == Fail(f.error.value);
      } else {
        ReadAllErrorFromLookup(rows, keys[1..], lk);
        if f.error.Some? {
          var i :| 0 <= i < |keys[1..]| && Refresh(rows[keys[1..][i]], lk) == Fail(f.error.value);
          assert keys[1..][i] == keys[i + 1];
        }
      }
    }
  }

  /** A record whose lookups fail makes the whole stream end in an error, wherever it sits. */
  lemma {:induction false} ReadAllFailsOnFailedLookup(
    rows: map<string, Enrollment>, keys: seq<string>, lk: Lookups, i: int)
    requires forall k :: k in keys ==> k in rows
    requires 0 <= i < |keys| && Refresh(rows[keys[i]], lk).Fail?
    ensures ReadAll(rows, keys, lk).error.Some?
  {
    if i > 0 && !Refresh(rows[keys[0]], lk).Fail? {
      assert keys[1..][i - 1] == keys[i];
      ReadAllFailsOnFailedLookup(rows, keys[1..], lk, i - 1);
    }
  }

  /** Every emitted item is the refreshed projection of some stored record, and there are no more items than records. */
  lemma {:induction false} ReadAllItemsFromStore(rows: map<string, Enrollment>, keys: seq<string>, lk: Lookups)
    requires forall k :: k in keys ==> k in rows
    ensures var f := ReadAll(rows, keys, lk);
      && |f.items| <= |keys|
      && forall j :: 0 <= j < |f.items| ==>
           exists i :: 0 <= i < |keys| && Refresh(rows[keys[i]], lk) == Just(f.items[j])
  {
    if keys != [] {
      var f := ReadAll(rows, keys, lk);
      var rest := ReadAll(rows, keys[1..], lk);
      ReadAllItemsFromStore(rows, keys[1..], lk);
      forall j | 0 <= j < |f.items|
        ensures exists i :: 0 <= i < |keys| && Refresh(rows[keys[i]], lk) == Just(f.items[j])
      {
        var m := Refresh(rows[keys[0]], lk);
        if m.Just? && j == 0 {
          assert Refresh(rows[keys[0]], lk) == Just(f.items[j]);
        } else {
          var j' := if m.Just? then j - 1 else j;
          assert f.items[j] == rest.items[j'];
          var i :| 0 <= i < |keys[1..]| && Refresh(rows[keys[1..][i]], lk) == Just(rest.items[j']);
          assert keys[1..][i] == keys[i + 1];
        }
      }
    }
  }

  /** convertToResponseModel: the record's nine public fields. */
  function ConvertToResponseModel(e: Enrollment): (r: EnrollmentResponse)
    ensures r == ToEnrollmentResponseModel(e)
  {
    EnrollmentResponse(
      e.enrollmentId, e.enrollmentYear, e.semester,
      e.studentId, e.studentFirstName, e.studentLastName,
      e.courseId, e.courseNumber, e.courseName)
  }

  class EnrollmentServiceImpl {
    const repo: Repository<Enrollment>
    const courseClient: CourseClient.Client
    /** The GETs that add and update have sent to the remote services, oldest first. */
    ghost var issued: seq<RemoteCall>

    ghost predicate Valid()
      reads this, repo
    {
      repo.Valid() && Keyed(repo.rows)
    }

    constructor (repo: Repository<Enrollment>, courseClient: CourseClient.Client)
      requires repo.Valid() && Keyed(repo.rows)
      ensures Valid() && this.repo == repo && this.courseClient == courseClient && issued == []
    {
      this.repo := repo;
      this.courseClient := courseClient;
      issued := [];
    }

    /** getAllEnrollments: every stored record, refreshed, in findAll order. */
    method GetAllEnrollments(
      students: string -> Mono<StudentResponse>, courseServer: string -> CourseClient.HttpReply)
      returns (r: Flux<EnrollmentResponse>)
      requires Valid()
      ensures r == ReadAll(repo.rows, repo.order, LookupsOf(courseClient, students, courseServer))
    {
      var lk := LookupsOf(courseClient, students, courseServer);
      var items: seq<EnrollmentResponse> := [];
      var i := 0;
      while i < |repo.order|
        invariant 0 <= i <= |repo.order|
        invariant var tail := ReadAll(repo.rows, repo.order[i..], lk);
          ReadAll(repo.rows, repo.order, lk) == Flux(items + tail.items, tail.error)
      {
        assert repo.order[i..][1..] == repo.order[i + 1..];
        match Refresh(repo.rows[repo.order[i]], lk) {
          case Fail(e) =>
            return Flux(items, Some(e));
          case Just(v) =>
            items := items + [v];
          case Empty =>
        }
        i := i + 1;
      }
      r := Flux(items, None);
    }

    /** getEnrollmentByEnrollmentId: NotFound on a miss, else the refreshed record. */
    method GetEnrollmentByEnrollmentId(
      enrollmentId: string,
      students: string -> Mono<StudentResponse>, courseServer: string -> CourseClient.HttpReply)
      returns (r: Mono<EnrollmentResponse>)
      requires Valid()
      ensures enrollmentId !in repo.rows ==> r == Fail(NotFound("Enrollment id not found " + enrollmentId))
      ensures enrollmentId in repo.rows ==>
                r == Refresh(repo.rows[enrollmentId], LookupsOf(courseClient, students, courseServer))
    {
      if enrollmentId !in repo.rows {
        return Fail(EnrollmentNotFound(enrollmentId));
      }
      r := Refresh(repo.rows[enrollmentId], LookupsOf(courseClient, students, courseServer));
    }

    /**
     * The flatMap chain add and update share: the student lookup, then the
     * course lookup, then the builder. Each GET is logged as it is sent, and a
     * failed student lookup ends the chain before the course lookup is sent.
     */
    method AssembleEntity(req: EnrollmentRequest, lk: Lookups, uuid: string) returns (entity: Mono<Enrollment>)
      modifies this`issued
      ensures entity == Assemble(req, lk, uuid)
      ensures issued == old(issued) + AssembleCalls(req, lk)
    {
      issued := issued + [StudentLookup(req.studentId)];
      var withStudent := StudentRequestResponse(NewRequestContext(req), lk.student(req.studentId));
      if withStudent.Fail? {
        return Fail(withStudent.error);
      }
      issued := issued + [CourseLookup(req.courseId)];
      var withCourse := CourseRequestResponse(withStudent.value, lk.course(req.courseId));
      if withCourse.Fail? {
        return Fail(withCourse.error);
      }
      entity := ToEnrollmentEntity(withCourse.value, uuid);
    }

    /**
     * addEnrollment: `uuid` is the id generateUUIDString produced, not yet in
     * the store; `storageId` the identifier persistence assigns.
     */
    method AddEnrollment(
      request: Mono<EnrollmentRequest>,
      students: string -> Mono<StudentResponse>, courseServer: string -> CourseClient.HttpReply,
      uuid: string, storageId: string)
      returns (r: Mono<EnrollmentResponse>)
      requires Valid()
      requires uuid !in repo.rows
      modifies repo, this`issued
      ensures Valid()
      ensures r == AddResult(request, LookupsOf(courseClient, students, courseServer), uuid, storageId)
      ensures issued == old(issued) + AddCalls(request, LookupsOf(courseClient, students, courseServer))
      ensures r.Just? ==>
                && uuid in repo.rows
                && repo.rows == old(repo.rows)[uuid := repo.rows[uuid]]
                && |repo.rows| == |old(repo.rows)| + 1
                && repo.order == old(repo.order) + [uuid]
                && r.value == ToEnrollmentResponseModel(repo.rows[uuid])
      ensures !r.Just? ==> repo.rows == old(repo.rows) && repo.order == old(repo.order)
    {
      var lk := LookupsOf(courseClient, students, courseServer);
      if request.Empty? {
        return Empty;
      } else if request.Fail? {
        return Fail(request.error);
      }
      var req := request.value;
      var entity := AssembleEntity(req, lk, uuid);
      if !entity.Just? {
        return if entity.Empty? then Empty else Fail(entity.error);
      }
      var saved := Persisted(entity.value, storageId);
      AssembleOutcome(req, lk, uuid);
      repo.Save(uuid, saved);
      r := Just(ToEnrollmentResponseModel(saved));
    }

    /** updateEnrollmentByEnrollmentId: NotFound on a miss, else the add pipeline under the stored keys. */
    method UpdateEnrollmentByEnrollmentId(
      request: Mono<EnrollmentRequest>, enrollmentId: string,
      students: string -> Mono<StudentResponse>, courseServer: string -> CourseClient.HttpReply,
      uuid: string)
      returns (r: Mono<EnrollmentResponse>)
      requires Valid()
      modifies repo, this`issued
      ensures Valid()
      ensures r == UpdateResult(old(repo.rows), request, enrollmentId, LookupsOf(courseClient, students, courseServer), uuid)
      ensures issued == old(issued) + UpdateCalls(old(repo.rows), request, enrollmentId, LookupsOf(courseClient, students, courseServer))
      ensures r.Just? ==>
                && enrollmentId in old(repo.rows) && enrollmentId in repo.rows
                && repo.rows == old(repo.rows)[enrollmentId := repo.rows[enrollmentId]]
                && repo.order == old(repo.order)
                && repo.rows[enrollmentId].id == old(repo.rows)[enrollmentId].id
                && r.value == ToEnrollmentResponseModel(repo.rows[enrollmentId])
      ensures !r.Just? ==> repo.rows == old(repo.rows) && repo.order == old(repo.order)
    {
      var lk := LookupsOf(courseClient, students, courseServer);
      if enrollmentId !in repo.rows {
        return Fail(EnrollmentNotFound(enrollmentId));
      }
      var stored := repo.rows[enrollmentId];
      if request.Empty? {
        return Empty;
      } else if request.Fail? {
        return Fail(request.error);
      }
      var req := request.value;
      var entity := AssembleEntity(req, lk, uuid);
      if !entity.Just? {
        return if entity.Empty? then Empty else Fail(entity.error);
      }
      var updated := Rekeyed(entity.value, stored);
      repo.Save(enrollmentId, updated);
      r := Just(ToEnrollmentResponseModel(updated));
    }

    /** deleteEnrollmentByEnrollmentId: NotFound on a miss, else remove the record and return its snapshot. */
    method DeleteEnrollmentByEnrollmentId(enrollmentId: string) returns (r: Mono<EnrollmentResponse>)
      requires Valid()
      modifies repo
      ensures Valid()
      ensures enrollmentId !in old(repo.rows) ==>
                && r == Fail(NotFound("Enrollment id not found " + enrollmentId))
                && repo.rows == old(repo.rows) && repo.order == old(repo.order)
      ensures enrollmentId in old(repo.rows) ==>
                && r == Just(ToEnrollmentResponseModel(old(repo.rows)[enrollmentId]))
                && repo.rows == old(repo.rows) - {enrollmentId}
                && |repo.rows| == |old(repo.rows)| - 1
                && repo.order == Without(old(repo.order), enrollmentId)
    {
      if enrollmentId !in repo.rows {
        return Fail(EnrollmentNotFound(enrollmentId));
      }
      var responseModel := ConvertToResponseModel(repo.rows[enrollmentId]);
      repo.Delete(enrollmentId);
      r := Just(responseModel);
    }
  }
}
