/**
 * The courses service: plain find-all, find-by-key, insert under a generated
 * key, update that keeps the key, and delete that returns the snapshot, over
 * a store keyed by courseId.
 */
module CourseService {
  import opened Common
  import opened Repository

  /** The stored record; `id` is the database row id, `courseId` the natural key. */
  datatype Course = Course(
    id: Option<int>, courseId: Option<string>,
    courseNumber: string, courseName: string,
    numHours: int, numCredits: Double, department: string)

  /** The body of a create or update request. */
  datatype CourseRequest = CourseRequest(
    courseNumber: string, courseName: string,
    numHours: int, numCredits: Double, department: string)

  /** The public projection: every field but the row id. */
  datatype CourseResponse = CourseResponse(
    courseId: Option<string>, courseNumber: string, courseName: string,
    numHours: int, numCredits: Double, department: string)

  /** toCourseEntity: the request's five fields, with neither identifier set. */
  function ToCourseEntity(req: CourseRequest): (c: Course)
  {
    Course(None, None, req.courseNumber, req.courseName, req.numHours, req.numCredits, req.department)
  }

  /** toCourseResponseModel: a copy of every same-named property. */
  function ToCourseResponseModel(c: Course): (r: CourseResponse)
  {
    CourseResponse(c.courseId, c.courseNumber, c.courseName, c.numHours, c.numCredits, c.department)
  }

  /** The request a response echoes: its five descriptive fields. */
  function RequestOf(r: CourseResponse): CourseRequest
  {
    CourseRequest(r.courseNumber, r.courseName, r.numHours, r.numCredits, r.department)
  }

  /** The entity an add saves: the request's fields under the generated courseId. */
  function NewCourse(req: CourseRequest, courseId: string): (c: Course)
    ensures c.courseId == Some(courseId) && c.id == None
    ensures RequestOf(ToCourseResponseModel(c)) == req
  {
    ToCourseEntity(req).(courseId := Some(courseId))
  }

  /** The entity an update saves: the request's fields under the stored courseId and row id. */
  function UpdatedCourse(stored: Course, req: CourseRequest): (c: Course)
    ensures c.courseId == stored.courseId && c.id == stored.id
    ensures RequestOf(ToCourseResponseModel(c)) == req
  {
    ToCourseEntity(req).(courseId := stored.courseId).(id := stored.id)
  }

  /** The record as the database stores it: an unset row id is assigned on insert. */
  function Persisted(c: Course, rowId: int): (p: Course)
  {
    if c.id.None? then c.(id := Some(rowId)) else c
  }

  function CourseNotFound(courseId: string): Error
  {
    NotFound("Course id not found: " + courseId)
  }

  /** The store's invariant: every record sits under its own courseId and has a row id. */
  ghost predicate Keyed(rows: map<string, Course>)
  {
    forall k :: k in rows ==> rows[k].courseId == Some(k) && rows[k].id.Some?
  }

  /** updateCourseByCourseId and updateCourse reply alike against the store `rows`. */
  function UpdateResult(rows: map<string, Course>, request: Mono<CourseRequest>, courseId: string): (r: Mono<CourseResponse>)
    ensures courseId !in rows ==> r == Fail(NotFound("Course id not found: " + courseId))
    ensures r.Just? <==> courseId in rows && request.Just?
    ensures r.Just? && Keyed(rows) ==>
              r.value.courseId == Some(courseId) && RequestOf(r.value) == request.value
    ensures courseId in rows && request.Fail? ==> r == Fail(request.error)
  {
    if courseId !in rows then Fail(CourseNotFound(courseId))
    else
      match request
      case Empty => Empty
      case Fail(e) => Fail(e)
      case Just(req) => Just(ToCourseResponseModel(UpdatedCourse(rows[courseId], req)))
  }

  class CourseServiceImpl {
    const repo: Repository<Course>

    ghost predicate Valid()
      reads this, repo
    {
      repo.Valid() && Keyed(repo.rows)
    }

    constructor (repo: Repository<Course>)
      requires repo.Valid() && Keyed(repo.rows)
      ensures Valid() && this.repo == repo
    {
      this.repo := repo;
    }

    /** getAllCourses: one response per stored course, in findAll order. */
    method GetAllCourses() returns (r: seq<CourseResponse>)
      requires Valid()
      ensures |r| == |repo.order|
      ensures forall i :: 0 <= i < |r| ==> r[i] == ToCourseResponseModel(repo.rows[repo.order[i]])
    {
      r := [];
      var i := 0;
      while i < |repo.order|
        invariant 0 <= i <= |repo.order|
        invariant |r| == i
        invariant forall j :: 0 <= j < i ==> r[j] == ToCourseResponseModel(repo.rows[repo.order[j]])
      {
        r := r + [ToCourseResponseModel(repo.rows[repo.order[i]])];
        i := i + 1;
      }
    }

    /** getCourseByCourseId: NotFound on a miss, else the stored course's projection. */
    method GetCourseByCourseId(courseId: string) returns (r: Mono<CourseResponse>)
      requires Valid()
      ensures courseId !in repo.rows ==> r == Fail(NotFound("Course id not found " + courseId))
      ensures courseId in repo.rows ==> r.Just? && r.value.courseId == Some(courseId)
      ensures courseId in repo.rows ==> r == Just(ToCourseResponseModel(repo.rows[courseId]))
    {
      if courseId !in repo.rows {
        return Fail(NotFound("Course id not found " + courseId));
      }
      r := Just(ToCourseResponseModel(repo.rows[courseId]));
    }

    /**
     * addCourse: `courseId` is the id generateUUIDString produced, not yet in
     * the store; `rowId` the row id the database assigns.
     */
    method AddCourse(request: Mono<CourseRequest>, courseId: string, rowId: int) returns (r: Mono<CourseResponse>)
      requires Valid()
      requires courseId !in repo.rows
      modifies repo
      ensures Valid()
      ensures r.Just? <==> request.Just?
      ensures request.Empty? ==> r == Empty
      ensures request.Fail? ==> r == Fail(request.error)
      ensures r.Just? ==>
                && courseId in repo.rows
                && repo.rows == old(repo.rows)[courseId := repo.rows[courseId]]
                && |repo.rows| == |old(repo.rows)| + 1
                && repo.order == old(repo.order) + [courseId]
                && repo.rows[courseId] == Persisted(NewCourse(request.value, courseId), rowId)
                && r.value == ToCourseResponseModel(repo.rows[courseId])
                && r.value.courseId == Some(courseId)
                && RequestOf(r.value) == request.value
      ensures !r.Just? ==> repo.rows == old(repo.rows) && repo.order == old(repo.order)
    {
      if request.Empty? {
        return Empty;
      } else if request.Fail? {
        return Fail(request.error);
      }
      var saved := Persisted(NewCourse(request.value, courseId), rowId);
      repo.Save(courseId, saved);
      r := Just(ToCourseResponseModel(saved));
    }

    /** updateCourseByCourseId: NotFound on a miss, else overwrite every field but the two identifiers. */
    method UpdateCourseByCourseId(request: Mono<CourseRequest>, courseId: string) returns (r: Mono<CourseResponse>)
      requires Valid()
      modifies repo
      ensures Valid()
      ensures r == UpdateResult(old(repo.rows), request, courseId)
      ensures r.Just? ==>
                && courseId in old(repo.rows) && courseId in repo.rows
                && repo.rows == old(repo.rows)[courseId := UpdatedCourse(old(repo.rows)[courseId], request.value)]
                && repo.order == old(repo.order)
      ensures !r.Just? ==> repo.rows == old(repo.rows) && repo.order == old(repo.order)
    {
      if courseId !in repo.rows {
        return Fail(CourseNotFound(courseId));
      }
      var stored := repo.rows[courseId];
      if request.Empty? {
        return Empty;
      } else if request.Fail? {
        return Fail(request.error);
      }
      var updated := UpdatedCourse(stored, request.value);
      repo.Save(courseId, updated);
      r := Just(ToCourseResponseModel(updated));
    }

    /** updateCourse: the same pipeline as updateCourseByCourseId, hence the same contract. */
    method UpdateCourse(request: Mono<CourseRequest>, courseId: string) returns (r: Mono<CourseResponse>)
      requires Valid()
      modifies repo
      ensures Valid()
      ensures r == UpdateResult(old(repo.rows), request, courseId)
      ensures r.Just? ==>
                && courseId in old(repo.rows) && courseId in repo.rows
                && repo.rows == old(repo.rows)[courseId := UpdatedCourse(old(repo.rows)[courseId], request.value)]
                && repo.order == old(repo.order)
      ensures !r.Just? ==> repo.rows == old(repo.rows) && repo.order == old(repo.order)
    {
      if courseId !in repo.rows {
        return Fail(CourseNotFound(courseId));
      }
      var stored := repo.rows[courseId];
      if request.Empty? {
        return Empty;
      } else if request.Fail? {
        return Fail(request.error);
      }
      var updated := UpdatedCourse(stored, request.value);
      repo.Save(courseId, updated);
      r := Just(ToCourseResponseModel(updated));
    }

    /** deleteCourseByCourseId: NotFound on a miss, else remove the record and return its snapshot. */
    method DeleteCourseByCourseId(courseId: string) returns (r: Mono<CourseResponse>)
      requires Valid()
      modifies repo
      ensures Valid()
      ensures courseId !in old(repo.rows) ==>
                && r == Fail(NotFound("Course id not found: " + courseId))
                && repo.rows == old(repo.rows) && repo.order == old(repo.order)
      ensures courseId in old(repo.rows) ==>
                && r == Just(ToCourseResponseModel(old(repo.rows)[courseId]))
                && repo.rows == old(repo.rows) - {courseId}
                && |repo.rows| == |old(repo.rows)| - 1
                && repo.order == Without(old(repo.order), courseId)
    {
      if courseId !in repo.rows {
        return Fail(CourseNotFound(courseId));
      }
      var existing := repo.rows[courseId];
      repo.Delete(courseId);
      r := Just(ToCourseResponseModel(existing));
    }
  }
}
