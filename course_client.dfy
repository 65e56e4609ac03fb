/**
 * The enrollments service's client for the courses service: one GET per
 * course id against a base URL fixed at construction, with error statuses
 * mapped to typed errors.
 */
module CourseClient {
  import opened Common
  import opened EntityModelUtil

  /** The status and (decoded) body the courses service answers with. */
  datatype HttpReply = HttpReply(status: int, body: Option<CourseResponse>)

  datatype Client = Client(baseUrl: string)

  const CoursesPath := "/api/v1/courses"

  /** The constructor: the base URL is built from the configured host and port. */
  function NewClient(host: string, port: string): (c: Client)
  {
    Client("http://" + host + ":" + port + CoursesPath)
  }

  /** The URL of the GET issued for courseId: the base URL, a slash, the id. */
  function RequestUrl(c: Client, courseId: string): (url: string)
  {
    c.baseUrl + "/" + courseId
  }

  /** HttpStatusCode::isError: a 4xx or a 5xx status. */
  predicate IsError(status: int)
  {
    400 <= status < 600
  }

  /** The error the onStatus switch raises for an error status. */
  function ErrorFor(status: int, courseId: string): (e: Error)
    requires IsError(status)
  {
    match status
    case 404 => NotFound("CourseId not found: " + courseId)
    case 422 => InvalidInput("CourseId invalid: " + courseId)
    case _ => IllegalArgument("Something went wrong")
  }

  /** What getCourseByCourseId emits once the reply to its GET has arrived. */
  function Decode(courseId: string, reply: HttpReply): (r: Mono<CourseResponse>)
    ensures r.Fail? <==> IsError(reply.status)
    ensures reply.status == 404 ==> r == Fail(NotFound("CourseId not found: " + courseId))
    ensures reply.status == 422 ==> r == Fail(InvalidInput("CourseId invalid: " + courseId))
    ensures IsError(reply.status) && reply.status != 404 && reply.status != 422 ==>
              r == Fail(IllegalArgument("Something went wrong"))
    ensures !IsError(reply.status) ==>
              r == (if reply.body.Some? then Just(reply.body.value) else Empty)
  {
    if IsError(reply.status) then Fail(ErrorFor(reply.status, courseId))
    else if reply.body.Some? then Just(reply.body.value)
    else Empty
  }

  /**
   * getCourseByCourseId: GET the course's URL from `server` (the courses
   * service, as a function from URL to reply) and decode the reply.
   */
  function GetCourseByCourseId(c: Client, courseId: string, server: string -> HttpReply): (r: Mono<CourseResponse>)
  {
    Decode(courseId, server(RequestUrl(c, courseId)))
  }

  /** The request URL of a client built from host and port, spelled out. */
  lemma RequestUrlOfNewClient(host: string, port: string, courseId: string)
    ensures RequestUrl(NewClient(host, port), courseId)
         == "http://" + host + ":" + port + "/api/v1/courses/" + courseId
  {
  }

  /** Different course ids are fetched from different URLs. */
  lemma {:induction false} RequestUrlInjective(c: Client, id1: string, id2: string)
    ensures RequestUrl(c, id1) == RequestUrl(c, id2) ==> id1 == id2
  {
    var n := |c.baseUrl + "/"|;
    if RequestUrl(c, id1) == RequestUrl(c, id2) {
      assert RequestUrl(c, id1)[n..] == id1;
      assert RequestUrl(c, id2)[n..] == id2;
    }
  }

  /** The 404 and 422 messages name the id: equal messages mean equal ids. */
  lemma {:induction false} ErrorMessageNamesId(status: int, id1: string, id2: string)
    requires status == 404 || status == 422
    ensures ErrorFor(status, id1) == ErrorFor(status, id2) ==> id1 == id2
  {
    var prefix := if status == 404 then "CourseId not found: " else "CourseId invalid: ";
    if ErrorFor(status, id1) == ErrorFor(status, id2) {
      assert ErrorFor(status, id1).message == prefix + id1;
      assert (prefix + id1)[|prefix|..] == id1;
      assert (prefix + id2)[|prefix|..] == id2;
    }
  }

  /** Every other error status yields one message that does not depend on the id. */
  lemma OtherErrorIgnoresId(reply: HttpReply, id1: string, id2: string)
    requires IsError(reply.status) && reply.status != 404 && reply.status != 422
    ensures Decode(id1, reply) == Decode(id2, reply)
  {
  }
}
