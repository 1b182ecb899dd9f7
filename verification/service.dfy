/** The request handlers of the service: `/recommendations` (app.py:31-53)
    and the row count of `/analytics` (app.py:55-65), as functions from the
    loaded catalog, the similarity matrix and the query argument to a
    response with its HTTP status. */
module Service {
  import opened Results
  import opened Catalog
  import opened IntParse
  import opened Recommendations

  /** The id used when the request has no `course_id` argument. */
  const DefaultCourseId := 1
  const NotFoundMessage := "Course ID not found"

  datatype Response =
    | RecommendationList(courseId: int, recommendations: seq<Course>)
    | AnalyticsReport(totalCourses: nat)
    | ErrorResponse(status: nat, error: string)

  function Status(r: Response): nat
  {
    match r
    case RecommendationList(_, _) => 200
    case AnalyticsReport(_) => 200
    case ErrorResponse(status, _) => status
  }

  /** `int(request.args.get("course_id", 1))`: the default when the
      argument is absent, its integer value, or the `ValueError` message. */
  function CourseIdArgument(arg: Option<string>): (r: Result<int, string>)
    ensures arg.None? ==> r == Success(DefaultCourseId)
    ensures arg.Some? ==> (r.Failure? <==> ParseInt(arg.value).None?)
    ensures arg.Some? && r.Success? ==> Some(r.value) == ParseInt(arg.value)
  {
    match arg
    case None => Success(DefaultCourseId)
    case Some(text) =>
      match ParseInt(text)
      case None => Failure(ParseErrorMessage(text))
      case Some(n) => Success(n)
  }

  /** The part of the handler after the id is known (app.py:35-51). */
  function RespondForCourse(catalog: seq<Course>, sim: seq<seq<real>>, courseId: int): (resp: Response)
    requires SquareMatrix(sim, |catalog|)
    ensures Status(resp) == 404 <==> forall j :: 0 <= j < |catalog| ==> catalog[j].id != courseId
    ensures Status(resp) == 404 ==> resp == ErrorResponse(404, NotFoundMessage)
    ensures Status(resp) != 404 ==> resp.RecommendationList? && resp.courseId == courseId
    ensures resp.RecommendationList? ==> |resp.recommendations| <= 2 && |resp.recommendations| < |catalog|
    ensures resp.RecommendationList? ==> Recommend(catalog, sim, courseId) == Success(resp.recommendations)
  {
    match Recommend(catalog, sim, courseId)
    case Failure(_) => ErrorResponse(404, NotFoundMessage)
    case Success(recs) => RecommendationList(courseId, recs)
  }

  /** `GET /recommendations`: a failure to read the argument as an integer
      is caught by the handler's `except` and answered with status 500 and
      the exception's message (app.py:52-53). */
  function HandleRecommendations(catalog: seq<Course>, sim: seq<seq<real>>, arg: Option<string>): (resp: Response)
    requires SquareMatrix(sim, |catalog|)
    ensures Status(resp) == 500 <==> arg.Some? && ParseInt(arg.value).None?
    ensures Status(resp) == 500 ==> resp.error == ParseErrorMessage(arg.value)
    ensures Status(resp) in {200, 404, 500}
    ensures arg.None? ==> resp == RespondForCourse(catalog, sim, DefaultCourseId)
    ensures arg.Some? && ParseInt(arg.value).Some? ==> resp == RespondForCourse(catalog, sim, ParseInt(arg.value).value)
  {
    match CourseIdArgument(arg)
    case Failure(message) => ErrorResponse(500, message)
    case Success(courseId) => RespondForCourse(catalog, sim, courseId)
  }

  /** Without a `course_id` argument the request is answered for id 1. */
  lemma AbsentArgumentMeansCourseOne(catalog: seq<Course>, sim: seq<seq<real>>)
    requires SquareMatrix(sim, |catalog|)
    ensures HandleRecommendations(catalog, sim, None) == RespondForCourse(catalog, sim, DefaultCourseId)
  {
  }

  /** The decimal text of an id, with or without whitespace around it, is
      answered for that id. */
  lemma DecimalArgumentMeansThatCourse(catalog: seq<Course>, sim: seq<seq<real>>, pre: string, n: int, post: string)
    requires SquareMatrix(sim, |catalog|)
    requires AllSpace(pre) && AllSpace(post)
    ensures HandleRecommendations(catalog, sim, Some(pre + Show(n) + post)) == RespondForCourse(catalog, sim, n)
  {
    ParseShowRoundTrip(pre, n, post);
  }

  /** A non-numeric argument is not replaced by the default id: it is
      answered with status 500 and the parse error's message. */
  lemma NonNumericArgumentIsServerError(catalog: seq<Course>, sim: seq<seq<real>>, text: string, i: nat)
    requires SquareMatrix(sim, |catalog|)
    requires i < |text|
    requires !IsSpace(text[i]) && !IsDigit(text[i]) && text[i] != '_' && text[i] != '+' && text[i] != '-'
    ensures HandleRecommendations(catalog, sim, Some(text)) == ErrorResponse(500, ParseErrorMessage(text))
  {
    StrayCharacterRejected(text, i);
  }

  /** `GET /analytics`, its `total_courses` field (app.py:58). */
  function HandleAnalytics(catalog: seq<Course>): (resp: Response)
    ensures Status(resp) == 200 && resp.AnalyticsReport?
    ensures resp.totalCourses == |catalog|
  {
    AnalyticsReport(TotalCourses(catalog))
  }

  /** `total_courses` is the number of rows the table was read with:
      loading neither drops nor adds a row. */
  lemma TotalCoursesCountsLoadedRows(t: RawTable)
    requires Load(t).Success?
    ensures HandleAnalytics(Load(t).value).totalCourses == |t.rows|
  {
  }
}
