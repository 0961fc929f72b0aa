/**
 * The background worker: the classification of a GraphQL round trip, the
 * memo of the school id, the teacher search with its empty fallback, and the
 * reply the message handler sends for a rating lookup.
 *
 * The network is not called: each round trip is an input describing how it
 * ended (`HttpReply`), and only the part of the parsed body the caller reads
 * is kept (`data.data?.newSearch?.schools?.edges` or `...teachers?.edges`,
 * `None` when any link of that chain is missing).
 */
module Background {
  import opened Wrappers
  import opened Messages
  import opened Badges

  /** The parsed body of a response: unparsable, or JSON whose `errors`
      field is set or not, with the payload the caller reads. */
  datatype Body<T> = Unparsable(syntaxError: string) | Json(hasErrors: bool, data: T)

  /** How one `fetch` ended: it threw, or an HTTP response came back with its
      `ok` flag, its status and its body. */
  datatype HttpReply<T> = NetworkError(message: string) | Http(ok: bool, status: int, body: Body<T>)

  /** Why `makeGraphQLRequest` throws: the status was not ok, the body had
      `errors`, or `fetch` or the JSON parser threw. */
  datatype GqlError = StatusError(status: int) | QueryFailed | Thrown(message: string)

  /** The `legacyId` of a school node; `None` for a JSON null. */
  datatype School = School(legacyId: Option<int>)

  /** A school edge; its node may be null. */
  datatype SchoolEdge = SchoolEdge(node: Option<School>)

  /** The fields of a teacher node the handler reads. */
  datatype Teacher = Teacher(
    legacyId: int,
    firstName: string,
    lastName: string,
    avgRating: real,
    avgDifficulty: real,
    numRatings: int,
    wouldTakeAgainPercent: real,
    department: string)

  /** A teacher edge; its node may be null. */
  datatype TeacherEdge = TeacherEdge(node: Option<Teacher>)

  /** The variables of a teacher search: the name searched for and the school
      id it is restricted to. */
  datatype TeacherQuery = TeacherQuery(text: string, schoolId: int)

  const SchoolMissingError := "Could not find University of Oregon on RateMyProfessor"
  const ProfessorMissingMessage := "Professor not found on RateMyProfessor"

  /** `makeGraphQLRequest`: the status is checked before the body is parsed,
      then the body must parse and carry no `errors`. */
  function MakeGraphQLRequest<T>(reply: HttpReply<T>): (r: Result<T, GqlError>)
    ensures r.Ok? <==> reply.Http? && reply.ok && reply.body.Json? && !reply.body.hasErrors
    ensures r.Ok? ==> r.value == reply.body.data
    ensures reply.Http? && !reply.ok ==> r == Err(StatusError(reply.status))
    ensures reply.Http? && reply.ok && reply.body.Json? && reply.body.hasErrors ==> r == Err(QueryFailed)
    ensures r.Err? && r.error.Thrown? ==> reply.NetworkError? || reply.body.Unparsable?
  {
    match reply
    case NetworkError(m) => Err(Thrown(m))
    case Http(ok, status, body) =>
      if !ok then Err(StatusError(status))
      else match body
        case Unparsable(m) => Err(Thrown(m))
        case Json(hasErrors, data) => if hasErrors then Err(QueryFailed) else Ok(data)
  }

  // ---------------------------------------------------------------------
  // The school id

  /** JavaScript truthiness of the memo: a number other than 0. */
  predicate Truthy(id: Option<int>) {
    id.Some? && id.value != 0
  }

  /** What a school search yields to `getUOSchoolId`: the `legacyId` of the
      first edge's node, or nothing when the request failed, no edges came
      back, or the first node is null (the property read throws and is
      caught). */
  function FirstSchoolId(reply: HttpReply<Option<seq<SchoolEdge>>>): (r: Option<Option<int>>)
    ensures r.Some? <==>
      && MakeGraphQLRequest(reply).Ok?
      && MakeGraphQLRequest(reply).value.Some?
      && |MakeGraphQLRequest(reply).value.value| > 0
      && MakeGraphQLRequest(reply).value.value[0].node.Some?
    ensures r.Some? ==> r.value == MakeGraphQLRequest(reply).value.value[0].node.value.legacyId
  {
    match MakeGraphQLRequest(reply)
    case Err(_) => None
    case Ok(edges) =>
      if edges.Some? && |edges.value| > 0 && edges.value[0].node.Some?
      then Some(edges.value[0].node.value.legacyId)
      else None
  }

  /** One call of `getUOSchoolId` from memo `memo`: the id returned, the new
      memo, and whether a request was made. */
  datatype Lookup = Lookup(id: Option<int>, memo: Option<int>, requested: bool)

  /** A truthy memo is returned as it is, with no request; otherwise a request
      is made, and the memo changes only to the id of a successful search,
      which is then returned; a failed search returns null and leaves the
      memo alone. */
  function SchoolIdStep(memo: Option<int>, reply: HttpReply<Option<seq<SchoolEdge>>>): (l: Lookup)
    ensures Truthy(memo) ==> l == Lookup(memo, memo, false)
    ensures !Truthy(memo) ==> l.requested
    ensures !Truthy(memo) && FirstSchoolId(reply).None? ==> l.id.None? && l.memo == memo
    ensures l.memo != memo ==> FirstSchoolId(reply) == Some(l.memo)
    ensures l.requested && l.id.Some? ==> l.id == l.memo == FirstSchoolId(reply).value
    ensures !Truthy(memo) && FirstSchoolId(reply).Some? ==>
      l == Lookup(FirstSchoolId(reply).value, FirstSchoolId(reply).value, true)
  {
    if Truthy(memo) then Lookup(memo, memo, false)
    else match FirstSchoolId(reply)
      case Some(v) => Lookup(v, v, true)
      case None => Lookup(None, memo, true)
  }

  /** The memo after a series of calls, one reply each. */
  function MemoAfter(memo: Option<int>, replies: seq<HttpReply<Option<seq<SchoolEdge>>>>): (m: Option<int>)
    ensures m != memo ==> exists i :: 0 <= i < |replies| && FirstSchoolId(replies[i]) == Some(m)
    decreases |replies|
  {
    if replies == [] then memo
    else
      var m := MemoAfter(SchoolIdStep(memo, replies[0]).memo, replies[1..]);
      assert m != SchoolIdStep(memo, replies[0]).memo ==>
        exists i :: 1 <= i < |replies| && FirstSchoolId(replies[i]) == Some(m) by {
        if m != SchoolIdStep(memo, replies[0]).memo {
          var i :| 0 <= i < |replies[1..]| && FirstSchoolId(replies[1..][i]) == Some(m);
          assert replies[1..][i] == replies[i + 1];
        }
      }
      m
  }

  /** The number of requests a series of calls makes. */
  function RequestsMade(memo: Option<int>, replies: seq<HttpReply<Option<seq<SchoolEdge>>>>): (n: nat)
    ensures n <= |replies|
    decreases |replies|
  {
    if replies == [] then 0
    else
      var step := SchoolIdStep(memo, replies[0]);
      (if step.requested then 1 else 0) + RequestsMade(step.memo, replies[1..])
  }

  /** Once the memo holds a truthy id it never changes and no further request
      is made, whatever the network does. */
  lemma {:induction false} MemoSettles(memo: Option<int>, replies: seq<HttpReply<Option<seq<SchoolEdge>>>>)
    requires Truthy(memo)
    ensures MemoAfter(memo, replies) == memo
    ensures RequestsMade(memo, replies) == 0
    decreases |replies|
  {
    if replies != [] {
      MemoSettles(memo, replies[1..]);
    }
  }

  /** Failed searches leave a memo that is not truthy as it was, and each
      call makes a request of its own. */
  lemma {:induction false} FailuresKeepMemo(memo: Option<int>, replies: seq<HttpReply<Option<seq<SchoolEdge>>>>)
    requires !Truthy(memo)
    requires forall i :: 0 <= i < |replies| ==> FirstSchoolId(replies[i]).None?
    ensures MemoAfter(memo, replies) == memo
    ensures RequestsMade(memo, replies) == |replies|
    decreases |replies|
  {
    if replies != [] {
      FailuresKeepMemo(memo, replies[1..]);
    }
  }

  /** The first search that yields a truthy id fixes the memo for good. */
  lemma FirstSuccessIsFinal(memo: Option<int>, reply: HttpReply<Option<seq<SchoolEdge>>>, later: seq<HttpReply<Option<seq<SchoolEdge>>>>)
    requires !Truthy(memo) && FirstSchoolId(reply).Some? && Truthy(FirstSchoolId(reply).value)
    ensures MemoAfter(memo, [reply] + later) == FirstSchoolId(reply).value
    ensures RequestsMade(memo, [reply] + later) == 1
  {
    var v := FirstSchoolId(reply).value;
    assert ([reply] + later)[1..] == later;
    MemoSettles(v, later);
  }

  // ---------------------------------------------------------------------
  // The teacher search

  /** `searchProfessor`: the teacher edges when the request succeeded and
      they are present, otherwise the empty list. */
  function SearchProfessor(reply: HttpReply<Option<seq<TeacherEdge>>>): (edges: seq<TeacherEdge>)
    ensures MakeGraphQLRequest(reply).Err? ==> edges == []
    ensures MakeGraphQLRequest(reply) == Ok(None) ==> edges == []
    ensures edges != [] ==> MakeGraphQLRequest(reply) == Ok(Some(edges))
    ensures MakeGraphQLRequest(reply).Ok? && MakeGraphQLRequest(reply).value.Some? ==>
      edges == MakeGraphQLRequest(reply).value.value
  {
    match MakeGraphQLRequest(reply)
    case Err(_) => []
    case Ok(found) => if found.Some? then found.value else []
  }

  // ---------------------------------------------------------------------
  // The reply

  /** The `data` object built from a teacher node. */
  function DataOf(t: Teacher): (d: ProfessorData)
    ensures d.name == t.firstName + " " + t.lastName
    ensures d.rating == t.avgRating && d.difficulty == t.avgDifficulty
    ensures d.numRatings == t.numRatings && d.wouldTakeAgain == t.wouldTakeAgainPercent
    ensures d.department == t.department && d.id == t.legacyId
  {
    ProfessorData(
      t.firstName + " " + t.lastName,
      t.avgRating,
      t.avgDifficulty,
      t.numRatings,
      t.wouldTakeAgainPercent,
      t.department,
      t.legacyId)
  }

  /** The reply of the handler, from the school id it resolved, the edges the
      search returned and the message of the `TypeError` thrown when the first
      edge has a null node. */
  function Respond(schoolId: Option<int>, professors: seq<TeacherEdge>, typeError: string): (r: Response)
    ensures !Truthy(schoolId) ==> r == Failed(SchoolMissingError)
    ensures r.Success() <==> Truthy(schoolId) && |professors| > 0 && professors[0].node.Some?
    ensures r.Found? ==> r.data == DataOf(professors[0].node.value)
    ensures r.NotFound? <==> Truthy(schoolId) && professors == []
    ensures r.NotFound? ==> r.message == ProfessorMissingMessage
    ensures Truthy(schoolId) && |professors| > 0 && professors[0].node.None? ==> r == Failed(typeError)
  {
    if !Truthy(schoolId) then Failed(SchoolMissingError)
    else if |professors| > 0 then
      match professors[0].node
      case Some(t) => Found(DataOf(t))
      case None => Failed(typeError)
    else NotFound(ProfessorMissingMessage)
  }

  /** What the page shows for a reply: a rated badge exactly when the school
      was found and the first edge names a teacher, scored from that
      teacher's average rating; the "not found" badge in every other case. */
  lemma RenderedReply(name: string, schoolId: Option<int>, professors: seq<TeacherEdge>, typeError: string)
    ensures CreateRatingBadge(name, Respond(schoolId, professors, typeError)).Rated? <==>
      Truthy(schoolId) && |professors| > 0 && professors[0].node.Some?
    ensures CreateRatingBadge(name, Respond(schoolId, professors, typeError)).Rated? ==>
      CreateRatingBadge(name, Respond(schoolId, professors, typeError)).mood
        == MoodOf(professors[0].node.value.avgRating)
    ensures !CreateRatingBadge(name, Respond(schoolId, professors, typeError)).Rated? ==>
      CreateRatingBadge(name, Respond(schoolId, professors, typeError)) == NotOnRmp(NotFoundTitle)
  {
  }

  // ---------------------------------------------------------------------
  // The worker

  class Worker {
    /** `cachedSchoolId`; `None` is `null`. */
    var cachedSchoolId: Option<int>

    /** The worker as it starts: nothing memoised. */
    constructor ()
      ensures cachedSchoolId.None?
    {
      cachedSchoolId := None;
    }

    /** `getUOSchoolId`, with `reply` the outcome of the school search it
        makes when the memo is not truthy. */
    method GetSchoolId(reply: HttpReply<Option<seq<SchoolEdge>>>) returns (id: Option<int>, requested: bool)
      modifies this
      ensures SchoolIdStep(old(cachedSchoolId), reply) == Lookup(id, cachedSchoolId, requested)
    {
      if Truthy(cachedSchoolId) {
        return cachedSchoolId, false;
      }
      requested := true;
      var data := MakeGraphQLRequest(reply);
      if data.Err? {
        return None, true;
      }
      var schools := data.value;
      if schools.Some? && |schools.value| > 0 {
        var node := schools.value[0].node;
        if node.None? {
          return None, true;
        }
        cachedSchoolId := node.value.legacyId;
        return cachedSchoolId, true;
      }
      id := None;
    }

    /** The `onMessage` listener. For a rating lookup it resolves the school
        id, searches only when that id is truthy, sends exactly one reply and
        keeps the channel open; any other message gets no reply and leaves
        everything as it was. */
    method OnMessage(
      request: Request,
      schoolReply: HttpReply<Option<seq<SchoolEdge>>>,
      teacherReply: HttpReply<Option<seq<TeacherEdge>>>,
      typeError: string)
      returns (sent: seq<Response>, keepOpen: bool, query: Option<TeacherQuery>)
      modifies this
      ensures request.action != GetProfessorRating ==>
        sent == [] && !keepOpen && query.None? && cachedSchoolId == old(cachedSchoolId)
      ensures request.action == GetProfessorRating ==>
        var step := SchoolIdStep(old(cachedSchoolId), schoolReply);
        && keepOpen
        && cachedSchoolId == step.memo
        && (query.Some? <==> Truthy(step.id))
        && (query.Some? ==> query.value == TeacherQuery(request.professorName, step.id.value))
        && sent == [Respond(step.id, if query.Some? then SearchProfessor(teacherReply) else [], typeError)]
    {
      if request.action != GetProfessorRating {
        return [], false, None;
      }
      var schoolId, _ := GetSchoolId(schoolReply);
      if !Truthy(schoolId) {
        return [Failed(SchoolMissingError)], true, None;
      }
      query := Some(TeacherQuery(request.professorName, schoolId.value));
      var professors := SearchProfessor(teacherReply);
      var reply;
      if |professors| > 0 {
        var prof := professors[0].node;
        if prof.None? {
          reply := Failed(typeError);
        } else {
          reply := Found(DataOf(prof.value));
        }
      } else {
        reply := NotFound(ProfessorMissingMessage);
      }
      return [reply], true, query;
    }
  }
}
