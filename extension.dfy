/**
 * The two halves of the extension joined: the message a pending lookup of
 * the page script stands for, handled by the background worker.
 */
module Extension {
  import opened Wrappers
  import opened Messages
  import opened Page
  import opened Background

  /** `chrome.runtime.sendMessage` of a pending lookup, answered by the
      worker's `onMessage` listener: the channel stays open and exactly one
      reply comes back, searched for the pending name. */
  method Deliver(
    w: Worker,
    p: Pending,
    schoolReply: HttpReply<Option<seq<SchoolEdge>>>,
    teacherReply: HttpReply<Option<seq<TeacherEdge>>>,
    typeError: string)
    returns (reply: Response, query: Option<TeacherQuery>)
    modifies w
    ensures var step := SchoolIdStep(old(w.cachedSchoolId), schoolReply);
      && w.cachedSchoolId == step.memo
      && (query.Some? <==> Truthy(step.id))
      && (query.Some? ==> query.value == TeacherQuery(p.name, step.id.value))
      && reply == Respond(step.id, if query.Some? then SearchProfessor(teacherReply) else [], typeError)
  {
    var sent, keepOpen;
    sent, keepOpen, query := w.OnMessage(MessageOf(p), schoolReply, teacherReply, typeError);
    assert keepOpen && |sent| == 1;
    reply := sent[0];
  }
}
