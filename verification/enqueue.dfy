/** `jobs/enqueue`: the endpoint that puts one `GENERATE_EMAIL` job on the queue with
    a normalised payload. */
module Enqueue {
  import opened Wrappers
  import Seqs
  import opened Json
  import opened Http
  import opened Jobs

  const UnsupportedType: string := "Unsupported job type"
  const LeadIdRequired: string := "leadId is required"

  /** The payload as stored: `language` defaults to "nl", `autoApprove` becomes a
      boolean, `extraContext` defaults to "". The request's `count` is not copied. */
  function NormalisePayload(p: Payload): (q: Payload)
    ensures Truthy(q.language) && q.autoApprove.JBool? && q.count == JNull
    ensures Truthy(p.language) ==> q.language == p.language
    ensures !Truthy(p.language) ==> q.language == JStr("nl")
    ensures q.autoApprove.b <==> Truthy(p.autoApprove)
    ensures Truthy(p.extraContext) ==> q.extraContext == p.extraContext
    ensures !Truthy(p.extraContext) ==> q.extraContext == JStr("")
  {
    Payload(Or(p.language, JStr("nl")), JBool(Truthy(p.autoApprove)), Or(p.extraContext, JStr("")), JNull)
  }

  /** Normalising twice changes nothing more: a stored payload is already normal. */
  lemma NormaliseIdempotent(p: Payload)
    ensures NormalisePayload(NormalisePayload(p)) == NormalisePayload(p)
  {
  }

  /** A handled request: the response and the jobs table left behind. */
  datatype Enqueued = Enqueued(response: Response<Job>, jobs: seq<Job>)

  /** The handler. `jobType` is the request's `type`, `leadId` its `leadId` (`None` when
      absent), `payload` its `payload` (`EmptyPayload` when absent); `newId` and
      `createdAt` are what the database assigns to the new row. */
  function EnqueueRequest(
    verb: Method, jobs: seq<Job>, jobType: Value, leadId: Option<string>, payload: Payload,
    newId: string, createdAt: string)
    : (e: Enqueued)
    requires UniqueJobIds(jobs)
    requires forall i :: 0 <= i < |jobs| ==> jobs[i].id != newId
    ensures !verb.Post? ==> e == Enqueued(MethodNotAllowed, jobs)
    ensures verb.Post? && jobType != JStr(GenerateEmail) ==> e == Enqueued(BadRequest(UnsupportedType), jobs)
    ensures verb.Post? && jobType == JStr(GenerateEmail) && Missing(leadId) ==>
      e == Enqueued(BadRequest(LeadIdRequired), jobs)
    ensures e.response.Success? <==> verb.Post? && jobType == JStr(GenerateEmail) && !Missing(leadId)
    ensures e.response.Success? ==>
      && e.jobs == jobs + [e.response.body]
      && e.response.body == Job(newId, GenerateEmail, Pending, leadId, NormalisePayload(payload), None, createdAt)
      && UniqueJobIds(e.jobs)
  {
    if !verb.Post? then Enqueued(MethodNotAllowed, jobs)
    else if jobType != JStr(GenerateEmail) then Enqueued(BadRequest(UnsupportedType), jobs)
    else if Missing(leadId) then Enqueued(BadRequest(LeadIdRequired), jobs)
    else
      var after := EnqueueJob(jobs, GenerateEmail, leadId.value, NormalisePayload(payload), newId, createdAt);
      Enqueued(Success(after[|jobs|]), after)
  }

  /** An enqueued job joins the queue behind the pending jobs already there: fetching one
      more job than were pending before returns the old pending jobs and then it. */
  lemma {:induction false} EnqueuedJobIsFetchedLast(
    jobs: seq<Job>, leadId: string, payload: Payload, newId: string, createdAt: string)
    requires UniqueJobIds(jobs)
    requires forall i :: 0 <= i < |jobs| ==> jobs[i].id != newId
    requires leadId != ""
    ensures var e := EnqueueRequest(Post, jobs, JStr(GenerateEmail), Some(leadId), payload, newId, createdAt);
      var n := Seqs.Count(jobs, IsPending);
      GetPendingJobs(e.jobs, n + 1) == Seqs.Filter(jobs, IsPending) + [e.response.body]
  {
    var e := EnqueueRequest(Post, jobs, JStr(GenerateEmail), Some(leadId), payload, newId, createdAt);
    var job := e.response.body;
    Seqs.FilterConcat(jobs, [job], IsPending);
    assert Seqs.Filter([job], IsPending) == [job] + Seqs.Filter([job][1..], IsPending);
    assert [job][1..] == [];
  }
}
