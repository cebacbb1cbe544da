/** The `marketing_jobs` queue: job rows, their payloads, and the three queue
    operations `enqueueJob`, `getPendingJobs` and `markJobStatus`. Like the outbox, the
    table is a sequence in `created_at` order with unique ids. */
module Jobs {
  import opened Wrappers
  import Seqs
  import opened Json

  const Pending: string := "pending"
  const Processing: string := "processing"
  const Done: string := "done"
  const JobFailed: string := "failed"

  const GenerateEmail: string := "GENERATE_EMAIL"
  const GenerateLinkedInPosts: string := "GENERATE_LINKEDIN_POSTS"
  const GenerateLinkedInDms: string := "GENERATE_LINKEDIN_DMS"
  /** The DM job type the bulk lead import writes (note the missing final "S"). */
  const GenerateLinkedInDm: string := "GENERATE_LINKEDIN_DM"

  /** The payload fields any handler reads; a field that is absent is `JNull`, and a
      null payload (`job.payload || {}`) has every field `JNull`. */
  datatype Payload = Payload(language: Value, autoApprove: Value, extraContext: Value, count: Value)

  const EmptyPayload: Payload := Payload(JNull, JNull, JNull, JNull)

  /** A row of `marketing_jobs`. */
  datatype Job = Job(
    id: string,
    jobType: string,
    status: string,
    leadId: Option<string>,
    payload: Payload,
    error: Option<string>,
    createdAt: string)

  predicate UniqueJobIds(jobs: seq<Job>) {
    forall i, j :: 0 <= i < j < |jobs| ==> jobs[i].id != jobs[j].id
  }

  predicate IsPending(job: Job) {
    job.status == Pending
  }

  /** `enqueueJob`: a new `pending` job at the young end of the table. The id and the
      creation stamp are the database's, so they are inputs. */
  function EnqueueJob(jobs: seq<Job>, jobType: string, leadId: string, payload: Payload, newId: string, createdAt: string)
    : (r: seq<Job>)
    requires UniqueJobIds(jobs)
    requires forall i :: 0 <= i < |jobs| ==> jobs[i].id != newId
    ensures UniqueJobIds(r)
    ensures |r| == |jobs| + 1 && r[..|jobs|] == jobs
    ensures r[|jobs|].status == Pending && r[|jobs|].leadId == Some(leadId)
    ensures r[|jobs|].jobType == jobType && r[|jobs|].payload == payload && r[|jobs|].id == newId
  {
    jobs + [Job(newId, jobType, Pending, Some(leadId), payload, None, createdAt)]
  }

  /** `getPendingJobs(limit)`: the pending jobs, oldest first, at most `limit`. */
  function GetPendingJobs(jobs: seq<Job>, limit: nat): (r: seq<Job>)
    ensures |r| <= limit
    ensures |r| == if Seqs.Count(jobs, IsPending) < limit then Seqs.Count(jobs, IsPending) else limit
    ensures forall k :: 0 <= k < |r| ==> IsPending(r[k])
  {
    Seqs.Take(Seqs.Filter(jobs, IsPending), limit)
  }

  /** The fetched jobs are pending, at most `limit` of them, and they are the oldest
      pending ones: a pending job is fetched exactly when it sits before a cutoff, and
      the cutoff stops short of the table's end only when `limit` jobs were found. In
      fact the fetched jobs are exactly the pending jobs before the cutoff, in table
      order. */
  lemma PendingJobsAreOldest(jobs: seq<Job>, limit: nat)
    ensures var fetched := GetPendingJobs(jobs, limit);
      var m := Seqs.FifoCutoff(jobs, IsPending, limit);
      && |fetched| <= limit
      && (forall k :: 0 <= k < |fetched| ==> IsPending(fetched[k]) && fetched[k] in jobs)
      && (forall i :: 0 <= i < m && IsPending(jobs[i]) ==> jobs[i] in fetched)
      && (forall k :: 0 <= k < |fetched| ==> fetched[k] in jobs[..m])
      && (m < |jobs| ==> |fetched| == limit)
      && fetched == Seqs.Filter(jobs[..m], IsPending)
  {
    var fetched := GetPendingJobs(jobs, limit);
    var m := Seqs.FifoCutoff(jobs, IsPending, limit);
    Seqs.TakeFilterIsOldest(jobs, IsPending, limit);
    Seqs.FilterMembers(jobs, IsPending);
    Seqs.FilterMembers(jobs[..m], IsPending);
    assert fetched == Seqs.Filter(jobs[..m], IsPending);
    forall i | 0 <= i < m && IsPending(jobs[i])
      ensures jobs[i] in fetched
    {
      assert jobs[..m][i] == jobs[i];
    }
  }

  /** `markJobStatus(id, status, errorMsg)`: the job with that id takes the status, and
      its error becomes the message, or null when the message is absent or empty. */
  function MarkJobStatus(jobs: seq<Job>, id: string, status: string, errorMsg: Option<string>): (r: seq<Job>)
    ensures |r| == |jobs|
    ensures forall i :: 0 <= i < |jobs| && jobs[i].id != id ==> r[i] == jobs[i]
    ensures forall i :: 0 <= i < |jobs| && jobs[i].id == id ==>
      && r[i].status == status
      && (r[i].error.Some? <==> errorMsg.Some? && errorMsg.value != "")
      && (r[i].error.Some? ==> r[i].error == errorMsg)
      && r[i].(status := jobs[i].status, error := jobs[i].error) == jobs[i]
  {
    var error := if errorMsg.Some? && errorMsg.value != "" then errorMsg else None;
    seq(|jobs|, i requires 0 <= i < |jobs| =>
      if jobs[i].id == id then jobs[i].(status := status, error := error) else jobs[i])
  }
}
