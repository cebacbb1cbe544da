/** `cron-processJobs`: the runner that takes pending jobs off the queue, writes one
    first outreach email per job into the outbox and settles each job as `done` or
    `failed`. Every fetched job is handled on its own: a failure is recorded on that
    job and the loop goes on. */
module CronJobs {
  import opened Wrappers
  import Seqs
  import opened Json
  import opened Http
  import opened Leads
  import opened Jobs
  import Outbox
  import Enqueue
  import SalesEmail

  const DefaultLimit: int := 20
  const NoEmail: string := "Lead heeft geen email"
  /** The error when the fetch of pending jobs itself fails. */
  const BadLimit: string := "invalid limit"

  /** What the runner reads from outside. `leadError(k, job)` is a failure of the
      `k`-th fetched job's lead read other than a missing row; `reply(k, job)` is the
      model's reply for that job (`""` for an empty reply) or the error of that call;
      `insertError(k, job)` is the error of its outbox insert, if any. */
  datatype Oracles = Oracles(
    leads: seq<Lead>,
    leadError: (nat, Job) -> Option<string>,
    reply: (nat, Job) -> Result<string>,
    insertError: (nat, Job) -> Option<string>)

  /** The outbox row the runner inserts. It names no sender account. */
  datatype Drafted = Drafted(toEmail: string, subject: string, body: string, status: string, leadId: string)

  /** The response body of a run. */
  datatype Summary = Summary(totalJobsFetched: nat, processed: nat, failed: nat)

  /** One write of `markJobStatus`. */
  datatype StatusWrite = StatusWrite(id: string, status: string, error: Option<string>)

  /** `(payload.language) || "en"`. */
  function Language(payload: Payload): (language: Value)
    ensures !Truthy(payload.language) ==> !SalesEmail.Dutch(language)
    ensures SalesEmail.Dutch(language) <==> payload.language == JStr("nl")
  {
    Or(payload.language, JStr("en"))
  }

  /** `Number(req.body?.limit || 20)`, `None` for NaN. */
  function CronLimit(limit: Value): (r: Option<int>)
    ensures !Truthy(limit) ==> r == Some(DefaultLimit)
    ensures limit.JNum? && limit.n != 0 ==> r == Some(limit.n)
  {
    ToNumber(Or(limit, JNum(DefaultLimit)))
  }

  /** A limit sent as a signed decimal string is read with its sign: "+5" fetches 5
      jobs, and "-5" is a negative limit. */
  lemma CronLimitOfSignedString(d: string)
    requires |d| > 0 && AllDigits(d)
    ensures CronLimit(JStr(['+'] + d)) == Some(DigitsValue(d) as int)
    ensures CronLimit(JStr(['-'] + d)) == Some(-(DigitsValue(d) as int))
  {
    SignedDigits('+', d);
    SignedDigits('-', d);
  }

  /** The `k`-th job's lead read succeeds and finds a lead with an email address. */
  predicate HasAddressedLead(job: Job, k: nat, o: Oracles) {
    && o.leadError(k, job).None?
    && job.leadId.Some?
    && FindLead(o.leads, job.leadId.value).Some?
    && !Missing(FindLead(o.leads, job.leadId.value).value.email)
  }

  /** The body of the `try` for the `k`-th fetched job: the row it inserts, or the error
      that sends it to the `catch`. The lead is read with `.single()`, so a job without
      a lead, or whose lead is not in the table, fails with the database's single-row
      error. */
  function Outcome(job: Job, k: nat, o: Oracles): (r: Result<Drafted>)
    ensures o.leadError(k, job).Some? ==> r == Err(o.leadError(k, job).value)
    ensures o.leadError(k, job).None? && job.leadId.None? ==> r == Err(Outbox.NoSingleRow)
    ensures o.leadError(k, job).None? && job.leadId.Some? && FindLead(o.leads, job.leadId.value).None? ==>
      r == Err(Outbox.NoSingleRow)
    ensures o.leadError(k, job).None? && job.leadId.Some? && FindLead(o.leads, job.leadId.value).Some? ==>
      (Missing(FindLead(o.leads, job.leadId.value).value.email) ==> r == Err(NoEmail))
    ensures HasAddressedLead(job, k, o) ==>
      var lead := FindLead(o.leads, job.leadId.value).value;
      && (o.reply(k, job).Err? ==> r == Err(o.reply(k, job).error))
      && (o.reply(k, job).Ok? && o.insertError(k, job).Some? ==> r == Err(o.insertError(k, job).value))
      && (o.reply(k, job).Ok? && o.insertError(k, job).None? ==> r == Ok(DraftRow(job, o.reply(k, job).value, lead)))
    ensures r.Ok? <==> HasAddressedLead(job, k, o) && o.reply(k, job).Ok? && o.insertError(k, job).None?
    ensures r.Ok? ==>
      && job.leadId.Some?
      && var lead := FindLead(o.leads, job.leadId.value);
      && lead.Some? && lead.value.email == Some(r.value.toEmail) && r.value.toEmail != ""
      && r.value.leadId == job.leadId.value
      && o.reply(k, job).Ok? && o.insertError(k, job).None?
      && (r.value.status == Outbox.Approved <==> job.payload.autoApprove == JBool(true))
      && (r.value.status == Outbox.Draft <==> job.payload.autoApprove != JBool(true))
      && r.value == DraftRow(job, o.reply(k, job).value, lead.value)
  {
    if o.leadError(k, job).Some? then Err(o.leadError(k, job).value)
    else if job.leadId.None? then Err(Outbox.NoSingleRow)
    else
      var lead := FindLead(o.leads, job.leadId.value);
      if lead.None? then Err(Outbox.NoSingleRow)
      else if Missing(lead.value.email) then Err(NoEmail)
      else Written(job, k, o, lead.value)
  }

  /** The rest of the `try` once the job's lead and its email are found: the model call,
      the status and the insert. */
  function Written(job: Job, k: nat, o: Oracles, lead: Lead): (r: Result<Drafted>)
    requires lead.email.Some?
    ensures o.reply(k, job).Err? ==> r == Err(o.reply(k, job).error)
    ensures r.Ok? ==>
      && r.value.toEmail == lead.email.value && r.value.leadId == lead.id
      && o.reply(k, job).Ok? && o.insertError(k, job).None?
      && (r.value.status == Outbox.Approved <==> job.payload.autoApprove == JBool(true))
      && (r.value.status == Outbox.Draft <==> job.payload.autoApprove != JBool(true))
  {
    match o.reply(k, job)
    case Err(e) => Err(e)
    case Ok(content) =>
      if o.insertError(k, job).Some? then Err(o.insertError(k, job).value)
      else Ok(DraftRow(job, content, lead))
  }

  /** The outbox row a job's generated email becomes: addressed to the lead, `approved`
      when the payload asks for auto-approval and `draft` otherwise. */
  function DraftRow(job: Job, content: string, lead: Lead): (d: Drafted)
    requires lead.email.Some?
    ensures d.toEmail == lead.email.value && d.leadId == lead.id
    ensures d.status == Outbox.Approved <==> job.payload.autoApprove == JBool(true)
    ensures d.status == Outbox.Draft <==> job.payload.autoApprove != JBool(true)
  {
    var email := SalesEmail.GenerateSalesEmail(Language(job.payload), content);
    var status := if job.payload.autoApprove == JBool(true) then Outbox.Approved else Outbox.Draft;
    Drafted(lead.email.value, email.subject, email.body, status, lead.id)
  }

  /** What a job's row holds once it is settled: `done` with no error, or `failed` with
      the error's message (null when the message is empty). */
  function Settle(job: Job, r: Result<Drafted>): (settled: Job)
    ensures settled.status == Done || settled.status == JobFailed
    ensures settled.status == Done <==> r.Ok?
    ensures settled.error.Some? <==> r.Err? && r.error != ""
    ensures settled.(status := job.status, error := job.error) == job
  {
    if r.Ok? then job.(status := Done, error := None)
    else job.(status := JobFailed, error := if r.error != "" then Some(r.error) else None)
  }

  /** The two status writes for a job: `processing`, then the outcome. */
  function JobWrites(job: Job, r: Result<Drafted>): seq<StatusWrite> {
    [StatusWrite(job.id, Processing, None),
     StatusWrite(job.id, Settle(job, r).status, if r.Err? then Some(r.error) else None)]
  }

  /** The outcome of every fetched job, in fetch order. */
  function Outcomes(fetched: seq<Job>, o: Oracles): (rs: seq<Result<Drafted>>)
    ensures |rs| == |fetched|
  {
    seq(|fetched|, k requires 0 <= k < |fetched| => Outcome(fetched[k], k, o))
  }

  /** The status writes for the first `n` fetched jobs, whose outcomes are `rs`. */
  function Writes(fetched: seq<Job>, rs: seq<Result<Drafted>>, n: nat): (ws: seq<StatusWrite>)
    requires n <= |fetched| == |rs|
  {
    if n == 0 then []
    else Writes(fetched, rs, n - 1) + JobWrites(fetched[n - 1], rs[n - 1])
  }

  /** The rows inserted for the first `n` outcomes, in order. */
  function Inserted(rs: seq<Result<Drafted>>, n: nat): (rows: seq<Drafted>)
    requires n <= |rs|
    ensures |rows| <= n
  {
    if n == 0 then []
    else Inserted(rs, n - 1) + (if rs[n - 1].Ok? then [rs[n - 1].value] else [])
  }

  /** Every fetched job is written exactly twice, in fetch order: first `processing`,
      then `done` or `failed`, and `done` exactly when its try block completed. */
  lemma {:induction false} WritesPerJob(fetched: seq<Job>, rs: seq<Result<Drafted>>, n: nat)
    requires n <= |fetched| == |rs|
    ensures |Writes(fetched, rs, n)| == 2 * n
    ensures forall k :: 0 <= k < n ==>
      && Writes(fetched, rs, n)[2 * k] == StatusWrite(fetched[k].id, Processing, None)
      && Writes(fetched, rs, n)[2 * k + 1].id == fetched[k].id
      && (Writes(fetched, rs, n)[2 * k + 1].status == Done <==> rs[k].Ok?)
      && (Writes(fetched, rs, n)[2 * k + 1].status == JobFailed <==> rs[k].Err?)
  {
    if n > 0 {
      WritesPerJob(fetched, rs, n - 1);
      var ws := Writes(fetched, rs, n);
      var prev := Writes(fetched, rs, n - 1);
      assert ws == prev + JobWrites(fetched[n - 1], rs[n - 1]);
      forall k | 0 <= k < n
        ensures ws[2 * k] == StatusWrite(fetched[k].id, Processing, None)
        ensures ws[2 * k + 1].id == fetched[k].id
        ensures ws[2 * k + 1].status == Done <==> rs[k].Ok?
        ensures ws[2 * k + 1].status == JobFailed <==> rs[k].Err?
      {
        if k < n - 1 {
          assert ws[2 * k] == prev[2 * k] && ws[2 * k + 1] == prev[2 * k + 1];
        }
      }
    }
  }

  /** The jobs table after the first `n` fetched jobs have been handled: each of them is
      settled by its outcome, every other row is as it was. */
  predicate Progress(table: seq<Job>, fetched: seq<Job>, rs: seq<Result<Drafted>>, t: seq<Job>, n: nat)
    requires n <= |fetched| == |rs|
  {
    && |t| == |table|
    && (forall i :: 0 <= i < |table| ==> t[i].id == table[i].id)
    && (forall i :: 0 <= i < |table| && (forall k :: 0 <= k < n ==> fetched[k].id != table[i].id) ==>
          t[i] == table[i])
    && (forall k, i :: 0 <= k < n && 0 <= i < |table| && table[i].id == fetched[k].id ==>
          t[i] == Settle(table[i], rs[k]))
  }

  /** Writing `processing` and then the outcome of job `n` extends the progress by one
      job: the later write overwrites the earlier one, and the other rows stay put. */
  lemma RecordJob(table: seq<Job>, fetched: seq<Job>, rs: seq<Result<Drafted>>, t: seq<Job>, n: nat)
    requires UniqueJobIds(fetched) && n < |fetched| == |rs|
    requires Progress(table, fetched, rs, t, n)
    ensures var ws := JobWrites(fetched[n], rs[n]);
      Progress(table, fetched, rs,
        MarkJobStatus(MarkJobStatus(t, ws[0].id, ws[0].status, ws[0].error), ws[1].id, ws[1].status, ws[1].error),
        n + 1)
  {
    var r := rs[n];
    var ws := JobWrites(fetched[n], r);
    var t1 := MarkJobStatus(t, ws[0].id, ws[0].status, ws[0].error);
    var t2 := MarkJobStatus(t1, ws[1].id, ws[1].status, ws[1].error);
    forall i | 0 <= i < |table| && table[i].id == fetched[n].id
      ensures t2[i] == Settle(table[i], r)
    {
      assert forall k :: 0 <= k < n ==> fetched[k].id != table[i].id;
      assert t[i] == table[i];
    }
  }

  /** The job loop: each fetched job marked `processing`, its try block run, and the job
      marked `done` or `failed`; a failure is counted and does not stop the loop. */
  method RunJobs(table: seq<Job>, fetched: seq<Job>, o: Oracles)
    returns (after: seq<Job>, processed: nat, failed: nat, inserted: seq<Drafted>, writes: seq<StatusWrite>)
    requires UniqueJobIds(fetched)
    ensures processed + failed == |fetched|
    ensures processed == |inserted|
    ensures inserted == Inserted(Outcomes(fetched, o), |fetched|)
    ensures writes == Writes(fetched, Outcomes(fetched, o), |fetched|)
    ensures Progress(table, fetched, Outcomes(fetched, o), after, |fetched|)
  {
    var rs := Outcomes(fetched, o);
    after := table;
    processed, failed := 0, 0;
    inserted, writes := [], [];
    var n := 0;
    while n < |fetched|
      invariant 0 <= n <= |fetched|
      invariant processed + failed == n
      invariant processed == |inserted|
      invariant inserted == Inserted(rs, n)
      invariant writes == Writes(fetched, rs, n)
      invariant Progress(table, fetched, rs, after, n)
    {
      var job := fetched[n];
      var r := rs[n];
      var ws := JobWrites(job, r);
      var marked := MarkJobStatus(after, ws[0].id, ws[0].status, ws[0].error);
      var settled := MarkJobStatus(marked, ws[1].id, ws[1].status, ws[1].error);
      assert Progress(table, fetched, rs, settled, n + 1) by {
        RecordJob(table, fetched, rs, after, n);
      }
      assert Writes(fetched, rs, n + 1) == writes + ws;
      assert Inserted(rs, n + 1) == inserted + (if r.Ok? then [r.value] else []);
      after := settled;
      writes := writes + ws;
      if r.Ok? {
        inserted := inserted + [r.value];
        processed := processed + 1;
      } else {
        failed := failed + 1;
      }
      n := n + 1;
    }
  }

  /** The fetched jobs of a table with unique ids have unique ids. */
  lemma {:induction false} PendingIdsUnique(jobs: seq<Job>)
    requires UniqueJobIds(jobs)
    ensures UniqueJobIds(Seqs.Filter(jobs, IsPending))
  {
    if |jobs| > 0 {
      PendingIdsUnique(jobs[1..]);
      Seqs.FilterMembers(jobs[1..], IsPending);
      var rest := Seqs.Filter(jobs[1..], IsPending);
      forall j | 0 <= j < |rest|
        ensures rest[j].id != jobs[0].id
      {
        assert rest[j] in jobs[1..];
      }
    }
  }

  /** The handler. A limit that is NaN or negative makes the fetch fail, which ends in a
      500 with nothing written. */
  method ProcessJobsRequest(verb: Method, limit: Value, table: seq<Job>, o: Oracles)
    returns (response: Response<Summary>, after: seq<Job>, inserted: seq<Drafted>, writes: seq<StatusWrite>)
    requires UniqueJobIds(table)
    ensures !verb.Post? ==> response == MethodNotAllowed && after == table && inserted == [] && writes == []
    ensures verb.Post? && (CronLimit(limit).None? || CronLimit(limit).value < 0) ==>
      response == ServerError(BadLimit) && after == table && inserted == [] && writes == []
    ensures verb.Post? && CronLimit(limit).Some? && CronLimit(limit).value >= 0 ==>
      var fetched := GetPendingJobs(table, CronLimit(limit).value);
      && response.Success?
      && response.body.totalJobsFetched == |fetched|
      && response.body.processed + response.body.failed == |fetched|
      && response.body.processed == |inserted|
      && inserted == Inserted(Outcomes(fetched, o), |fetched|)
      && writes == Writes(fetched, Outcomes(fetched, o), |fetched|)
      && Progress(table, fetched, Outcomes(fetched, o), after, |fetched|)
  {
    if !verb.Post? {
      return MethodNotAllowed, table, [], [];
    }
    var n := CronLimit(limit);
    if n.None? || n.value < 0 {
      return ServerError(BadLimit), table, [], [];
    }
    var fetched := GetPendingJobs(table, n.value);
    PendingIdsUnique(table);
    var processed, failed;
    after, processed, failed, inserted, writes := RunJobs(table, fetched, o);
    response := Success(Summary(|fetched|, processed, failed));
  }

  /* ---------------------------------------------------------------------------- */
  /*  Properties                                                                   */
  /* ---------------------------------------------------------------------------- */

  /** Every email the runner inserts (the `DraftRow` of a successful `Outcome`) has a
      subject and a body ending with the fixed sign-off, and is the sales email for the
      job's language. */
  lemma InsertedEmailIsSigned(job: Job, content: string, lead: Lead)
    requires lead.email.Some?
    ensures var d := DraftRow(job, content, lead);
      && d.subject != [] && d.body != [] && Text.EndsWith(d.body, SalesEmail.SignOff)
      && SalesEmail.Email(d.subject, d.body) == SalesEmail.GenerateSalesEmail(Language(job.payload), content)
  {
    SalesEmail.EmailIsSigned(Language(job.payload), content);
  }

  /** After a run every fetched job is `done` or `failed`, `done` exactly when an email
      was inserted for it, and the jobs nobody fetched are untouched. */
  lemma SettledAfterRun(table: seq<Job>, fetched: seq<Job>, rs: seq<Result<Drafted>>, after: seq<Job>)
    requires |fetched| == |rs|
    requires Progress(table, fetched, rs, after, |fetched|)
    ensures forall k, i :: 0 <= k < |fetched| && 0 <= i < |table| && table[i].id == fetched[k].id ==>
      && (after[i].status == Done || after[i].status == JobFailed)
      && (after[i].status == Done <==> rs[k].Ok?)
      && after[i].payload == table[i].payload && after[i].leadId == table[i].leadId
  {
    forall k, i | 0 <= k < |fetched| && 0 <= i < |table| && table[i].id == fetched[k].id
      ensures after[i].status == Done || after[i].status == JobFailed
      ensures after[i].status == Done <==> rs[k].Ok?
      ensures after[i].payload == table[i].payload && after[i].leadId == table[i].leadId
    {
      var s := Settle(table[i], rs[k]);
      assert after[i] == s;
      assert s.(status := table[i].status, error := table[i].error) == table[i];
    }
  }

  /** A job whose lead has no email fails with that message, whatever the model says. */
  lemma NoEmailFails(job: Job, k: nat, o: Oracles, lead: Lead)
    requires o.leadError(k, job).None?
    requires job.leadId.Some? && FindLead(o.leads, job.leadId.value) == Some(lead)
    requires lead.email.None? || lead.email == Some("")
    ensures Outcome(job, k, o) == Err(NoEmail)
    ensures Settle(job, Outcome(job, k, o)) == job.(status := JobFailed, error := Some(NoEmail))
  {
  }

  /** The runner approves only a literal `true`, where the generic email handler approves
      any truthy value: a payload `autoApprove` of 1 gives a draft here. */
  lemma StrictApproval(job: Job, content: string, lead: Lead)
    requires job.payload.autoApprove == JNum(1) && lead.email.Some?
    ensures DraftRow(job, content, lead).status == Outbox.Draft
    ensures Truthy(job.payload.autoApprove)
  {
  }

  /** A job queued through `jobs/enqueue` without a language gets a Dutch email here:
      the endpoint fills in "nl" before the runner's "en" default can apply. */
  lemma EnqueuedDefaultIsDutch(p: Payload)
    requires !Truthy(p.language)
    ensures SalesEmail.Dutch(Language(Enqueue.NormalisePayload(p)))
    ensures !SalesEmail.Dutch(Language(p))
  {
  }
}
