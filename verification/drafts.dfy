/** The job processors: `processJob` routes a job by its type to the email generator or
    to the LinkedIn generator. Each cuts the model's reply down to its JSON part, reads it,
    falls back to defaults where the reply is unusable, and stores drafts. The model's
    reply, the JSON parser and the database reads and writes are inputs. */
module Drafts {
  import opened Wrappers
  import Seqs
  import opened Text
  import opened Json
  import opened Jobs
  import opened Leads
  import Outbox
  import Http

  /* ---------------------------------------------------------------------------- */
  /*  The JSON part of a reply                                                     */
  /* ---------------------------------------------------------------------------- */

  /** `raw` holds an `open` with a `close` somewhere after it. */
  predicate Encloses(raw: string, open: char, close: char) {
    exists i, j :: 0 <= i < j < |raw| && raw[i] == open && raw[j] == close
  }

  /** From the first `open` to the last `close`, both kept, when the last `close` comes
      after the first `open`; otherwise the whole reply. */
  function JsonSpan(raw: string, open: char, close: char): (span: string)
    ensures |span| <= |raw|
    ensures !Encloses(raw, open, close) ==> span == raw
    ensures Encloses(raw, open, close) ==>
      |span| >= 2 && span[0] == open && span[|span| - 1] == close
  {
    var start := IndexOf(raw, open);
    var end := LastIndexOf(raw, close);
    EnclosesByIndex(raw, open, close);
    if start >= 0 && end > start then
      raw[start..end + 1]
    else
      raw
  }

  /** An `open` precedes a `close` exactly when the first `open` precedes the last
      `close`. */
  lemma EnclosesByIndex(raw: string, open: char, close: char)
    ensures Encloses(raw, open, close) <==> IndexOf(raw, open) >= 0 && LastIndexOf(raw, close) > IndexOf(raw, open)
  {
    var start := IndexOf(raw, open);
    var end := LastIndexOf(raw, close);
    if Encloses(raw, open, close) {
      var i, j :| 0 <= i < j < |raw| && raw[i] == open && raw[j] == close;
      assert open in raw && close in raw;
    }
    if start >= 0 && end > start {
      assert raw[start] == open && raw[end] == close;
    }
  }

  /** The span finds JSON text wrapped in prose: with no `open` before it and no `close`
      after it, the text is exactly what is cut out. */
  lemma JsonSpanOfWrapped(before: string, json: string, after: string, open: char, close: char)
    requires open !in before && close !in after
    requires |json| >= 2 && json[0] == open && json[|json| - 1] == close
    ensures JsonSpan(before + json + after, open, close) == json
  {
    var raw := before + json + after;
    var start := |before|;
    var end := |before| + |json| - 1;
    assert raw[..start] == before;
    IndexOfAt(raw, open, start);
    assert raw[end + 1..] == after;
    LastIndexOfAt(raw, close, end);
    assert raw[start..end + 1] == json;
  }

  /** Cutting twice cuts nothing more. */
  lemma JsonSpanIdempotent(raw: string, open: char, close: char)
    ensures JsonSpan(JsonSpan(raw, open, close), open, close) == JsonSpan(raw, open, close)
  {
    var span := JsonSpan(raw, open, close);
    if Encloses(raw, open, close) {
      assert [] + span + [] == span;
      JsonSpanOfWrapped([], span, [], open, close);
    }
  }

  /** What `JSON.parse` returns, as far as the generators look at it: `null`, an object
      with its top-level fields, an array with its elements, or any other value. A parser
      input is a function to `Option<Doc>`, with `None` where the parse throws. */
  datatype Doc = DocNull | DocObject(fields: map<string, Value>) | DocArray(items: seq<Value>) | DocScalar

  /* ---------------------------------------------------------------------------- */
  /*  GENERATE_EMAIL                                                               */
  /* ---------------------------------------------------------------------------- */

  const DefaultSubject: string := "Quick AI contract check"
  /** What `callOpenAI` throws when the reply holds no text. */
  const NoReplyText: string := "OpenAI antwoord bevat geen tekst"
  /** What reading a field of a `null` parse result throws. */
  const NullParse: string := "Cannot read properties of null"
  /** What calling `trim` on a value that is not a string throws. */
  const NotAString: string := "trim is not a function"

  /** `callOpenAI`: the trimmed reply, or the error it throws (also for an empty reply). */
  function ReplyText(reply: Result<string>): (r: Result<string>)
    ensures reply.Err? ==> r == reply
    ensures reply.Ok? && reply.value == "" ==> r == Err(NoReplyText)
    ensures reply.Ok? && reply.value != "" ==> r == Ok(Trim(reply.value))
  {
    if reply.Err? then reply
    else if reply.value == "" then Err(NoReplyText)
    else Ok(Trim(reply.value))
  }

  /** A top-level field of a parse result that is not `null`: the field's value, or
      `undefined` (here `JNull`) when there is no such field. */
  function FieldValue(doc: Doc, key: string): (v: Value)
    ensures doc.DocObject? && key in doc.fields ==> v == doc.fields[key]
    ensures v != JNull ==> doc.DocObject? && key in doc.fields
  {
    if doc.DocObject? && key in doc.fields then doc.fields[key] else JNull
  }

  /** `v && v.trim().length > 0 ? v.trim() : fallback`: the trim of a string that is not
      all white space; the fallback for a falsy or blank value; an error for any other
      truthy value, which has no `trim`. */
  function TrimmedOr(v: Value, fallback: string): (r: Result<string>)
    ensures r.Err? <==> Truthy(v) && !v.JStr?
    ensures v.JStr? && Trim(v.s) != [] ==> r == Ok(Trim(v.s))
    ensures r.Ok? && !(v.JStr? && Trim(v.s) != []) ==> r.value == fallback
  {
    if !Truthy(v) then Ok(fallback)
    else if !v.JStr? then Err(NotAString)
    else if Trim(v.s) != [] then Ok(Trim(v.s))
    else Ok(fallback)
  }

  datatype SubjectBody = SubjectBody(subject: string, body: string)

  /** The subject and body read from the trimmed reply `raw`. An unparsable JSON part
      gives the default subject and the raw reply as body. */
  function EmailText(raw: string, parse: string -> Option<Doc>): (r: Result<SubjectBody>)
    ensures parse(JsonSpan(raw, '{', '}')).None? ==> r == Ok(SubjectBody(DefaultSubject, raw))
    ensures parse(JsonSpan(raw, '{', '}')) == Some(DocNull) ==> r == Err(NullParse)
    ensures r.Ok? ==> r.value.subject != [] && Trimmed(r.value.subject)
    ensures r.Ok? ==> r.value.body == raw || (r.value.body != [] && Trimmed(r.value.body))
  {
    match parse(JsonSpan(raw, '{', '}'))
    case None => Ok(SubjectBody(DefaultSubject, raw))
    case Some(DocNull) => Err(NullParse)
    case Some(doc) => DocText(doc, raw)
  }

  /** The subject and body read from a parse result that is not `null`. */
  function DocText(doc: Doc, raw: string): (r: Result<SubjectBody>)
    ensures r.Ok? ==> r.value.subject != [] && Trimmed(r.value.subject)
    ensures r.Ok? ==> r.value.body == raw || (r.value.body != [] && Trimmed(r.value.body))
  {
    var subject :- TrimmedOr(FieldValue(doc, "subject"), DefaultSubject);
    var body :- TrimmedOr(FieldValue(doc, "body"), raw);
    Ok(SubjectBody(subject, body))
  }

  /** A reply made of prose around one JSON object whose subject and body are
      non-blank strings gives back exactly their trims. */
  lemma EmailTextOfWrappedJson(
    before: string, json: string, after: string, parse: string -> Option<Doc>,
    fields: map<string, Value>, subject: string, body: string)
    requires '{' !in before && '}' !in after
    requires |json| >= 2 && json[0] == '{' && json[|json| - 1] == '}'
    requires parse(json) == Some(DocObject(fields))
    requires "subject" in fields && fields["subject"] == JStr(subject) && Trim(subject) != []
    requires "body" in fields && fields["body"] == JStr(body) && Trim(body) != []
    ensures EmailText(before + json + after, parse) == Ok(SubjectBody(Trim(subject), Trim(body)))
  {
    JsonSpanOfWrapped(before, json, after, '{', '}');
    DocTextOfObject(fields, before + json + after, subject, body);
  }

  /** An object with non-blank string subject and body gives exactly their trims. */
  lemma DocTextOfObject(fields: map<string, Value>, raw: string, subject: string, body: string)
    requires "subject" in fields && fields["subject"] == JStr(subject) && Trim(subject) != []
    requires "body" in fields && fields["body"] == JStr(body) && Trim(body) != []
    ensures DocText(DocObject(fields), raw) == Ok(SubjectBody(Trim(subject), Trim(body)))
  {
    var doc := DocObject(fields);
    assert FieldValue(doc, "subject") == JStr(subject);
    assert FieldValue(doc, "body") == JStr(body);
  }

  /** A row `GENERATE_EMAIL` adds to `email_outbox`. The sender column it writes is
      `sender_account_id`. */
  datatype EmailDraft = EmailDraft(
    leadId: string, toEmail: string, subject: string, body: string, status: string,
    senderAccountId: Option<string>)

  /** What the generators read from outside: the `leads` table (or the read's error),
      the model's reply (or the error of the call), the JSON parser, the ids of the
      active senders oldest first (none when the read fails), and the insert's error. */
  datatype World = World(
    leads: Result<seq<Lead>>,
    reply: Result<string>,
    parse: string -> Option<Doc>,
    senders: seq<string>,
    insertError: Option<string>)

  /** What a processed job stored: nothing, one email draft, or LinkedIn items. */
  datatype Effect = Nothing | EmailDrafted(draft: EmailDraft) | ContentDrafted(items: seq<ContentRow>)

  /** The job names a lead the read found, and that lead has an email address. */
  predicate LeadAddressed(job: Job, w: World) {
    && !Http.Missing(job.leadId)
    && w.leads.Ok?
    && FindLead(w.leads.value, job.leadId.value).Some?
    && !Http.Missing(FindLead(w.leads.value, job.leadId.value).value.email)
  }

  /** `handleGenerateEmail`. `Err` is a thrown error: the leads read's, the model call's,
      the reply reader's or the insert's, in that order. */
  function HandleGenerateEmail(job: Job, w: World): (r: Result<Effect>)
    ensures Http.Missing(job.leadId) ==> r == Ok(Nothing)
    ensures !Http.Missing(job.leadId) && w.leads.Err? ==> r == Err(w.leads.error)
    ensures LeadAddressed(job, w) && ReplyText(w.reply).Err? ==> r == Err(ReplyText(w.reply).error)
    ensures LeadAddressed(job, w) && ReplyText(w.reply).Ok? && EmailText(ReplyText(w.reply).value, w.parse).Err? ==>
      r == Err(EmailText(ReplyText(w.reply).value, w.parse).error)
    ensures LeadAddressed(job, w) && ReplyText(w.reply).Ok? && EmailText(ReplyText(w.reply).value, w.parse).Ok? ==>
      (if w.insertError.Some? then r == Err(w.insertError.value) else r.Ok? && r.value.EmailDrafted?)
    ensures r.Ok? && r.value.EmailDrafted? ==>
      var d := r.value.draft;
      && ReplyText(w.reply).Ok?
      && EmailText(ReplyText(w.reply).value, w.parse) == Ok(SubjectBody(d.subject, d.body))
    ensures r.Ok? ==> r.value.Nothing? || r.value.EmailDrafted?
    ensures r.Ok? && r.value.EmailDrafted? ==>
      var d := r.value.draft;
      && job.leadId == Some(d.leadId)
      && w.leads.Ok?
      && FindLead(w.leads.value, d.leadId).Some?
      && FindLead(w.leads.value, d.leadId).value.email == Some(d.toEmail) && d.toEmail != ""
      && (d.status == Outbox.Approved <==> Truthy(job.payload.autoApprove))
      && (d.status == Outbox.Draft <==> !Truthy(job.payload.autoApprove))
      && d.subject != [] && Trimmed(d.subject)
      && d.senderAccountId == (if |w.senders| > 0 then Some(w.senders[0]) else None)
      && w.insertError.None?
  {
    if Http.Missing(job.leadId) then Ok(Nothing)
    else if w.leads.Err? then Err(w.leads.error)
    else
      var lead := FindLead(w.leads.value, job.leadId.value);
      if lead.None? || Http.Missing(lead.value.email) then Ok(Nothing)
      else
        var raw :- ReplyText(w.reply);
        var text :- EmailText(raw, w.parse);
        var status := if Truthy(job.payload.autoApprove) then Outbox.Approved else Outbox.Draft;
        var sender := if |w.senders| > 0 then Some(w.senders[0]) else None;
        if w.insertError.Some? then Err(w.insertError.value)
        else Ok(EmailDrafted(EmailDraft(job.leadId.value, lead.value.email.value, text.subject, text.body, status, sender)))
  }

  /** A job whose lead is missing, or has no email, adds nothing whatever the reply. */
  lemma NoLeadNoDraft(job: Job, w: World)
    requires !Http.Missing(job.leadId) && w.leads.Ok?
    requires FindLead(w.leads.value, job.leadId.value).None?
          || Http.Missing(FindLead(w.leads.value, job.leadId.value).value.email)
    ensures HandleGenerateEmail(job, w) == Ok(Nothing)
  {
  }

  /* ---------------------------------------------------------------------------- */
  /*  GENERATE_LINKEDIN_POSTS / GENERATE_LINKEDIN_DMS                              */
  /* ---------------------------------------------------------------------------- */

  const DefaultCount: nat := 20
  const MaxCount: nat := 100

  /** The number of items asked of the model: the payload's `count` when it is a number
      in (0, 100], otherwise 20. It only shapes the prompt; the items are not cut to it. */
  function LinkedInCount(payload: Payload): (n: nat)
    ensures 0 < n <= MaxCount
    ensures payload.count.JNum? && 0 < payload.count.n <= MaxCount ==> n == payload.count.n
    ensures !(payload.count.JNum? && 0 < payload.count.n <= MaxCount) ==> n == DefaultCount
  {
    if payload.count.JNum? && 0 < payload.count.n <= MaxCount then payload.count.n else DefaultCount
  }

  /** A count already in range is kept as it is: feeding the result back gives it again. */
  lemma LinkedInCountStable(payload: Payload)
    ensures LinkedInCount(payload.(count := JNum(LinkedInCount(payload)))) == LinkedInCount(payload)
  {
  }

  /** `typeof x === "string" ? x.trim() : ""`. */
  function ItemText(v: Value): string {
    if v.JStr? then Trim(v.s) else ""
  }

  predicate NonEmpty(s: string) {
    s != ""
  }

  /** `x.map(...)` over a parsed array: each element's trimmed text. */
  function ItemTexts(xs: seq<Value>): (texts: seq<string>)
    ensures |texts| == |xs|
    ensures forall i :: 0 <= i < |xs| ==> texts[i] == ItemText(xs[i])
  {
    seq(|xs|, i requires 0 <= i < |xs| => ItemText(xs[i]))
  }

  /** `.filter(x => x.length > 0)` after the map: the non-empty texts, in array order. */
  function ArrayItems(xs: seq<Value>): (items: seq<string>)
    ensures |items| <= |xs|
    ensures forall k :: 0 <= k < |items| ==> items[k] != [] && Trimmed(items[k]) && items[k] in ItemTexts(xs)
  {
    Seqs.FilterMembers(ItemTexts(xs), NonEmpty);
    Seqs.Filter(ItemTexts(xs), NonEmpty)
  }

  /** The items read from the reply: the trimmed strings of a parsed array, blank ones and
      non-strings dropped; nothing from any other parsed value; the whole reply as one item
      when the parse throws and the reply is not blank. */
  function LinkedInItems(raw: string, parsed: Option<Doc>): (items: seq<string>)
    ensures forall k :: 0 <= k < |items| ==> items[k] != [] && Trimmed(items[k])
    ensures parsed.None? ==> items == if Trim(raw) != [] then [Trim(raw)] else []
    ensures parsed.Some? && !parsed.value.DocArray? ==> items == []
    ensures parsed.Some? && parsed.value.DocArray? ==> items == ArrayItems(parsed.value.items)
  {
    if parsed.None? then
      var t := Trim(raw);
      if t != [] then [t] else []
    else if parsed.value.DocArray? then ArrayItems(parsed.value.items)
    else []
  }

  /** An array of clean strings is stored item for item, in order. */
  lemma LinkedInItemsOfCleanArray(xs: seq<string>)
    requires forall i :: 0 <= i < |xs| ==> xs[i] != [] && Trimmed(xs[i])
    ensures ArrayItems(seq(|xs|, i requires 0 <= i < |xs| => JStr(xs[i]))) == xs
  {
    var vs := seq(|xs|, i requires 0 <= i < |xs| => JStr(xs[i]));
    var texts := ItemTexts(vs);
    forall i | 0 <= i < |xs|
      ensures texts[i] == xs[i]
    {
      TrimOfTrimmed(xs[i]);
    }
    assert texts == xs;
    FilterAllKept(xs);
  }

  /** Filtering out empty strings keeps a sequence without any. */
  lemma {:induction false} FilterAllKept(xs: seq<string>)
    requires forall i :: 0 <= i < |xs| ==> xs[i] != []
    ensures Seqs.Filter(xs, NonEmpty) == xs
  {
    if |xs| > 0 {
      FilterAllKept(xs[1..]);
      assert xs == [xs[0]] + xs[1..];
    }
  }

  /** A row of `linkedin_content`. */
  datatype ContentRow = ContentRow(kind: string, content: string, status: string)

  const Post: string := "post"
  const Dm: string := "dm"

  /** The items read from a usable reply. */
  function ReplyItems(w: World): seq<string>
    requires ReplyText(w.reply).Ok?
  {
    var raw := ReplyText(w.reply).value;
    LinkedInItems(raw, w.parse(JsonSpan(raw, '[', ']')))
  }

  /** `handleGenerateLinkedIn(job, kind)`. `Err` is a thrown error; an empty item list
      stores nothing. */
  function HandleGenerateLinkedIn(kind: string, w: World): (r: Result<Effect>)
    ensures ReplyText(w.reply).Err? ==> r == Err(ReplyText(w.reply).error)
    ensures r.Err? <==> ReplyText(w.reply).Err? || (ReplyItems(w) != [] && w.insertError.Some?)
    ensures ReplyText(w.reply).Ok? && ReplyItems(w) != [] && w.insertError.Some? ==> r == Err(w.insertError.value)
    ensures ReplyText(w.reply).Ok? && ReplyItems(w) != [] && w.insertError.None? ==> r.Ok? && r.value.ContentDrafted?
    ensures r.Ok? ==> r.value.Nothing? || r.value.ContentDrafted?
    ensures r.Ok? && r.value.ContentDrafted? ==>
      && w.reply.Ok?
      && var items := LinkedInItems(Trim(w.reply.value), w.parse(JsonSpan(Trim(w.reply.value), '[', ']')));
      && |r.value.items| == |items| > 0
      && forall k :: 0 <= k < |items| ==> r.value.items[k] == ContentRow(kind, items[k], Outbox.Draft)
    ensures r.Ok? && r.value.Nothing? ==>
      w.reply.Ok? && LinkedInItems(Trim(w.reply.value), w.parse(JsonSpan(Trim(w.reply.value), '[', ']'))) == []
  {
    var raw :- ReplyText(w.reply);
    StoreItems(kind, LinkedInItems(raw, w.parse(JsonSpan(raw, '[', ']'))), w.insertError)
  }

  /** The insert of the parsed items as drafts of `kind`, skipped when there are none. */
  function StoreItems(kind: string, items: seq<string>, insertError: Option<string>): (r: Result<Effect>)
    ensures r.Ok? ==> r.value.Nothing? || r.value.ContentDrafted?
    ensures r.Ok? && r.value.ContentDrafted? ==>
      && |r.value.items| == |items| > 0
      && forall k :: 0 <= k < |items| ==> r.value.items[k] == ContentRow(kind, items[k], Outbox.Draft)
    ensures r.Ok? && r.value.Nothing? ==> items == []
    ensures r.Err? <==> items != [] && insertError.Some?
  {
    if |items| == 0 then Ok(Nothing)
    else if insertError.Some? then Err(insertError.value)
    else Ok(ContentDrafted(seq(|items|, k requires 0 <= k < |items| => ContentRow(kind, items[k], Outbox.Draft))))
  }

  /* ---------------------------------------------------------------------------- */
  /*  processJob                                                                   */
  /* ---------------------------------------------------------------------------- */

  /** `processJob`: the three known job types go to their generators; any other type,
      including the `GENERATE_LINKEDIN_DM` the bulk lead import writes, does nothing. */
  function ProcessJob(job: Job, w: World): (r: Result<Effect>)
    ensures job.jobType != GenerateEmail && job.jobType != GenerateLinkedInPosts && job.jobType != GenerateLinkedInDms ==> r == Ok(Nothing)
    ensures job.jobType == GenerateEmail ==> r == HandleGenerateEmail(job, w)
    ensures job.jobType == GenerateLinkedInPosts ==> r == HandleGenerateLinkedIn(Post, w)
    ensures job.jobType == GenerateLinkedInDms ==> r == HandleGenerateLinkedIn(Dm, w)
    ensures r.Ok? && r.value.EmailDrafted? ==> job.jobType == GenerateEmail
    ensures r.Ok? && r.value.ContentDrafted? ==>
      && (job.jobType == GenerateLinkedInPosts || job.jobType == GenerateLinkedInDms)
      && forall k :: 0 <= k < |r.value.items| ==>
           r.value.items[k].kind == (if job.jobType == GenerateLinkedInPosts then Post else Dm)
  {
    if job.jobType == GenerateEmail then HandleGenerateEmail(job, w)
    else if job.jobType == GenerateLinkedInPosts then HandleGenerateLinkedIn(Post, w)
    else if job.jobType == GenerateLinkedInDms then HandleGenerateLinkedIn(Dm, w)
    else Ok(Nothing)
  }

  /** The DM jobs the bulk lead import queues are not routed: processing one stores
      nothing and raises nothing, whatever the world looks like. */
  lemma ImportedDmJobIsIgnored(job: Job, w: World)
    requires job.jobType == GenerateLinkedInDm
    ensures ProcessJob(job, w) == Ok(Nothing)
  {
  }
}
