/** The admin endpoints that write outbox rows directly: `email-status`,
    `email-bulk-status` and `email-update`. Request fields that are absent (or, where
    the handler checks `typeof`, not strings) are `None`. `verb` is the request's HTTP
    method, and `dbError` the error the database write reports, if any. */
module StatusApi {
  import opened Wrappers
  import opened Http
  import opened Outbox

  /** The statuses `email-status` accepts: neither `sent` nor `failed`. */
  const SingleStatuses: seq<string> := [Draft, Approved, Declined, Archived]

  /** The statuses `email-bulk-status` accepts: all six. */
  const BulkStatuses: seq<string> := [Draft, Approved, Sent, Failed, Declined, Archived]

  function StatusPatch(status: string, now: int): Patch {
    EmptyPatch.(status := Some(status), updatedAt := Some(now))
  }

  /** `email-status`: sets one row's status to a whitelisted value. The row's current
      status is not consulted, so any row may move to any accepted status. */
  function EmailStatus(
    verb: Method, outbox: seq<OutboxRow>, id: Option<string>, status: Option<string>,
    dbError: Option<string>, now: int)
    : (h: Handled<bool>)
    ensures !verb.Post? ==> h == Handled(MethodNotAllowed, outbox)
    ensures h.response.Success? <==>
      verb.Post? && !Missing(id) && !Missing(status) && status.value in SingleStatuses && dbError.None?
    ensures h.response.BadRequest? <==>
      verb.Post? && (Missing(id) || Missing(status) || status.value !in SingleStatuses)
    ensures !h.response.Success? ==> h.outbox == outbox
    ensures verb.Post? && (status == Some(Sent) || status == Some(Failed)) ==> h.response.BadRequest?
    ensures verb.Post? && !h.response.BadRequest? && dbError.Some? ==>
      h == Handled(ServerError(ErrorMessage(dbError.value)), outbox)
    ensures h.response.Success? ==>
      && |h.outbox| == |outbox|
      && forall i :: 0 <= i < |outbox| ==>
           h.outbox[i] == if outbox[i].id == id.value
                          then outbox[i].(status := status.value, updatedAt := Some(now))
                          else outbox[i]
  {
    if !verb.Post? then Handled(MethodNotAllowed, outbox)
    else if Missing(id) || Missing(status) then Handled(BadRequest("id en status verplicht"), outbox)
    else if status.value !in SingleStatuses then Handled(BadRequest("Ongeldige status"), outbox)
    else if dbError.Some? then Handled(ServerError(ErrorMessage(dbError.value)), outbox)
    else Handled(Success(true), UpdateWhere(outbox, {id.value}, StatusPatch(status.value, now)))
  }

  /** `email-bulk-status`: gives every listed id the same whitelisted status and reports
      how many ids were listed, whether or not a row has that id. `ids` is `None` when
      the request's `ids` is not an array. */
  function EmailBulkStatus(
    verb: Method, outbox: seq<OutboxRow>, ids: Option<seq<string>>, status: Option<string>,
    dbError: Option<string>, now: int)
    : (h: Handled<nat>)
    ensures !verb.Post? ==> h == Handled(MethodNotAllowed, outbox)
    ensures h.response.Success? <==>
      verb.Post? && ids.Some? && |ids.value| > 0 && !Missing(status) && status.value in BulkStatuses
      && dbError.None?
    ensures h.response.BadRequest? <==>
      verb.Post? && (ids.None? || |ids.value| == 0 || Missing(status) || status.value !in BulkStatuses)
    ensures !h.response.Success? ==> h.outbox == outbox
    ensures verb.Post? && !h.response.BadRequest? && dbError.Some? ==>
      h == Handled(ServerError(ErrorMessage(dbError.value)), outbox)
    ensures h.response.Success? ==>
      && h.response.body == |ids.value|
      && |h.outbox| == |outbox|
      && forall i :: 0 <= i < |outbox| ==>
           h.outbox[i] == if outbox[i].id in ids.value
                          then outbox[i].(status := status.value, updatedAt := Some(now))
                          else outbox[i]
  {
    if !verb.Post? then Handled(MethodNotAllowed, outbox)
    else if ids.None? || |ids.value| == 0 then Handled(BadRequest("No ids provided"), outbox)
    else if Missing(status) then Handled(BadRequest("No status provided"), outbox)
    else if status.value !in BulkStatuses then Handled(BadRequest("Invalid status"), outbox)
    else if dbError.Some? then Handled(ServerError(ErrorMessage(dbError.value)), outbox)
    else
      var idSet := set i | 0 <= i < |ids.value| :: ids.value[i];
      Handled(Success(|ids.value|), UpdateWhere(outbox, idSet, StatusPatch(status.value, now)))
  }

  /** The count `email-bulk-status` reports is the number of ids sent, not of rows
      changed: one unknown id still reports one update and changes nothing. */
  lemma BulkStatusCountsIds(outbox: seq<OutboxRow>, id: string, now: int)
    requires forall i :: 0 <= i < |outbox| ==> outbox[i].id != id
    ensures EmailBulkStatus(Post, outbox, Some([id]), Some(Sent), None, now) == Handled(Success(1), outbox)
  {
    var h := EmailBulkStatus(Post, outbox, Some([id]), Some(Sent), None, now);
    assert h.outbox == outbox;
  }

  /** The update record `email-update` builds: `updated_at` always, and each of subject,
      body and status only when given as a string. */
  function UpdateRecord(subject: Option<string>, body: Option<string>, status: Option<string>, now: int): Patch {
    EmptyPatch.(subject := subject, body := body, status := status, updatedAt := Some(now))
  }

  /** `email-update`: a partial update of one row, returning the updated row. The status
      is written as given, without any whitelist. Updating a missing row makes the
      `.single()` read-back fail; a failed write answers with the database's own
      message, not defaulted. */
  function EmailUpdate(
    verb: Method, outbox: seq<OutboxRow>, id: Option<string>,
    subject: Option<string>, body: Option<string>, status: Option<string>,
    dbError: Option<string>, now: int)
    : (h: Handled<OutboxRow>)
    requires UniqueIds(outbox)
    ensures !verb.Post? ==> h == Handled(MethodNotAllowed, outbox)
    ensures verb.Post? && Missing(id) ==> h == Handled(BadRequest("Missing id"), outbox)
    ensures verb.Post? && !Missing(id) && dbError.Some? ==> h == Handled(ServerError(dbError.value), outbox)
    ensures verb.Post? && !Missing(id) && dbError.None? && FindById(outbox, id.value).None? ==>
      h == Handled(ServerError(NoSingleRow), outbox)
    ensures verb.Post? && !Missing(id) && dbError.None? && FindById(outbox, id.value).Some? ==>
      var row := FindById(outbox, id.value).value;
      var updated := row.(subject := subject.GetOr(row.subject),
                          body := body.GetOr(row.body),
                          status := status.GetOr(row.status),
                          updatedAt := Some(now));
      && h.response == Success(updated)
      && |h.outbox| == |outbox|
      && forall i :: 0 <= i < |outbox| ==> h.outbox[i] == if outbox[i].id == id.value then updated else outbox[i]
  {
    if !verb.Post? then Handled(MethodNotAllowed, outbox)
    else if Missing(id) then Handled(BadRequest("Missing id"), outbox)
    else if dbError.Some? then Handled(ServerError(dbError.value), outbox)
    else
      var after := UpdateWhere(outbox, {id.value}, UpdateRecord(subject, body, status, now));
      match FindById(after, id.value)
      case None => Handled(ServerError(NoSingleRow), outbox)
      case Some(row) => Handled(Success(row), after)
  }
}
