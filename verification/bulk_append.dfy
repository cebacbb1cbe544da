/** `email-bulk-append`: appends one trimmed paragraph to the body of many outbox
    rows, leaving every other column except `updated_at` alone. */
module BulkAppend {
  import opened Wrappers
  import Seqs
  import opened Text
  import opened Http
  import opened Outbox

  /** At most this many rows are read back and updated per call. */
  const FetchLimit: nat := 5000

  const NoIds: string := "No ids provided"
  const NoText: string := "appendText is required"

  /** The paragraph separator put between the old body and the appended text. */
  const Separator: string := "\n\n"

  /** The new body: the trimmed current body, a blank line and the text, or the text
      alone when the current body is blank. */
  function AppendBody(current: string, text: string): (r: string)
    ensures EndsWith(r, text)
    ensures Trim(current) == [] ==> r == text
    ensures Trim(current) != [] ==> StartsWith(r, Trim(current) + Separator)
    ensures |r| == if Trim(current) == [] then |text| else |Trim(current)| + 2 + |text|
  {
    var base := Trim(current);
    if |base| > 0 then base + Separator + text else text
  }

  /** Appending a trimmed, non-blank text leaves a trimmed, non-blank body ending in it. */
  lemma AppendedIsTrimmed(current: string, text: string)
    requires text != [] && Trim(text) == text
    ensures AppendBody(current, text) != []
    ensures Trim(AppendBody(current, text)) == AppendBody(current, text)
  {
    var r := AppendBody(current, text);
    var base := Trim(current);
    assert !IsSpace(text[0]) && !IsSpace(text[|text| - 1]);
    if |base| > 0 {
      assert r[0] == base[0];
      assert r[|r| - 1] == text[|text| - 1];
    }
    TrimOfTrimmed(r);
  }

  /** Two appends in a row stack their paragraphs: the second one is added after the
      first without touching it. */
  lemma AppendTwice(current: string, a: string, b: string)
    requires a != [] && Trim(a) == a
    ensures AppendBody(AppendBody(current, a), b) == AppendBody(current, a) + Separator + b
  {
    AppendedIsTrimmed(current, a);
  }

  /** Taking the appended text back off the end gives the trimmed current body (with
      its separator, when it was not blank). */
  lemma AppendBodyInverse(current: string, text: string)
    ensures var r := AppendBody(current, text);
      r[..|r| - |text|] == if Trim(current) == [] then "" else Trim(current) + Separator
  {
  }

  /** The rows `.in("id", ids).limit(5000)` returns, in table order. */
  function FoundRows(outbox: seq<OutboxRow>, ids: seq<string>): (rows: seq<OutboxRow>)
    ensures |rows| <= FetchLimit
    ensures |rows| == if Seqs.Count(outbox, (row: OutboxRow) => row.id in ids) < FetchLimit
                      then Seqs.Count(outbox, (row: OutboxRow) => row.id in ids) else FetchLimit
    ensures forall i :: 0 <= i < |rows| ==> rows[i].id in ids && rows[i] in outbox
  {
    Seqs.FilterMembers(outbox, (row: OutboxRow) => row.id in ids);
    Seqs.Take(Seqs.Filter(outbox, (row: OutboxRow) => row.id in ids), FetchLimit)
  }

  /** The error of the first found row whose own update failed, if any. */
  function FailedUpdate(found: seq<OutboxRow>, updateError: string -> Option<string>): (e: Option<string>)
    ensures e.None? <==> forall k :: 0 <= k < |found| ==> updateError(found[k].id).None?
    ensures e.Some? ==> exists k :: 0 <= k < |found| && updateError(found[k].id) == e
  {
    if |found| == 0 then None
    else if updateError(found[0].id).Some? then updateError(found[0].id)
    else
      var e := FailedUpdate(found[1..], updateError);
      assert forall k :: 1 <= k < |found| ==> found[k] == found[1..][k - 1];
      e
  }

  /** A request the handler goes on to serve: a non-empty id list and a non-blank text. */
  predicate WellFormed(ids: Option<seq<string>>, appendText: Option<string>) {
    ids.Some? && |ids.value| > 0 && appendText.Some? && Trim(appendText.value) != []
  }

  /** `email-bulk-append`. `ids` is `None` when the request's `ids` is not an array,
      `appendText` when it is not a string. `selectError` is the error of the read of
      the current bodies and `updateError(id)` that of the update of row `id`. The
      per-row updates all run: each one that succeeds is written even when another
      fails, and a failure then makes the answer a server error. The reported count
      is the number of rows found, not the number of ids given. */
  function EmailBulkAppend(
    verb: Method, outbox: seq<OutboxRow>, ids: Option<seq<string>>, appendText: Option<string>,
    selectError: Option<string>, updateError: string -> Option<string>, now: int)
    : (h: Handled<nat>)
    ensures !verb.Post? ==> h == Handled(MethodNotAllowed, outbox)
    ensures verb.Post? && (ids.None? || |ids.value| == 0) ==> h == Handled(BadRequest(NoIds), outbox)
    ensures verb.Post? && ids.Some? && |ids.value| > 0 && (appendText.None? || Trim(appendText.value) == []) ==>
      h == Handled(BadRequest(NoText), outbox)
    ensures verb.Post? && WellFormed(ids, appendText) && selectError.Some? ==>
      h == Handled(ServerError(ErrorMessage(selectError.value)), outbox)
    ensures h.response.Success? <==>
      && verb.Post? && WellFormed(ids, appendText) && selectError.None?
      && forall k :: 0 <= k < |FoundRows(outbox, ids.value)| ==> updateError(FoundRows(outbox, ids.value)[k].id).None?
    ensures h.response.Success? ==> h.response.body == |FoundRows(outbox, ids.value)|
    ensures verb.Post? && WellFormed(ids, appendText) && selectError.None? ==>
      var found := FoundRows(outbox, ids.value);
      var foundIds := IdsOf(found);
      var text := Trim(appendText.value);
      && (h.response.Success? || h.response == ServerError(ErrorMessage(FailedUpdate(found, updateError).value)))
      && |h.outbox| == |outbox|
      && forall i :: 0 <= i < |outbox| ==>
           h.outbox[i] == if outbox[i].id in foundIds && updateError(outbox[i].id).None?
                          then outbox[i].(body := AppendBody(outbox[i].body, text), updatedAt := Some(now))
                          else outbox[i]
  {
    if !verb.Post? then Handled(MethodNotAllowed, outbox)
    else if ids.None? || |ids.value| == 0 then Handled(BadRequest(NoIds), outbox)
    else if appendText.None? || Trim(appendText.value) == [] then Handled(BadRequest(NoText), outbox)
    else if selectError.Some? then Handled(ServerError(ErrorMessage(selectError.value)), outbox)
    else
      var text := Trim(appendText.value);
      var found := FoundRows(outbox, ids.value);
      var foundIds := IdsOf(found);
      var after := seq(|outbox|, i requires 0 <= i < |outbox| =>
        if outbox[i].id in foundIds && updateError(outbox[i].id).None?
        then outbox[i].(body := AppendBody(outbox[i].body, text), updatedAt := Some(now))
        else outbox[i]);
      match FailedUpdate(found, updateError)
      case Some(e) => Handled(ServerError(ErrorMessage(e)), after)
      case None => Handled(Success(|found|), after)
  }

  /** Every row the append touches ends with the trimmed text, and its subject, status
      and sender are those it had. */
  lemma AppendTouchesOnlyBody(
    outbox: seq<OutboxRow>, ids: seq<string>, appendText: string,
    updateError: string -> Option<string>, now: int, i: nat)
    requires |ids| > 0 && Trim(appendText) != []
    requires i < |outbox|
    ensures var h := EmailBulkAppend(Post, outbox, Some(ids), Some(appendText), None, updateError, now);
      && h.outbox[i].subject == outbox[i].subject
      && h.outbox[i].status == outbox[i].status
      && h.outbox[i].senderId == outbox[i].senderId
      && (h.outbox[i] != outbox[i] ==> EndsWith(h.outbox[i].body, Trim(appendText)) && outbox[i].id in ids)
  {
    var h := EmailBulkAppend(Post, outbox, Some(ids), Some(appendText), None, updateError, now);
    var found := FoundRows(outbox, ids);
    var text := Trim(appendText);
    assert WellFormed(Some(ids), Some(appendText));
    if outbox[i].id in IdsOf(found) && updateError(outbox[i].id).None? {
      assert h.outbox[i] == outbox[i].(body := AppendBody(outbox[i].body, text), updatedAt := Some(now));
      var k :| 0 <= k < |found| && found[k].id == outbox[i].id;
      assert found[k].id in ids;
    } else {
      assert h.outbox[i] == outbox[i];
    }
  }
}
