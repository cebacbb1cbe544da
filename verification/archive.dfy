/** `email-archive-approved`: exports the approved rows as CSV and moves exactly those
    rows to `archived`. */
module Archive {
  import opened Wrappers
  import Seqs
  import Text
  import Csv
  import opened Http
  import opened Outbox
  import opened Leads

  /** At most this many approved rows are exported (and archived) per call. */
  const ExportLimit: nat := 5000

  const Header: seq<string> := ["name", "company", "to_email", "subject", "body", "created_at"]

  /** The header line: the column names joined by commas, without quotes. */
  const HeaderLine: string := "name,company,to_email,subject,body,created_at"

  predicate IsApproved(row: OutboxRow) {
    row.status == Approved
  }

  /** The exported rows: approved, newest first, at most `ExportLimit` of them. */
  function ExportRows(outbox: seq<OutboxRow>): (rows: seq<OutboxRow>)
    ensures |rows| == if Seqs.Count(outbox, IsApproved) < ExportLimit then Seqs.Count(outbox, IsApproved) else ExportLimit
    ensures |rows| == 0 <==> forall i :: 0 <= i < |outbox| ==> !IsApproved(outbox[i])
    ensures forall i :: 0 <= i < |rows| ==> IsApproved(rows[i]) && rows[i] in outbox
  {
    var approved := Seqs.Filter(outbox, IsApproved);
    Seqs.FilterMembers(outbox, IsApproved);
    var rows := Seqs.Take(Seqs.Reverse(approved), ExportLimit);
    assert forall i :: 0 <= i < |rows| ==> rows[i] in approved by {
      forall i | 0 <= i < |rows|
        ensures rows[i] in approved
      {
        assert rows[i] == approved[|approved| - 1 - i];
      }
    }
    rows
  }

  /** The export is the newest approved rows, newest first: there is a cut-off position
      such that the rows are exactly the approved rows after it, in reverse table order,
      and a cut-off past the start means the limit was reached. */
  lemma {:induction false} ExportIsNewestFirst(outbox: seq<OutboxRow>)
    ensures var c := Seqs.NewestCutoff(outbox, IsApproved, ExportLimit);
      && ExportRows(outbox) == Seqs.Reverse(Seqs.Filter(outbox[c..], IsApproved))
      && (c > 0 ==> |ExportRows(outbox)| == ExportLimit)
  {
    Seqs.TakeNewestFirst(outbox, IsApproved, ExportLimit);
  }

  /** `Array.from(new Set(ids.filter(Boolean)))`: the non-empty ids, each once, in the
      order they first appear. */
  function Dedup(ids: seq<string>): (r: seq<string>)
    ensures forall i, j :: 0 <= i < j < |r| ==> r[i] != r[j]
    ensures forall i :: 0 <= i < |r| ==> r[i] != "" && r[i] in ids
    ensures forall i :: 0 <= i < |ids| && ids[i] != "" ==> ids[i] in r
  {
    if |ids| == 0 then []
    else
      var init := ids[..|ids| - 1];
      var rest := Dedup(init);
      var last := ids[|ids| - 1];
      assert forall i :: 0 <= i < |ids| - 1 ==> ids[i] == init[i];
      if last == "" || last in rest then rest else rest + [last]
  }

  /** The lead id of an outbox row, with a null id read as "". */
  function LeadIdOf(row: OutboxRow): string {
    row.leadId.GetOr("")
  }

  /** The lead ids the export looks up: those of the exported rows, deduplicated. */
  function LeadIds(rows: seq<OutboxRow>): seq<string> {
    Dedup(seq(|rows|, i requires 0 <= i < |rows| => LeadIdOf(rows[i])))
  }

  /** The leads the export knows by id: the rows of `leads` the `.in("id", leadIds)`
      query returns, or none when there is nothing to look up or the read failed
      (`leads` is `None`). */
  function FetchedLeads(leadIds: seq<string>, leads: Option<seq<Lead>>): seq<Lead> {
    if |leadIds| == 0 || leads.None? then []
    else Seqs.Filter(leads.value, (l: Lead) => l.id != "" && l.id in leadIds)
  }

  /** `leadById[id]`: the last fetched lead with that id, since later rows overwrite. */
  function LeadById(fetched: seq<Lead>, id: string): (r: Option<Lead>)
    ensures r.Some? ==> r.value in fetched && r.value.id == id
    ensures r.None? ==> forall i :: 0 <= i < |fetched| ==> fetched[i].id != id
  {
    if |fetched| == 0 then None
    else if fetched[|fetched| - 1].id == id then Some(fetched[|fetched| - 1])
    else
      var r := LeadById(fetched[..|fetched| - 1], id);
      assert forall i :: 0 <= i < |fetched| - 1 ==> fetched[i] == fetched[..|fetched| - 1][i];
      r
  }

  /** The six exported values of a row: the lead's name and company (blank when the
      row has no lead or the lead was not found), then the row's own columns. */
  function ExportFields(row: OutboxRow, fetched: seq<Lead>): (fields: seq<string>)
    ensures |fields| == |Header|
  {
    var lead := if LeadIdOf(row) != "" then LeadById(fetched, LeadIdOf(row)) else None;
    var name := if lead.Some? then lead.value.name.GetOr("") else "";
    var company := if lead.Some? then lead.value.company.GetOr("") else "";
    [name, company, row.toEmail, row.subject, row.body, row.createdAt]
  }

  /** The ids of the exported rows, empty ones dropped: the rows to archive. */
  function ArchiveIds(rows: seq<OutboxRow>): seq<string> {
    var all := seq(|rows|, i requires 0 <= i < |rows| => rows[i].id);
    Seqs.Filter(all, (id: string) => id != "")
  }

  /** The JSON body of the response. The file name (a clock stamp) is not modelled. */
  datatype Export = Export(archived: nat, csv: string)

  /** `email-archive-approved`. The CSV is the header line followed by one line per
      exported row; read back with a CSV reader, the lines give each row's six values
      unchanged. Exactly the exported rows become `archived`, with nothing else written.
      `selectError` is the error of the read of the approved rows and `updateError`
      that of the archiving update; either one is a server error that writes nothing. */
  function ArchiveApproved(
    verb: Method, outbox: seq<OutboxRow>, leads: Option<seq<Lead>>,
    selectError: Option<string>, updateError: Option<string>)
    : (h: Handled<Export>)
    ensures !verb.Post? ==> h == Handled(MethodNotAllowed, outbox)
    ensures verb.Post? && selectError.Some? ==> h == Handled(ServerError(ErrorMessage(selectError.value)), outbox)
    ensures verb.Post? && selectError.None? && (forall i :: 0 <= i < |outbox| ==> !IsApproved(outbox[i])) ==>
      h == Handled(Success(Export(0, "")), outbox)
    ensures verb.Post? && selectError.None? && |ExportRows(outbox)| > 0 && updateError.Some? ==>
      h == Handled(ServerError(ErrorMessage(updateError.value)), outbox)
    ensures h.response.Success? <==> verb.Post? && selectError.None? && (|ExportRows(outbox)| == 0 || updateError.None?)
    ensures h.response.Success? && |ExportRows(outbox)| > 0 ==>
      var rows := ExportRows(outbox);
      var fetched := FetchedLeads(LeadIds(rows), leads);
      var records := seq(|rows|, i requires 0 <= i < |rows| => ExportFields(rows[i], fetched));
      var ids := ArchiveIds(rows);
      && h.response.Success?
      && h.response.body.archived == |ids| <= |rows|
      && h.response.body.csv == HeaderLine + "\n" + Csv.EncodeRecords(records)
      && Csv.ReadRecords(Csv.EncodeRecords(records)) == Some(records)
      && |h.outbox| == |outbox|
      && (forall i :: 0 <= i < |outbox| ==>
            h.outbox[i] == if outbox[i].id in ids then outbox[i].(status := Archived) else outbox[i])
  {
    if !verb.Post? then Handled(MethodNotAllowed, outbox)
    else if selectError.Some? then Handled(ServerError(ErrorMessage(selectError.value)), outbox)
    else
    var rows := ExportRows(outbox);
    if |rows| == 0 then Handled(Success(Export(0, "")), outbox)
    else
      var fetched := FetchedLeads(LeadIds(rows), leads);
      var records := seq(|rows|, i requires 0 <= i < |rows| => ExportFields(rows[i], fetched));
      Csv.RecordsRoundTrip(records);
      var ids := ArchiveIds(rows);
      if updateError.Some? then Handled(ServerError(ErrorMessage(updateError.value)), outbox)
      else Handled(Success(Export(|ids|, ExportCsv(records))), ArchiveWhere(outbox, ids))
  }

  /** The CSV text: the header line, then one encoded line per record. */
  function ExportCsv(records: seq<seq<string>>): (csv: string)
    ensures |records| > 0 ==> csv == HeaderLine + "\n" + Csv.EncodeRecords(records)
    ensures |records| == 0 ==> csv == HeaderLine
  {
    var lines := seq(|records|, i requires 0 <= i < |records| => Csv.EncodeRecord(records[i]));
    assert ([HeaderLine] + lines)[1..] == lines;
    Text.Join([HeaderLine] + lines, "\n")
  }

  /** `.update({ status: "archived" }).in("id", ids)`: the rows with those ids become
      archived, the others stay as they were. */
  function ArchiveWhere(outbox: seq<OutboxRow>, ids: seq<string>): (r: seq<OutboxRow>)
    ensures |r| == |outbox|
    ensures forall i :: 0 <= i < |outbox| ==>
      r[i] == if outbox[i].id in ids then outbox[i].(status := Archived) else outbox[i]
  {
    var idSet := set i | 0 <= i < |ids| :: ids[i];
    assert forall id :: id in idSet <==> id in ids;
    UpdateWhere(outbox, idSet, EmptyPatch.(status := Some(Archived)))
  }
}
