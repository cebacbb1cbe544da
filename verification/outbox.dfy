/** The `email_outbox` table: its rows, the partial-update records the endpoints
    write, and the eligibility rule of the send queue. The table is a sequence in
    `created_at` order, oldest first, whose ids are unique (the primary key). */
module Outbox {
  import opened Wrappers
  import Seqs
  import Http

  const Draft: string := "draft"
  const Approved: string := "approved"
  const Sent: string := "sent"
  const Failed: string := "failed"
  const Declined: string := "declined"
  const Archived: string := "archived"

  /** A row of `email_outbox`. `status` is a text column: nothing in the table itself
      restricts it to the six values above. Null text columns are written as "". */
  datatype OutboxRow = OutboxRow(
    id: string,
    leadId: Option<string>,
    toEmail: string,
    subject: string,
    body: string,
    status: string,
    senderId: Option<string>,
    sentAt: Option<int>,
    error: Option<string>,
    createdAt: string,
    updatedAt: Option<int>)

  /** An API handler's response together with the outbox table it leaves behind. */
  datatype Handled<T> = Handled(response: Http.Response<T>, outbox: seq<OutboxRow>)

  /** A partial update record: each present field overwrites its column. */
  datatype Patch = Patch(
    status: Option<string>,
    subject: Option<string>,
    body: Option<string>,
    senderId: Option<string>,
    sentAt: Option<int>,
    error: Option<string>,
    updatedAt: Option<int>)

  const EmptyPatch: Patch := Patch(None, None, None, None, None, None, None)

  function Over<T>(current: T, update: Option<T>): T {
    if update.Some? then update.value else current
  }

  /** The row after a patch: the columns the patch names take its values. */
  function Apply(row: OutboxRow, p: Patch): OutboxRow {
    row.(status := Over(row.status, p.status),
         subject := Over(row.subject, p.subject),
         body := Over(row.body, p.body),
         senderId := if p.senderId.Some? then p.senderId else row.senderId,
         sentAt := if p.sentAt.Some? then p.sentAt else row.sentAt,
         error := if p.error.Some? then p.error else row.error,
         updatedAt := if p.updatedAt.Some? then p.updatedAt else row.updatedAt)
  }

  /** The primary key: no two rows share an id. */
  predicate UniqueIds(rows: seq<OutboxRow>) {
    forall i, j :: 0 <= i < j < |rows| ==> rows[i].id != rows[j].id
  }

  /** `.update(p).in("id", ids)`: every row whose id is listed takes the patch. */
  function UpdateWhere(rows: seq<OutboxRow>, ids: set<string>, p: Patch): (r: seq<OutboxRow>)
    ensures |r| == |rows|
    ensures forall i :: 0 <= i < |rows| ==> r[i] == if rows[i].id in ids then Apply(rows[i], p) else rows[i]
  {
    seq(|rows|, i requires 0 <= i < |rows| => if rows[i].id in ids then Apply(rows[i], p) else rows[i])
  }

  /** An update keeps every row's id, so the primary key still holds. */
  lemma UpdateKeepsIds(rows: seq<OutboxRow>, ids: set<string>, p: Patch)
    requires UniqueIds(rows)
    ensures UniqueIds(UpdateWhere(rows, ids, p))
  {
  }

  /** The error a `.single()` read reports when no row matches. */
  const NoSingleRow: string := "JSON object requested, multiple (or no) rows returned"

  /** The row with the given id, if any. */
  function FindById(rows: seq<OutboxRow>, id: string): (r: Option<OutboxRow>)
    ensures r.Some? ==> r.value in rows && r.value.id == id
    ensures r.None? ==> forall i :: 0 <= i < |rows| ==> rows[i].id != id
  {
    if |rows| == 0 then None
    else if rows[0].id == id then Some(rows[0])
    else FindById(rows[1..], id)
  }

  /** A row the send queue may pick: approved and not yet given a sender. */
  predicate Eligible(row: OutboxRow) {
    row.status == Approved && row.senderId.None?
  }

  /** The ids of a sequence of rows. */
  function IdsOf(rows: seq<OutboxRow>): (ids: set<string>)
    ensures forall i :: 0 <= i < |rows| ==> rows[i].id in ids
    ensures forall x :: x in ids ==> exists i :: 0 <= i < |rows| && rows[i].id == x
  {
    set i | 0 <= i < |rows| :: rows[i].id
  }

  /** A filtered table still has unique ids. */
  lemma {:induction false} FilterKeepsUniqueIds(rows: seq<OutboxRow>, p: OutboxRow -> bool)
    requires UniqueIds(rows)
    ensures UniqueIds(Seqs.Filter(rows, p))
  {
    if |rows| > 0 {
      FilterKeepsUniqueIds(rows[1..], p);
      Seqs.FilterMembers(rows[1..], p);
      var rest := Seqs.Filter(rows[1..], p);
      forall j | 0 <= j < |rest|
        ensures rest[j].id != rows[0].id
      {
        assert rest[j] in rows[1..];
      }
    }
  }
}
