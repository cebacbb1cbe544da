/** Sending approved outbox rows through the chosen sender account:
    `sendApprovedBatchOnce` and `sendSingleOutboxEmailNow`. */
module Dispatch {
  import opened Wrappers
  import Seqs
  import opened Outbox
  import opened Warmup

  /** What the SMTP transport reports for one message. The transport is an oracle:
      any outcome is possible for any message. */
  datatype Delivery = Delivered | Rejected(reason: string)

  /** The summary a send run returns. */
  datatype SendOutcome =
    | NoCapacity
    | LimitReached
    | Dispatched(sent: nat, from: string, remaining: int)

  /** `Math.max(0, Math.min(maxBatch, limit - used))`: how many rows this run may send. */
  function BatchSize(slot: Slot, maxBatch: int): (n: nat)
    ensures n <= slot.limit - slot.used || n == 0
    ensures n <= maxBatch || n == 0
    ensures n == 0 <==> maxBatch <= 0 || slot.limit - slot.used <= 0
  {
    var remaining := slot.limit - slot.used;
    var m := if maxBatch < remaining then maxBatch else remaining;
    if m < 0 then 0 else m
  }

  /** The rows one run picks: approved, without sender, oldest first, at most `toSend`. */
  function SelectBatch(outbox: seq<OutboxRow>, toSend: nat): (batch: seq<OutboxRow>)
    ensures |batch| <= toSend
    ensures |batch| == if Seqs.Count(outbox, Eligible) < toSend then Seqs.Count(outbox, Eligible) else toSend
    ensures forall k :: 0 <= k < |batch| ==> Eligible(batch[k])
  {
    Seqs.Take(Seqs.Filter(outbox, Eligible), toSend)
  }

  /** The picked rows are eligible, at most `toSend` of them, with unique ids; an
      eligible row is picked exactly when it is older than the FIFO cutoff. */
  lemma SelectBatchIsOldestEligible(outbox: seq<OutboxRow>, toSend: nat)
    requires UniqueIds(outbox)
    ensures var drafts := SelectBatch(outbox, toSend);
      && |drafts| <= toSend
      && UniqueIds(drafts)
      && (forall k :: 0 <= k < |drafts| ==> Eligible(drafts[k]) && drafts[k] in outbox)
      && (forall i :: 0 <= i < |outbox| && Eligible(outbox[i]) ==>
            (outbox[i].id in IdsOf(drafts) <==> i < Seqs.FifoCutoff(outbox, Eligible, toSend)))
  {
    var drafts := SelectBatch(outbox, toSend);
    var all := Seqs.Filter(outbox, Eligible);
    var m := Seqs.FifoCutoff(outbox, Eligible, toSend);
    FilterKeepsUniqueIds(outbox, Eligible);
    Seqs.FilterMembers(outbox, Eligible);
    assert forall k :: 0 <= k < |drafts| ==> drafts[k] == all[k];
    Seqs.TakeFilterIsOldest(outbox, Eligible, toSend);
    assert drafts == Seqs.Filter(outbox[..m], Eligible);
    PickedIffBeforeCutoff(outbox, m, drafts);
  }

  /** With unique ids, an eligible row's id is among the rows kept from the first `m`
      exactly when the row is one of those `m`. */
  lemma PickedIffBeforeCutoff(outbox: seq<OutboxRow>, m: nat, drafts: seq<OutboxRow>)
    requires UniqueIds(outbox) && m <= |outbox|
    requires drafts == Seqs.Filter(outbox[..m], Eligible)
    ensures forall i :: 0 <= i < |outbox| && Eligible(outbox[i]) ==>
      (outbox[i].id in IdsOf(drafts) <==> i < m)
  {
    var front := outbox[..m];
    Seqs.FilterMembers(front, Eligible);
    forall i | 0 <= i < |outbox| && Eligible(outbox[i])
      ensures outbox[i].id in IdsOf(drafts) <==> i < m
    {
      if i < m {
        assert front[i] == outbox[i];
      }
      if outbox[i].id in IdsOf(drafts) {
        var k :| 0 <= k < |drafts| && drafts[k].id == outbox[i].id;
        assert drafts[k] in front;
        var j :| 0 <= j < m && front[j] == drafts[k];
        assert outbox[j].id == outbox[i].id;
      }
    }
  }

  /** The columns a send attempt writes: on success `sent` with `sent_at`, on failure
      `failed` with the error; the sender id in both cases. */
  function OutcomePatch(d: Delivery, accountId: string, now: int): Patch {
    match d
    case Delivered => Patch(Some(Sent), None, None, Some(accountId), Some(now), None, Some(now))
    case Rejected(reason) => Patch(Some(Failed), None, None, Some(accountId), None, Some(reason), Some(now))
  }

  /** A row after its send attempt. */
  function Stamp(row: OutboxRow, d: Delivery, accountId: string, now: int): OutboxRow {
    Apply(row, OutcomePatch(d, accountId, now))
  }

  /** A stamped row carries the account, has left the queue, and records the outcome;
      the message itself is untouched. */
  lemma StampRecordsOutcome(row: OutboxRow, d: Delivery, accountId: string, now: int)
    ensures var r := Stamp(row, d, accountId, now);
      && r.id == row.id && r.senderId == Some(accountId) && !Eligible(r)
      && (d.Delivered? ==> r.status == Sent && r.sentAt == Some(now))
      && (d.Rejected? ==> r.status == Failed && r.error == Some(d.reason))
      && r.toEmail == row.toEmail && r.subject == row.subject && r.body == row.body
  {
  }

  /** How many of the first `n` attempts the transport accepted. */
  function DeliveredCount(drafts: seq<OutboxRow>, transport: (nat, OutboxRow) -> Delivery, n: nat): (c: nat)
    requires n <= |drafts|
    ensures c <= n
  {
    if n == 0 then 0
    else DeliveredCount(drafts, transport, n - 1) + (if transport(n - 1, drafts[n - 1]).Delivered? then 1 else 0)
  }

  /** The table after the first `n` rows of a batch have been attempted: each of them
      carries its stamp, every other row is as it was. */
  predicate Progress(
    outbox: seq<OutboxRow>, drafts: seq<OutboxRow>, t: seq<OutboxRow>, n: nat,
    transport: (nat, OutboxRow) -> Delivery, accountId: string, now: int)
    requires n <= |drafts|
  {
    && |t| == |outbox|
    && (forall i :: 0 <= i < |t| ==> t[i].id == outbox[i].id)
    && (forall i :: 0 <= i < |outbox| && outbox[i].id !in IdsOf(drafts[..n]) ==> t[i] == outbox[i])
    && (forall k, i :: 0 <= k < n && 0 <= i < |outbox| && outbox[i].id == drafts[k].id ==>
          t[i] == Stamp(outbox[i], transport(k, drafts[k]), accountId, now))
  }

  /** Recording the `n`-th attempt on its row extends the progress by one row. */
  lemma RecordAttempt(
    outbox: seq<OutboxRow>, drafts: seq<OutboxRow>, t: seq<OutboxRow>, n: nat,
    transport: (nat, OutboxRow) -> Delivery, accountId: string, now: int)
    requires UniqueIds(drafts) && n < |drafts|
    requires Progress(outbox, drafts, t, n, transport, accountId, now)
    ensures Progress(outbox, drafts,
      UpdateWhere(t, {drafts[n].id}, OutcomePatch(transport(n, drafts[n]), accountId, now)),
      n + 1, transport, accountId, now)
  {
    assert IdsOf(drafts[..n + 1]) == IdsOf(drafts[..n]) + {drafts[n].id} by {
      assert drafts[..n + 1] == drafts[..n] + [drafts[n]];
    }
    assert drafts[n].id !in IdsOf(drafts[..n]);
  }

  /** The loop of `sendApprovedBatchOnce`: one transport call per picked row, each
      outcome written to that row, whatever the earlier outcomes were. */
  method SendEach(
    outbox: seq<OutboxRow>, drafts: seq<OutboxRow>,
    transport: (nat, OutboxRow) -> Delivery, accountId: string, now: int)
    returns (after: seq<OutboxRow>, sentCount: nat)
    requires UniqueIds(drafts)
    ensures sentCount == DeliveredCount(drafts, transport, |drafts|)
    ensures |after| == |outbox|
    ensures forall i :: 0 <= i < |outbox| && outbox[i].id !in IdsOf(drafts) ==> after[i] == outbox[i]
    ensures forall k, i :: 0 <= k < |drafts| && 0 <= i < |outbox| && outbox[i].id == drafts[k].id ==>
      after[i] == Stamp(outbox[i], transport(k, drafts[k]), accountId, now)
  {
    after := outbox;
    sentCount := 0;
    var n := 0;
    assert drafts[..0] == [];
    while n < |drafts|
      invariant 0 <= n <= |drafts|
      invariant sentCount == DeliveredCount(drafts, transport, n)
      invariant Progress(outbox, drafts, after, n, transport, accountId, now)
    {
      var d := transport(n, drafts[n]);
      RecordAttempt(outbox, drafts, after, n, transport, accountId, now);
      after := UpdateWhere(after, {drafts[n].id}, OutcomePatch(d, accountId, now));
      sentCount := sentCount + if d.Delivered? then 1 else 0;
      n := n + 1;
    }
    ProgressDone(outbox, drafts, after, transport, accountId, now);
  }

  /** Once every row of the batch has been attempted, the progress covers the batch. */
  lemma ProgressDone(
    outbox: seq<OutboxRow>, drafts: seq<OutboxRow>, t: seq<OutboxRow>,
    transport: (nat, OutboxRow) -> Delivery, accountId: string, now: int)
    requires Progress(outbox, drafts, t, |drafts|, transport, accountId, now)
    ensures |t| == |outbox|
    ensures forall i :: 0 <= i < |outbox| && outbox[i].id !in IdsOf(drafts) ==> t[i] == outbox[i]
    ensures forall k, i :: 0 <= k < |drafts| && 0 <= i < |outbox| && outbox[i].id == drafts[k].id ==>
      t[i] == Stamp(outbox[i], transport(k, drafts[k]), accountId, now)
  {
    assert drafts[..|drafts|] == drafts;
  }

  /** `sendApprovedBatchOnce`: takes the sender slot `pickSenderForToday` produced (or
      the error it threw), sizes the batch, picks the oldest eligible rows and sends
      each one. The `k`-th attempt's outcome is `transport(k, row)`; every attempt is
      recorded on its row, and a failure does not stop the rows after it. */
  method SendApprovedBatchOnce(
    pick: Result<Option<Slot>>,
    outbox: seq<OutboxRow>,
    maxBatch: int,
    transport: (nat, OutboxRow) -> Delivery,
    now: int)
    returns (r: Result<SendOutcome>, after: seq<OutboxRow>)
    requires UniqueIds(outbox)
    ensures pick.Err? ==> r == Err(pick.error) && after == outbox
    ensures pick == Ok(None) ==> r == Ok(NoCapacity) && after == outbox
    ensures pick.Ok? && pick.value.Some? && BatchSize(pick.value.value, maxBatch) == 0 ==>
      r == Ok(LimitReached) && after == outbox
    ensures pick.Ok? && pick.value.Some? && BatchSize(pick.value.value, maxBatch) > 0 ==>
      var slot := pick.value.value;
      var drafts := SelectBatch(outbox, BatchSize(slot, maxBatch));
      && r.Ok? && r.value.Dispatched?
      && r.value.from == slot.account.email
      && r.value.sent == DeliveredCount(drafts, transport, |drafts|)
      && r.value.sent <= |drafts| <= BatchSize(slot, maxBatch)
      && r.value.remaining == (slot.limit - slot.used) - r.value.sent
      && |after| == |outbox|
      && (forall i :: 0 <= i < |outbox| && outbox[i].id !in IdsOf(drafts) ==> after[i] == outbox[i])
      && (forall k, i :: 0 <= k < |drafts| && 0 <= i < |outbox| && outbox[i].id == drafts[k].id ==>
            after[i] == Stamp(outbox[i], transport(k, drafts[k]), slot.account.id, now))
      && (forall i :: 0 <= i < |outbox| && outbox[i].id in IdsOf(drafts) ==>
            && after[i].senderId == Some(slot.account.id)
            && ((after[i].status == Sent && after[i].sentAt == Some(now))
                || (after[i].status == Failed && after[i].error.Some?)))
  {
    if pick.Err? {
      return Err(pick.error), outbox;
    }
    if pick.value.None? {
      return Ok(NoCapacity), outbox;
    }
    var slot := pick.value.value;
    var remaining := slot.limit - slot.used;
    var toSend := BatchSize(slot, maxBatch);
    if toSend <= 0 {
      return Ok(LimitReached), outbox;
    }
    var drafts := SelectBatch(outbox, toSend);
    SelectBatchIsOldestEligible(outbox, toSend);
    var sentCount;
    after, sentCount := SendEach(outbox, drafts, transport, slot.account.id, now);
    forall i | 0 <= i < |outbox| && outbox[i].id in IdsOf(drafts)
      ensures after[i].senderId == Some(slot.account.id)
      ensures (after[i].status == Sent && after[i].sentAt == Some(now))
        || (after[i].status == Failed && after[i].error.Some?)
    {
      var k :| 0 <= k < |drafts| && drafts[k].id == outbox[i].id;
      StampRecordsOutcome(outbox[i], transport(k, drafts[k]), slot.account.id, now);
    }
    r := Ok(Dispatched(sentCount, slot.account.email, remaining - sentCount));
  }

  /** A slot `pickSenderForToday` returns always has room, so with a positive batch cap
      the batch run never reports `LimitReached`. */
  lemma PickedSlotHasBatchRoom(days: seq<AccountDay>, maxBatch: int)
    requires maxBatch > 0
    ensures var pick := PickSenderForToday(days);
      pick.Ok? && pick.value.Some? ==> BatchSize(pick.value.value, maxBatch) > 0
  {
  }

  const NotApproved: string := "Email must be approved before sending"

  /** The table after a run, with the run's summary. */
  datatype SendRun = SendRun(outcome: SendOutcome, outbox: seq<OutboxRow>)

  /** `sendSingleOutboxEmailNow`: the limit is checked before the row is read, the
      row must exist (a missing row makes the `.single()` read fail, so its own
      "Email not found" check is never reached) and be approved, and only then is the transport called. A
      transport failure is thrown (and leaves the row as it was); success marks the
      row sent by the slot's account, keeping its address, subject, body and error. */
  function SendSingleOutboxEmailNow(
    pick: Result<Option<Slot>>,
    outbox: seq<OutboxRow>,
    outboxId: string,
    delivery: Delivery,
    now: int): (r: Result<SendRun>)
    requires UniqueIds(outbox)
    ensures pick.Err? ==> r == Err(pick.error)
    ensures pick == Ok(None) ==> r == Ok(SendRun(NoCapacity, outbox))
    ensures pick.Ok? && pick.value.Some? && pick.value.value.used >= pick.value.value.limit ==>
      r == Ok(SendRun(LimitReached, outbox))
    ensures pick.Ok? && pick.value.Some? && pick.value.value.used < pick.value.value.limit ==>
      && (FindById(outbox, outboxId).None? ==> r == Err(NoSingleRow))
      && (FindById(outbox, outboxId).Some? && FindById(outbox, outboxId).value.status != Approved ==>
            r == Err(NotApproved))
      && (FindById(outbox, outboxId).Some? && FindById(outbox, outboxId).value.status == Approved ==>
            (delivery.Rejected? ==> r == Err(delivery.reason)))
    ensures (pick.Ok? && pick.value.Some? && pick.value.value.used < pick.value.value.limit
             && FindById(outbox, outboxId).Some? && FindById(outbox, outboxId).value.status == Approved
             && delivery.Delivered?) ==>
      var slot := pick.value.value;
      r.Ok? && r.value.outcome == Dispatched(1, slot.account.email, slot.limit - slot.used - 1)
    ensures r.Ok? && r.value.outcome.Dispatched? ==>
      var slot := pick.value.value;
      && delivery.Delivered?
      && r.value.outcome.sent == 1
      && r.value.outcome.remaining == slot.limit - slot.used - 1 >= 0
      && |r.value.outbox| == |outbox|
      && (exists i :: 0 <= i < |outbox| && outbox[i].id == outboxId && outbox[i].status == Approved)
      && (forall i :: 0 <= i < |outbox| ==>
            if outbox[i].id == outboxId then
              r.value.outbox[i] == outbox[i].(status := Sent, senderId := Some(slot.account.id),
                                              sentAt := Some(now), updatedAt := Some(now))
            else r.value.outbox[i] == outbox[i])
  {
    match pick
    case Err(e) => Err(e)
    case Ok(None) => Ok(SendRun(NoCapacity, outbox))
    case Ok(Some(slot)) =>
      if slot.used >= slot.limit then Ok(SendRun(LimitReached, outbox))
      else match FindById(outbox, outboxId)
        case None => Err(NoSingleRow)
        case Some(draft) =>
          if draft.status != Approved then Err(NotApproved)
          else match delivery
            case Rejected(reason) => Err(reason)
            case Delivered =>
              var patch := Patch(Some(Sent), None, None, Some(slot.account.id), Some(now), None, Some(now));
              Ok(SendRun(Dispatched(1, slot.account.email, slot.limit - slot.used - 1),
                         UpdateWhere(outbox, {draft.id}, patch)))
  }
}
