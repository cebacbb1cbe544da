/** Sender accounts, the warmup ramp of their daily limit, and the choice of the
    account that sends today (`calcWarmupLimit` and `pickSenderForToday`). */
module Warmup {
  import opened Wrappers
  import Seqs

  /** A row of `sender_accounts`. The SMTP credentials are not part of this model. */
  datatype SenderAccount = SenderAccount(
    id: string,
    email: string,
    displayName: Option<string>,
    warmupStartDate: Option<string>,
    isActive: bool,
    maxPerDay: Option<int>)

  /** The cap used when `max_per_day` is null or 0. */
  const DefaultMaxPerDay: int := 50

  /** `account.max_per_day || 50`. */
  function DailyCap(account: SenderAccount): int {
    if account.maxPerDay.Some? && account.maxPerDay.value != 0 then account.maxPerDay.value
    else DefaultMaxPerDay
  }

  /** Whether `warmup_start_date` is truthy (set and not empty). */
  predicate WarmupStarted(account: SenderAccount) {
    account.warmupStartDate.Some? && account.warmupStartDate.value != ""
  }

  /** The limits of warmup days 0 to 4; from day 5 on the account has its full cap. */
  const Ramp: seq<int> := [5, 10, 20, 30, 40]

  /** The daily limit of an account `diffDays` whole days after its warmup start. */
  function CalcWarmupLimit(account: SenderAccount, diffDays: int): (limit: int)
    ensures !WarmupStarted(account) ==> limit == DailyCap(account)
    ensures WarmupStarted(account) && diffDays >= |Ramp| ==> limit == DailyCap(account)
    ensures WarmupStarted(account) && diffDays < |Ramp| ==> limit == Ramp[if diffDays < 0 then 0 else diffDays]
  {
    var max := DailyCap(account);
    if !WarmupStarted(account) then max
    else if diffDays <= 0 then 5
    else if diffDays == 1 then 10
    else if diffDays == 2 then 20
    else if diffDays == 3 then 30
    else if diffDays == 4 then 40
    else max
  }

  /** Without a warmup start the limit is the daily cap, whatever the day. */
  lemma NoWarmupIgnoresToday(account: SenderAccount, day1: int, day2: int)
    requires !WarmupStarted(account)
    ensures CalcWarmupLimit(account, day1) == CalcWarmupLimit(account, day2) == DailyCap(account)
  {
  }

  /** A null or zero `max_per_day` caps the account at 50. */
  lemma FalsyCapIsFifty(account: SenderAccount, diffDays: int)
    requires account.maxPerDay == None || account.maxPerDay == Some(0)
    requires !WarmupStarted(account) || diffDays >= 5
    ensures CalcWarmupLimit(account, diffDays) == 50
  {
  }

  /** The ramp during warmup: 5 on the start day (or before it), then 10, 20, 30, 40. */
  lemma WarmupSteps(account: SenderAccount, diffDays: int)
    requires WarmupStarted(account) && diffDays <= 4
    ensures CalcWarmupLimit(account, diffDays) == if diffDays <= 0 then 5 else 10 * diffDays
  {
  }

  /** The limit is always one of the six staircase values, and the cap from day 5 on. */
  lemma WarmupLimitValues(account: SenderAccount, diffDays: int)
    ensures CalcWarmupLimit(account, diffDays) in {5, 10, 20, 30, 40, DailyCap(account)}
    ensures diffDays >= 5 ==> CalcWarmupLimit(account, diffDays) == DailyCap(account)
  {
  }

  /** With a cap of at least 40 the ramp never goes down. */
  lemma WarmupMonotone(account: SenderAccount, day1: int, day2: int)
    requires day1 <= day2 && DailyCap(account) >= 40
    ensures CalcWarmupLimit(account, day1) <= CalcWarmupLimit(account, day2)
  {
  }

  /** With a cap below 40 the ramp overshoots the cap during warmup and then drops back:
      a cap of 10 gives 40 on day 4 and 10 on day 5. */
  lemma SmallCapRampOvershoots()
    ensures var account := SenderAccount("a", "a@x", None, Some("2024-01-01"), true, Some(10));
      CalcWarmupLimit(account, 4) == 40 && CalcWarmupLimit(account, 5) == 10
  {
  }

  /** What is known about one account on the day of a send run: the days since its
      warmup start and how many outbox rows count as used today. Both are inputs. */
  datatype AccountDay = AccountDay(account: SenderAccount, diffDays: int, used: nat)

  /** A sender slot: an account with its usage and limit for today. */
  datatype Slot = Slot(account: SenderAccount, used: nat, limit: int)

  function SlotOf(day: AccountDay): Slot {
    Slot(day.account, day.used, CalcWarmupLimit(day.account, day.diffDays))
  }

  predicate HasRoom(slot: Slot) {
    slot.used < slot.limit
  }

  /** The position of the first slot with the smallest `used`: what a stable sort on
      `used` puts in front. */
  function FirstLeastUsed(slots: seq<Slot>): (k: Option<nat>)
    ensures k.None? <==> |slots| == 0
    ensures k.Some? ==> k.value < |slots|
    ensures k.Some? ==> forall j :: 0 <= j < |slots| ==> slots[k.value].used <= slots[j].used
    ensures k.Some? ==> forall j :: 0 <= j < k.value ==> slots[j].used > slots[k.value].used
  {
    if |slots| == 0 then None
    else match FirstLeastUsed(slots[1..])
      case None => Some(0)
      case Some(t) => if slots[0].used <= slots[t + 1].used then Some(0) else Some(t + 1)
  }

  const NoActiveAccounts: string := "Geen actieve sender_accounts gevonden"

  predicate IsActive(day: AccountDay) {
    day.account.isActive
  }

  /** The active accounts' slots for today, in the order the accounts were listed. */
  function ActiveSlots(days: seq<AccountDay>): (slots: seq<Slot>)
    ensures |slots| <= |days|
  {
    var active := Seqs.Filter(days, IsActive);
    seq(|active|, i requires 0 <= i < |active| => SlotOf(active[i]))
  }

  /** `pickSenderForToday`: an error when no account is active; otherwise the active
      account with room left whose `used` is smallest (the first such one in listing
      order on a tie, as the stable sort leaves it in front), or `None` when every
      active account has reached its limit. */
  function PickSenderForToday(days: seq<AccountDay>): (r: Result<Option<Slot>>)
    ensures r.Err? <==> forall i :: 0 <= i < |days| ==> !days[i].account.isActive
    ensures r.Err? ==> r.error == NoActiveAccounts
    ensures r.Ok? && r.value.None? ==>
      forall i :: 0 <= i < |days| && days[i].account.isActive ==> !HasRoom(SlotOf(days[i]))
    ensures r.Ok? && r.value.Some? ==>
      HasRoom(r.value.value) && r.value.value in ActiveSlots(days)
    ensures r.Ok? && r.value.Some? ==>
      forall i :: 0 <= i < |days| && days[i].account.isActive && HasRoom(SlotOf(days[i])) ==>
        r.value.value.used <= days[i].used
    ensures (forall i :: 0 <= i < |days| && days[i].account.isActive ==> !HasRoom(SlotOf(days[i]))) ==>
      r.Err? || r.value.None?
    ensures r.Ok? && r.value.Some? ==>
      exists k :: 0 <= k < |Seqs.Filter(ActiveSlots(days), HasRoom)|
        && Seqs.Filter(ActiveSlots(days), HasRoom)[k] == r.value.value
        && forall j :: 0 <= j < k ==> Seqs.Filter(ActiveSlots(days), HasRoom)[j].used > r.value.value.used
  {
    var slots := ActiveSlots(days);
    ActiveSlotsCover(days);
    if |slots| == 0 then
      Err(NoActiveAccounts)
    else
      var available := Seqs.Filter(slots, HasRoom);
      Seqs.FilterMembers(slots, HasRoom);
      match FirstLeastUsed(available)
      case None => Ok(None)
      case Some(k) =>
        assert forall i :: 0 <= i < |days| && IsActive(days[i]) && HasRoom(SlotOf(days[i])) ==>
          SlotOf(days[i]) in available;
        assert 0 <= k < |available| && available[k] == available[k];
        Ok(Some(available[k]))
  }

  /** Today's active slots are exactly the slots of the active accounts. */
  lemma ActiveSlotsCover(days: seq<AccountDay>)
    ensures forall i :: 0 <= i < |days| && IsActive(days[i]) ==> SlotOf(days[i]) in ActiveSlots(days)
    ensures forall j :: 0 <= j < |ActiveSlots(days)| ==>
      exists i :: 0 <= i < |days| && IsActive(days[i]) && ActiveSlots(days)[j] == SlotOf(days[i])
  {
    var slots := ActiveSlots(days);
    var active := Seqs.Filter(days, IsActive);
    Seqs.FilterMembers(days, IsActive);
    forall i | 0 <= i < |days| && IsActive(days[i])
      ensures SlotOf(days[i]) in slots
    {
      assert days[i] in active;
      var k :| 0 <= k < |active| && active[k] == days[i];
      assert slots[k] == SlotOf(days[i]);
    }
    forall j | 0 <= j < |slots|
      ensures exists i :: 0 <= i < |days| && IsActive(days[i]) && slots[j] == SlotOf(days[i])
    {
      assert active[j] in days;
    }
  }
}
