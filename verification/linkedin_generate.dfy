/** `admin/linkedin-generate`: the endpoint that writes a batch of LinkedIn posts or DMs
    straight into `linkedin_content`, one model call per item, all as drafts. */
module LinkedInGenerate {
  import opened Wrappers
  import opened Json
  import opened Http
  import Outbox
  import Drafts
  import Text

  const DefaultTotal: nat := 10
  const MaxTotal: nat := 50
  const InvalidType: string := "Invalid type"

  /** `Number(count || 10)`, then `min(n, 50)` when that is a positive number and 10
      otherwise. */
  function Total(count: Value): (total: nat)
    ensures 1 <= total <= MaxTotal
    ensures !Truthy(count) ==> total == DefaultTotal
    ensures count.JNum? && count.n > 0 ==> total == if count.n < MaxTotal then count.n else MaxTotal
    ensures count.JNum? && count.n < 0 ==> total == DefaultTotal
  {
    var n := ToNumber(Or(count, JNum(DefaultTotal)));
    if n.Some? && n.value > 0 then (if n.value < MaxTotal then n.value else MaxTotal)
    else DefaultTotal
  }

  /** The items of the first `n` model calls for `kind`, or the error of the first call
      that failed. `content(i)` is the `i`-th call's text or its error. */
  function Generated(kind: string, content: nat -> Result<string>, n: nat): (r: Result<seq<Drafts.ContentRow>>)
  {
    if n == 0 then Ok([])
    else
      match Generated(kind, content, n - 1)
      case Err(e) => Err(e)
      case Ok(items) =>
        match content(n - 1)
        case Err(e) => Err(e)
        case Ok(text) => Ok(items + [Drafts.ContentRow(kind, text, Outbox.Draft)])
  }

  /** When no call fails there is one draft per call, of the requested kind and holding
      that call's text, in call order; otherwise the error is the earliest failure's. */
  lemma {:induction false} GeneratedItems(kind: string, content: nat -> Result<string>, n: nat)
    ensures Generated(kind, content, n).Ok? <==> forall i :: 0 <= i < n ==> content(i).Ok?
    ensures Generated(kind, content, n).Ok? ==>
      var items := Generated(kind, content, n).value;
      && |items| == n
      && forall i :: 0 <= i < n ==> items[i] == Drafts.ContentRow(kind, content(i).value, Outbox.Draft)
    ensures Generated(kind, content, n).Err? ==>
      exists i :: 0 <= i < n && content(i).Err? && Generated(kind, content, n).error == content(i).error
        && forall j :: 0 <= j < i ==> content(j).Ok?
  {
    if n > 0 {
      GeneratedItems(kind, content, n - 1);
      if Generated(kind, content, n - 1).Ok? && content(n - 1).Err? {
        assert forall j :: 0 <= j < n - 1 ==> content(j).Ok?;
      }
    }
  }

  /** The handler. `kind` is the request's `type`, `count` its `count`; `content(i)` is
      the `i`-th model call, `insertError` the error of the one insert. The table is
      written only when every call succeeded and the insert did too. */
  method GenerateRequest(
    verb: Method, kind: Value, count: Value,
    content: nat -> Result<string>, insertError: Option<string>, table: seq<Drafts.ContentRow>)
    returns (response: Response<nat>, after: seq<Drafts.ContentRow>)
    ensures !verb.Post? ==> response == MethodNotAllowed && after == table
    ensures verb.Post? && kind != JStr(Drafts.Post) && kind != JStr(Drafts.Dm) ==>
      response == BadRequest(InvalidType) && after == table
    ensures response.Success? <==>
      && verb.Post? && (kind == JStr(Drafts.Post) || kind == JStr(Drafts.Dm))
      && Generated(kind.s, content, Total(count)).Ok? && insertError.None?
    ensures response.Success? ==>
      && response.body == Total(count)
      && after == table + Generated(kind.s, content, Total(count)).value
    ensures !response.Success? ==> after == table
    ensures verb.Post? && (kind == JStr(Drafts.Post) || kind == JStr(Drafts.Dm)) && Generated(kind.s, content, Total(count)).Err? ==>
      response == ServerError(ErrorMessage(Generated(kind.s, content, Total(count)).error))
  {
    if !verb.Post? {
      return MethodNotAllowed, table;
    }
    if kind != JStr(Drafts.Post) && kind != JStr(Drafts.Dm) {
      return BadRequest(InvalidType), table;
    }
    var total := Total(count);
    var generated := GenerateAll(kind.s, content, total);
    if generated.Err? {
      return ServerError(ErrorMessage(generated.error)), table;
    }
    if insertError.Some? {
      return ServerError(ErrorMessage(insertError.value)), table;
    }
    GeneratedItems(kind.s, content, total);
    response := Success(|generated.value|);
    after := table + generated.value;
  }

  /** The loop of model calls: one call per item, stopping at the first failure. */
  method GenerateAll(kind: string, content: nat -> Result<string>, total: nat)
    returns (r: Result<seq<Drafts.ContentRow>>)
    ensures r == Generated(kind, content, total)
  {
    var items: seq<Drafts.ContentRow> := [];
    var i := 0;
    while i < total
      invariant 0 <= i <= total
      invariant Generated(kind, content, i) == Ok(items)
    {
      var text := content(i);
      if text.Err? {
        assert Generated(kind, content, i + 1) == Err(text.error);
        GeneratedFailureSticks(kind, content, i + 1, total);
        return Err(text.error);
      }
      items := items + [Drafts.ContentRow(kind, text.value, Outbox.Draft)];
      i := i + 1;
    }
    return Ok(items);
  }

  /** Once a call has failed, generating more items keeps that error. */
  lemma {:induction false} GeneratedFailureSticks(kind: string, content: nat -> Result<string>, m: nat, n: nat)
    requires m <= n
    requires Generated(kind, content, m).Err?
    ensures Generated(kind, content, n) == Generated(kind, content, m)
    decreases n - m
  {
    if m < n {
      GeneratedFailureSticks(kind, content, m, n - 1);
    }
  }

  /** The "Nothing generated" branch is dead: the total is at least one, so a successful
      run always has items to insert. */
  lemma NeverNothingGenerated(kind: string, content: nat -> Result<string>, count: Value)
    requires Generated(kind, content, Total(count)).Ok?
    ensures |Generated(kind, content, Total(count)).value| == Total(count) >= 1
  {
    GeneratedItems(kind, content, Total(count));
  }

  /** A count sent as a signed decimal string is honoured: "+7" asks for 7 posts (at most
      50), and "-7" falls back to the default. */
  lemma TotalOfSignedString(d: string)
    requires |d| > 0 && Json.AllDigits(d)
    ensures Json.DigitsValue(d) > 0 ==>
      Total(JStr(['+'] + d)) == if Json.DigitsValue(d) < MaxTotal then Json.DigitsValue(d) else MaxTotal
    ensures Total(JStr(['-'] + d)) == DefaultTotal
  {
    Json.SignedDigits('+', d);
    Json.SignedDigits('-', d);
  }

  /** A missing or zero count gives ten items, a count above fifty gives fifty. */
  lemma TotalExamples()
    ensures Total(JNull) == 10 && Total(JNum(0)) == 10 && Total(JStr("")) == 10
    ensures Total(JNum(7)) == 7 && Total(JNum(500)) == 50 && Total(JStr("abc")) == 10
  {
    assert Text.Trim("abc") == "abc" by {
      Text.TrimOfTrimmed("abc");
    }
  }
}
