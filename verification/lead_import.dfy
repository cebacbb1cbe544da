/** The two bulk lead imports: `bulk-leads` parses pasted "name, company, email" lines
    and queues an email and a DM job per lead; `bulk-csv` cleans rows already split by
    the browser and queues one email job per lead. */
module LeadImport {
  import opened Wrappers
  import opened Text
  import opened Json
  import opened Http
  import opened Leads
  import opened Jobs

  /** A lead read from the input, before it has an id. */
  datatype ParsedRow = ParsedRow(email: string, name: Option<string>, company: Option<string>)

  /** A job row an import inserts, and the table it goes to. `status` is `None` when the
      insert leaves it to the column default. */
  datatype NewJob = NewJob(jobType: string, status: Option<string>, leadId: string, payload: Payload, table: string)

  /** A response body of both imports. */
  datatype Imported = Imported(inserted: nat, jobsCreated: nat)

  /** A handled import: the response, the `leads` table after it, and the jobs inserted. */
  datatype Import = Import(response: Response<Imported>, leads: seq<Lead>, newJobs: seq<NewJob>)

  /* ---------------------------------------------------------------------------- */
  /*  bulk-leads                                                                   */
  /* ---------------------------------------------------------------------------- */

  const MissingLines: string := "Missing lines"
  const NoValidLeads: string := "No valid leads in input"
  const MarketingJobsTable: string := "marketing_jobs"

  /** A piece of `split(/\r?\n/)` that was followed by a line break: a "\r" right before
      the "\n" belongs to the separator. */
  function DropCr(piece: string): (r: string)
    ensures r == piece || (|piece| > 0 && piece[|piece| - 1] == '\r' && r == piece[..|piece| - 1])
  {
    if |piece| > 0 && piece[|piece| - 1] == '\r' then piece[..|piece| - 1] else piece
  }

  /** `raw.split(/\r?\n/)`: the pieces between "\n" and "\r\n" separators. */
  function RawLines(raw: string): (lines: seq<string>)
    ensures |lines| == |Split(raw, '\n')| >= 1
  {
    var pieces := Split(raw, '\n');
    seq(|pieces|, i requires 0 <= i < |pieces| => if i < |pieces| - 1 then DropCr(pieces[i]) else pieces[i])
  }

  /** The trimmed comma-separated fields of a line. */
  function Fields(line: string): (fields: seq<string>)
    ensures |fields| == |Split(line, ',')| >= 1
  {
    var parts := Split(line, ',');
    seq(|parts|, i requires 0 <= i < |parts| => Trim(parts[i]))
  }

  /** One trimmed, non-blank line: the last field is the email and must hold "@"; the
      first field is the name when there are at least two fields, the second the
      company when there are at least three. */
  function ParseLine(line: string): (r: Option<ParsedRow>)
    ensures r.Some? ==> '@' in r.value.email && Trimmed(r.value.email)
    ensures r.Some? ==> r.value.company.Some? ==> r.value.name.Some?
  {
    ParseFields(Fields(line))
  }

  /** How a line's fields decide its row (`ParseLine` is `ParseFields` of them): the line parses exactly when its last field
      holds "@"; that field is the email, the first field is the name exactly when
      there are two or more, and the second is the company exactly when there are
      three or more. */
  lemma ParseFieldsDecides(f: seq<string>)
    requires |f| >= 1
    ensures var r := ParseFields(f);
      && (r.Some? <==> '@' in f[|f| - 1])
      && (r.Some? ==> r.value.email == f[|f| - 1])
      && (r.Some? ==> (r.value.name.Some? <==> |f| >= 2) && (r.value.company.Some? <==> |f| >= 3))
      && (r.Some? && r.value.name.Some? ==> r.value.name.value == f[0])
      && (r.Some? && r.value.company.Some? ==> r.value.company.value == f[1])
  {
  }

  /** The row read off a line's fields. */
  function ParseFields(f: seq<string>): Option<ParsedRow>
    requires |f| >= 1
  {
    var email := f[|f| - 1];
    if '@' !in email then None
    else Some(ParsedRow(email, if |f| >= 2 then Some(f[0]) else None, if |f| >= 3 then Some(f[1]) else None))
  }

  /** What a parsed row always satisfies. */
  predicate WellParsed(row: ParsedRow) {
    '@' in row.email && Trimmed(row.email) && (row.company.Some? ==> row.name.Some?)
  }

  /** One raw line: trimmed, dropped when blank, otherwise parsed. */
  function ParseRaw(line: string): (r: Option<ParsedRow>)
    ensures r.Some? ==> WellParsed(r.value)
  {
    var t := Trim(line);
    if t == "" then None else ParseLine(t)
  }

  /** The lines after trimming, blank ones dropped, each parsed, unparsable ones
      dropped, in input order. */
  function ParseAll(lines: seq<string>): (rows: seq<ParsedRow>)
    ensures |rows| <= |lines|
    ensures forall k :: 0 <= k < |rows| ==> WellParsed(rows[k])
  {
    if |lines| == 0 then []
    else
      var rest := ParseAll(lines[1..]);
      var head := ParseRaw(lines[0]);
      if head.None? then rest
      else
        ConsWellParsed(head.value, rest);
        [head.value] + rest
  }

  /** A well-parsed row in front of well-parsed rows. */
  lemma ConsWellParsed(row: ParsedRow, rest: seq<ParsedRow>)
    requires WellParsed(row)
    requires forall k :: 0 <= k < |rest| ==> WellParsed(rest[k])
    ensures forall k :: 0 <= k < |rest| + 1 ==> WellParsed(([row] + rest)[k])
  {
  }

  /** `parseLines`. */
  function ParseLines(raw: string): (rows: seq<ParsedRow>)
    ensures |rows| <= |Split(raw, '\n')|
    ensures forall k :: 0 <= k < |rows| ==> WellParsed(rows[k])
  {
    ParseAll(RawLines(raw))
  }

  /** A row the line format can carry: trimmed fields without commas or line breaks,
      an email holding "@", and a company only next to a name. */
  predicate Writable(row: ParsedRow) {
    && '@' in row.email && Trimmed(row.email) && ',' !in row.email && '\n' !in row.email
    && (row.name.Some? ==> Trimmed(row.name.value) && ',' !in row.name.value && '\n' !in row.name.value)
    && (row.company.Some? ==>
          row.name.Some? && Trimmed(row.company.value) && ',' !in row.company.value && '\n' !in row.company.value)
  }

  /** A field after the blank that follows a comma. */
  function Blank(x: string): string {
    [' '] + x
  }

  /** The line an operator would paste for a row: "name, company, email", "name, email"
      or "email". */
  function FormatRow(row: ParsedRow): string {
    if row.name.None? then row.email
    else if row.company.None? then row.name.value + [','] + Blank(row.email)
    else row.name.value + [','] + Blank(row.company.value) + [','] + Blank(row.email)
  }

  /** A trimmed field behind one blank trims back to itself. */
  lemma TrimAfterBlank(x: string)
    requires Trimmed(x)
    ensures Trim(Blank(x)) == x
  {
    var s := Blank(x);
    assert IsSpace(s[0]);
    assert s[1..] == x;
    assert TrimStart(s) == TrimStart(x);
  }

  /** A piece without the separator splits into itself. */
  lemma SplitPlain(x: string, sep: char)
    requires sep !in x
    ensures Split(x, sep) == [x]
  {
  }

  /** The fields of a line whose comma-separated pieces are trimmed fields, each
      possibly behind one blank. */
  lemma FieldsAre(line: string, out: seq<string>)
    requires |Split(line, ',')| == |out|
    requires forall i :: 0 <= i < |out| ==>
      Trimmed(out[i]) && (Split(line, ',')[i] == out[i] || Split(line, ',')[i] == Blank(out[i]))
    ensures Fields(line) == out
  {
    var parts := Split(line, ',');
    forall i | 0 <= i < |out|
      ensures Trim(parts[i]) == out[i]
    {
      if parts[i] == out[i] {
        TrimOfTrimmed(out[i]);
      } else {
        TrimAfterBlank(out[i]);
      }
    }
  }

  /** A trimmed piece without commas is its own one field. */
  lemma FieldsOne(e: string)
    requires ',' !in e && Trimmed(e)
    ensures Fields(e) == [e]
  {
    SplitPlain(e, ',');
    FieldsAre(e, [e]);
  }

  lemma SplitTwo(n: string, e: string)
    requires ',' !in n && ',' !in e
    ensures Split(n + [','] + Blank(e), ',') == [n, Blank(e)]
  {
    SplitPlain(n, ',');
    assert ',' !in Blank(e);
    SplitAppend(n, ',', Blank(e));
  }

  lemma SplitThree(n: string, c: string, e: string)
    requires ',' !in n && ',' !in c && ',' !in e
    ensures Split(n + [','] + Blank(c) + [','] + Blank(e), ',') == [n, Blank(c), Blank(e)]
  {
    SplitTwo(n, c);
    assert ',' !in Blank(e);
    SplitAppend(n + [','] + Blank(c), ',', Blank(e));
  }

  lemma FieldsTwo(n: string, e: string)
    requires ',' !in e && Trimmed(e) && ',' !in n && Trimmed(n)
    ensures Fields(n + [','] + Blank(e)) == [n, e]
  {
    SplitTwo(n, e);
    FieldsAre(n + [','] + Blank(e), [n, e]);
  }

  lemma FieldsThree(n: string, c: string, e: string)
    requires ',' !in e && Trimmed(e) && ',' !in n && Trimmed(n) && ',' !in c && Trimmed(c)
    ensures Fields(n + [','] + Blank(c) + [','] + Blank(e)) == [n, c, e]
  {
    SplitThree(n, c, e);
    FieldsAre(n + [','] + Blank(c) + [','] + Blank(e), [n, c, e]);
  }

  /** A line made of trimmed, comma-free fields joined by commas: the last field is
      the email, and the line parses exactly when that field holds "@"; the first
      field is then the name when there are two or more, the second the company when
      there are three or more, and any fields in between are ignored. */
  lemma {:induction false} ParseLineOfJoin(fs: seq<string>)
    requires |fs| >= 1
    requires forall i :: 0 <= i < |fs| ==> ',' !in fs[i] && Trimmed(fs[i])
    ensures ParseLine(Join(fs, [','])) ==
      if '@' in fs[|fs| - 1]
      then Some(ParsedRow(fs[|fs| - 1], if |fs| >= 2 then Some(fs[0]) else None, if |fs| >= 3 then Some(fs[1]) else None))
      else None
  {
    var line := Join(fs, [',']);
    assert Split(line, ',') == fs by { SplitJoin(fs, ','); }
    assert Fields(line) == fs by { FieldsAre(line, fs); }
    assert ParseLine(line) == ParseFields(fs);
  }

  /** A formatted line is trimmed, free of line breaks, and parses back to its row. */
  lemma FormatRowParses(row: ParsedRow)
    requires Writable(row)
    ensures '\n' !in FormatRow(row)
    ensures FormatRow(row) != "" && Trimmed(FormatRow(row))
    ensures ParseLine(FormatRow(row)) == Some(row)
  {
    FormatRowShape(row);
    var e := row.email;
    if row.name.None? {
      FieldsOne(e);
    } else if row.company.None? {
      FieldsTwo(row.name.value, e);
    } else {
      FieldsThree(row.name.value, row.company.value, e);
    }
  }

  /** A formatted line has no line break and no outer white space. */
  lemma FormatRowShape(row: ParsedRow)
    requires Writable(row)
    ensures '\n' !in FormatRow(row)
    ensures FormatRow(row) != "" && Trimmed(FormatRow(row))
  {
    var e := row.email;
    var line := FormatRow(row);
    assert line[|line| - 1] == e[|e| - 1];
    if row.name.Some? {
      assert line[0] == if row.name.value == "" then ',' else row.name.value[0];
    }
  }

  /** A formatted line read as a raw line gives back its row. */
  lemma ParseRawFormatted(row: ParsedRow)
    requires Writable(row)
    ensures ParseRaw(FormatRow(row)) == Some(row)
  {
    FormatRowParses(row);
    TrimOfTrimmed(FormatRow(row));
  }

  /** The pasted text's lines for some rows, one formatted line per row. */
  function FormatRows(rows: seq<ParsedRow>): (lines: seq<string>)
    ensures |lines| == |rows|
    ensures forall k :: 0 <= k < |rows| ==> lines[k] == FormatRow(rows[k])
  {
    if |rows| == 0 then [] else [FormatRow(rows[0])] + FormatRows(rows[1..])
  }

  /** Lines that each parse to one row parse, together, to those rows in order. */
  lemma {:induction false} ParseAllOfRows(lines: seq<string>, rows: seq<ParsedRow>)
    requires |lines| == |rows|
    requires forall k :: 0 <= k < |lines| ==> ParseRaw(lines[k]) == Some(rows[k])
    ensures ParseAll(lines) == rows
  {
    if |lines| > 0 {
      ParseAllOfRows(lines[1..], rows[1..]);
      assert rows == [rows[0]] + rows[1..];
    }
  }

  /** Joined lines without line breaks or a trailing "\r" split back into themselves. */
  lemma RawLinesOfJoin(lines: seq<string>)
    requires |lines| >= 1
    requires forall k :: 0 <= k < |lines| ==> '\n' !in lines[k] && DropCr(lines[k]) == lines[k]
    ensures RawLines(Join(lines, "\n")) == lines
  {
    SplitJoin(lines, '\n');
  }

  /** Parsing formatted lines gives back their rows, in order. */
  lemma ParseAllFormatted(rows: seq<ParsedRow>)
    requires forall k :: 0 <= k < |rows| ==> Writable(rows[k])
    ensures ParseAll(FormatRows(rows)) == rows
  {
    var lines := FormatRows(rows);
    forall k | 0 <= k < |rows|
      ensures ParseRaw(lines[k]) == Some(rows[k])
    {
      ParseRawFormatted(rows[k]);
    }
    ParseAllOfRows(lines, rows);
  }

  /** Formatted lines hold no line break and end in no "\r". */
  lemma FormattedLinesArePlain(rows: seq<ParsedRow>)
    requires forall k :: 0 <= k < |rows| ==> Writable(rows[k])
    ensures forall k :: 0 <= k < |rows| ==>
      '\n' !in FormatRows(rows)[k] && DropCr(FormatRows(rows)[k]) == FormatRows(rows)[k]
  {
    forall k | 0 <= k < |rows|
      ensures '\n' !in FormatRows(rows)[k] && DropCr(FormatRows(rows)[k]) == FormatRows(rows)[k]
    {
      FormatRowParses(rows[k]);
    }
  }

  /** Empty text imports nothing. */
  lemma ParseLinesEmpty()
    ensures ParseLines(Join([], "\n")) == []
  {
    assert Join([], "\n") == "";
    SplitEmpty('\n');
    var lines := RawLines("");
    assert lines == [""];
    BlankLineSkipped(lines[0]);
    assert lines[1..] == [];
  }

  /** A line that trims to nothing is dropped. */
  lemma BlankLineSkipped(line: string)
    requires Trim(line) == ""
    ensures ParseRaw(line) == None
  {
  }

  /** The import's inverse: pasting the formatted rows, one per line, imports exactly
      those rows in that order. */
  lemma ParseLinesRoundTrip(rows: seq<ParsedRow>)
    requires forall k :: 0 <= k < |rows| ==> Writable(rows[k])
    ensures ParseLines(Join(FormatRows(rows), "\n")) == rows
  {
    if |rows| == 0 {
      ParseLinesEmpty();
    } else {
      FormattedLinesArePlain(rows);
      RawLinesOfJoin(FormatRows(rows));
      ParseAllFormatted(rows);
    }
  }

  /** The payloads of the two jobs `bulk-leads` queues per lead. */
  const ColdEmailPayload: Payload := Payload(JStr("en"), JBool(false), JStr("Cold outreach for ContractGuard AI."), JNull)
  const ShortDmPayload: Payload := Payload(JStr("en"), JBool(false), JStr("Short LinkedIn DM for ContractGuard AI."), JNull)

  /** The leads an import inserts; `newLeadId(k)` is the id the database gives the k-th. */
  function NewLeads(rows: seq<ParsedRow>, newLeadId: nat -> string): (leads: seq<Lead>)
    ensures |leads| == |rows|
    ensures forall k :: 0 <= k < |rows| ==>
      leads[k] == Lead(newLeadId(k), Some(rows[k].email), rows[k].name, rows[k].company)
  {
    seq(|rows|, k requires 0 <= k < |rows| => Lead(newLeadId(k), Some(rows[k].email), rows[k].name, rows[k].company))
  }

  /** The job `bulk-leads` queues for a lead: the cold email, or (`dm`) the short DM. */
  function LeadJob(lead: Lead, dm: bool): NewJob {
    if dm then NewJob(GenerateLinkedInDm, Some(Pending), lead.id, ShortDmPayload, MarketingJobsTable)
    else NewJob(GenerateEmail, Some(Pending), lead.id, ColdEmailPayload, MarketingJobsTable)
  }

  /** The `flatMap` of `bulk-leads`: for each lead an email job, then a DM job. */
  function EmailAndDmJobs(leads: seq<Lead>): (jobs: seq<NewJob>)
    ensures |jobs| == 2 * |leads|
    ensures forall k :: 0 <= k < |leads| ==>
      && jobs[2 * k] == NewJob(GenerateEmail, Some(Pending), leads[k].id, ColdEmailPayload, MarketingJobsTable)
      && jobs[2 * k + 1] == NewJob(GenerateLinkedInDm, Some(Pending), leads[k].id, ShortDmPayload, MarketingJobsTable)
  {
    seq(2 * |leads|, j requires 0 <= j < 2 * |leads| => LeadJob(leads[j / 2], j % 2 == 1))
  }

  /** The `bulk-leads` handler. `lines` is the request's text (`None` when absent);
      `makeJobs` its flag as sent. */
  function BulkLeads(verb: Method, lines: Option<string>, makeJobs: Value, leads: seq<Lead>, newLeadId: nat -> string)
    : (h: Import)
    ensures !verb.Post? ==> h == Import(MethodNotAllowed, leads, [])
    ensures verb.Post? && Missing(lines) ==> h == Import(BadRequest(MissingLines), leads, [])
    ensures verb.Post? && !Missing(lines) && ParseLines(lines.value) == [] ==>
      h == Import(BadRequest(NoValidLeads), leads, [])
    ensures h.response.Success? <==> verb.Post? && !Missing(lines) && ParseLines(lines.value) != []
    ensures h.response.Success? ==>
      var rows := ParseLines(lines.value);
      var inserted := NewLeads(rows, newLeadId);
      && h.response.body == Imported(|rows|, |h.newJobs|)
      && h.leads == leads + inserted
      && (Truthy(makeJobs) ==> h.newJobs == EmailAndDmJobs(inserted) && |h.newJobs| == 2 * |rows|)
      && (!Truthy(makeJobs) ==> h.newJobs == [])
  {
    if !verb.Post? then Import(MethodNotAllowed, leads, [])
    else if Missing(lines) then Import(BadRequest(MissingLines), leads, [])
    else
      var rows := ParseLines(lines.value);
      if |rows| == 0 then Import(BadRequest(NoValidLeads), leads, [])
      else
        var inserted := NewLeads(rows, newLeadId);
        var jobs := if Truthy(makeJobs) && |inserted| > 0 then EmailAndDmJobs(inserted) else [];
        Import(Success(Imported(|inserted|, |jobs|)), leads + inserted, jobs)
  }

  /* ---------------------------------------------------------------------------- */
  /*  bulk-csv                                                                     */
  /* ---------------------------------------------------------------------------- */

  const NoRows: string := "No rows provided"
  const NoValidEmails: string := "No valid emails in rows"
  /** What a non-string `email` raises when the handler calls `trim` on it. */
  const EmailNotString: string := "r.email?.trim is not a function"
  const CsvJobsTable: string := "jobs"
  const FirstContact: string := "First contact for ContractGuard AI."

  /** A row of the request: `email` as sent, `name` and `company` as strings or absent. */
  datatype CsvRow = CsvRow(email: Value, name: Option<string>, company: Option<string>)

  /** `email.trim().toLowerCase()`. */
  function CleanEmail(s: string): string {
    ToLower(Trim(s))
  }

  /** `v || null` for a string column. */
  function NonBlank(v: Option<string>): (r: Option<string>)
    ensures r.Some? <==> v.Some? && v.value != ""
    ensures r.Some? ==> r == v
  {
    if v.Some? && v.value != "" then v else None
  }

  /** One cleaned row: dropped (`Ok(None)`) when the email is absent, blank or without
      "@"; an error when the email is not a string. */
  function CleanRow(row: CsvRow): (r: Result<Option<ParsedRow>>)
    ensures r.Err? <==> !row.email.JNull? && !row.email.JStr?
    ensures r.Ok? && r.value.Some? ==>
      && row.email.JStr?
      && r.value.value == ParsedRow(CleanEmail(row.email.s), NonBlank(row.name), NonBlank(row.company))
    ensures r.Ok? && r.value.Some? ==> r.value.value.email != "" && '@' in r.value.value.email
    ensures r.Ok? && r.value.None? ==> row.email.JNull? || '@' !in CleanEmail(row.email.s)
  {
    match row.email
    case JNull => Ok(None)
    case JStr(s) =>
      var email := CleanEmail(s);
      if email == "" || '@' !in email then Ok(None)
      else Ok(Some(ParsedRow(email, NonBlank(row.name), NonBlank(row.company))))
    case _ => Err(EmailNotString)
  }

  /** One step of `map(clean).filter(Boolean)`: a kept head goes in front of the rest;
      the first error wins. */
  function Prepend(head: Result<Option<ParsedRow>>, rest: Result<seq<ParsedRow>>): (r: Result<seq<ParsedRow>>)
    ensures r.Err? <==> head.Err? || rest.Err?
    ensures r.Ok? ==> r.value == (if head.value.Some? then [head.value.value] else []) + rest.value
  {
    if head.Err? then Err(head.error)
    else if rest.Err? then Err(rest.error)
    else if head.value.Some? then Ok([head.value.value] + rest.value)
    else Ok(rest.value)
  }

  /** `rows.map(clean).filter(Boolean)`: the kept rows in order, or the first error. */
  function CleanRows(rows: seq<CsvRow>): (r: Result<seq<ParsedRow>>)
    ensures r.Ok? ==> |r.value| <= |rows|
    ensures r.Ok? ==> forall k :: 0 <= k < |r.value| ==> '@' in r.value[k].email
  {
    if |rows| == 0 then Ok([])
    else
      var head := CleanRow(rows[0]);
      var rest := CleanRows(rows[1..]);
      PrependKeepsEmails(head, rest);
      Prepend(head, rest)
  }

  /** Prepending a row with an address to rows with addresses gives rows with addresses. */
  lemma PrependKeepsEmails(head: Result<Option<ParsedRow>>, rest: Result<seq<ParsedRow>>)
    requires head.Ok? && head.value.Some? ==> '@' in head.value.value.email
    requires rest.Ok? ==> forall k :: 0 <= k < |rest.value| ==> '@' in rest.value[k].email
    ensures Prepend(head, rest).Ok? ==>
      forall k :: 0 <= k < |Prepend(head, rest).value| ==> '@' in Prepend(head, rest).value[k].email
  {
  }

  /** The cleaning fails exactly when some row's email is neither a string nor absent. */
  lemma {:induction false} CleanRowsFailsIff(rows: seq<CsvRow>)
    ensures CleanRows(rows).Err? <==> exists i :: 0 <= i < |rows| && !rows[i].email.JNull? && !rows[i].email.JStr?
  {
    if |rows| > 0 {
      CleanRowsFailsIff(rows[1..]);
      assert forall i :: 1 <= i < |rows| ==> rows[i] == rows[1..][i - 1];
    }
  }

  /** The job language: Dutch for a `.nl` address, English otherwise. */
  function LanguageFor(email: string): (lang: string)
    ensures lang == "nl" <==> EndsWith(email, ".nl")
    ensures lang == "nl" || lang == "en"
  {
    if EndsWith(email, ".nl") then "nl" else "en"
  }

  /** The one job `bulk-csv` queues per lead: an auto-approved first-contact email. */
  function FirstContactJobs(leads: seq<Lead>): (jobs: seq<NewJob>)
    ensures |jobs| == |leads|
    ensures forall k :: 0 <= k < |leads| ==>
      jobs[k] == NewJob(GenerateEmail, None, leads[k].id,
                        Payload(JStr(LanguageFor(leads[k].email.GetOr(""))), JBool(true), JStr(FirstContact), JNull),
                        CsvJobsTable)
  {
    seq(|leads|, k requires 0 <= k < |leads| =>
      NewJob(GenerateEmail, None, leads[k].id,
             Payload(JStr(LanguageFor(leads[k].email.GetOr(""))), JBool(true), JStr(FirstContact), JNull),
             CsvJobsTable))
  }

  /** The `bulk-csv` handler. `rows` is `None` when the request's `rows` is not an array
      (an absent one reads as the empty array); `makeJobs` is the flag as sent. */
  function BulkCsv(rows: Option<seq<CsvRow>>, makeJobs: Value, leads: seq<Lead>, newLeadId: nat -> string)
    : (h: Import)
    ensures rows.None? || rows.value == [] ==> h == Import(BadRequest(NoRows), leads, [])
    ensures rows.Some? && rows.value != [] && CleanRows(rows.value).Err? ==>
      h == Import(ServerError(EmailNotString), leads, [])
    ensures rows.Some? && CleanRows(rows.value) == Ok([]) ==> h.response.BadRequest? && h.leads == leads
    ensures h.response.Success? <==>
      rows.Some? && CleanRows(rows.value).Ok? && CleanRows(rows.value).value != []
    ensures h.response.Success? ==>
      var cleaned := CleanRows(rows.value).value;
      var inserted := NewLeads(cleaned, newLeadId);
      && h.response.body == Imported(|cleaned|, |h.newJobs|)
      && h.leads == leads + inserted
      && (Truthy(makeJobs) ==> h.newJobs == FirstContactJobs(inserted) && |h.newJobs| == |cleaned|)
      && (!Truthy(makeJobs) ==> h.newJobs == [])
  {
    if rows.None? || |rows.value| == 0 then Import(BadRequest(NoRows), leads, [])
    else match CleanRows(rows.value)
      case Err(e) =>
        assert e == EmailNotString by { CleanRowsError(rows.value); }
        Import(ServerError(e), leads, [])
      case Ok(cleaned) =>
        if |cleaned| == 0 then Import(BadRequest(NoValidEmails), leads, [])
        else
          var inserted := NewLeads(cleaned, newLeadId);
          var jobs := if Truthy(makeJobs) then FirstContactJobs(inserted) else [];
          Import(Success(Imported(|cleaned|, |jobs|)), leads + inserted, jobs)
  }

  /** The only error the cleaning raises is the one for a non-string email. */
  lemma {:induction false} CleanRowsError(rows: seq<CsvRow>)
    ensures CleanRows(rows).Err? ==> CleanRows(rows).error == EmailNotString
  {
    if |rows| > 0 {
      CleanRowsError(rows[1..]);
    }
  }

  /** Lower-casing keeps white space white and everything else not white. */
  lemma ToLowerKeepsSpace(c: char)
    ensures IsSpace(ToLowerChar(c)) <==> IsSpace(c)
  {
  }

  /** Lower-casing a trimmed string leaves it trimmed. */
  lemma ToLowerKeepsTrimmed(s: string)
    requires Trimmed(s)
    ensures Trimmed(ToLower(s))
  {
    if |s| > 0 {
      ToLowerKeepsSpace(s[0]);
      ToLowerKeepsSpace(s[|s| - 1]);
    }
  }

  /** Lower-casing twice is lower-casing once. */
  lemma ToLowerIdempotent(s: string)
    ensures ToLower(ToLower(s)) == ToLower(s)
  {
  }

  /** Cleaning is idempotent: a cleaned email cleans to itself. */
  lemma CleanEmailIdempotent(s: string)
    ensures CleanEmail(CleanEmail(s)) == CleanEmail(s)
  {
    var l := CleanEmail(s);
    ToLowerKeepsTrimmed(Trim(s));
    TrimOfTrimmed(l);
    ToLowerIdempotent(Trim(s));
  }

  /** Rows whose emails clean to the same address clean to the same result. */
  lemma CleanRowSameEmail(x: string, y: string, name: Option<string>, company: Option<string>)
    requires CleanEmail(x) == CleanEmail(y)
    ensures CleanRow(CsvRow(JStr(x), name, company)) == CleanRow(CsvRow(JStr(y), name, company))
  {
  }

  /** Blank names and companies are dropped, so dropping them first changes nothing. */
  lemma CleanRowNonBlank(s: string, name: Option<string>, company: Option<string>)
    ensures CleanRow(CsvRow(JStr(s), NonBlank(name), NonBlank(company))) == CleanRow(CsvRow(JStr(s), name, company))
  {
  }

  /** A cleaned lead sent again as a row comes back unchanged: cleaning is a projection. */
  lemma CleanRowProjects(row: CsvRow)
    requires CleanRow(row).Ok? && CleanRow(row).value.Some?
    ensures var p := CleanRow(row).value.value;
      CleanRow(CsvRow(JStr(p.email), p.name, p.company)) == Ok(Some(p))
  {
    var p := CleanRow(row).value.value;
    var s := row.email.s;
    CleanEmailIdempotent(s);
    CleanRowSameEmail(p.email, s, p.name, p.company);
    CleanRowNonBlank(s, row.name, row.company);
  }
}
