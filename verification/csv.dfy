/** The CSV export format of the archive endpoint: every field quoted, embedded quotes
    doubled (section 2, rules 5 to 7, of RFC 4180), fields joined by "," and records by
    a bare "\n". A reader for that format shows the encoding loses nothing. */
module Csv {
  import opened Wrappers
  import Text

  /** Every `"` written twice. */
  function Double(s: string): (r: string)
    ensures |r| >= |s|
  {
    if |s| == 0 then ""
    else (if s[0] == '"' then "\"\"" else [s[0]]) + Double(s[1..])
  }

  /** `esc`: the field wrapped in quotes with its internal quotes doubled. */
  function Esc(s: string): (r: string)
    ensures |r| >= 2 && r[0] == '"' && r[|r| - 1] == '"'
  {
    "\"" + Double(s) + "\""
  }

  /** `esc(null)` and `esc(undefined)`: `(v ?? "")` makes them the empty quoted field. */
  function EscOpt(v: Option<string>): (r: string)
    ensures v.None? ==> r == "\"\""
  {
    Esc(v.GetOr(""))
  }

  /** Reads the inside of a quoted field (after its opening quote) up to its closing
      quote, turning each `""` back into `"`; returns the value and what follows. */
  function Unquote(s: string): (r: Option<(string, string)>)
    ensures r.Some? ==> |r.value.1| < |s|
    decreases |s|
  {
    if |s| == 0 then None
    else if s[0] == '"' then
      if |s| >= 2 && s[1] == '"' then
        match Unquote(s[2..])
        case None => None
        case Some((v, rest)) => Some(("\"" + v, rest))
      else Some(("", s[1..]))
    else
      match Unquote(s[1..])
      case None => None
      case Some((v, rest)) => Some(([s[0]] + v, rest))
  }

  /** Reads one quoted field at the front of `s`. */
  function ReadField(s: string): (r: Option<(string, string)>)
    ensures r.Some? ==> |r.value.1| < |s|
  {
    if |s| > 0 && s[0] == '"' then Unquote(s[1..]) else None
  }

  lemma {:induction false} UnquoteDouble(x: string, rest: string)
    requires rest == [] || rest[0] != '"'
    ensures Unquote(Double(x) + "\"" + rest) == Some((x, rest))
  {
    if |x| == 0 {
      UnquoteClosing(rest);
    } else {
      var t := Double(x[1..]) + "\"" + rest;
      UnquoteDouble(x[1..], rest);
      DoubleFront(x, rest);
      if x[0] == '"' {
        UnquoteQuoteStep(t, x[1..], rest);
        assert "\"" + x[1..] == x;
      } else {
        UnquoteCharStep(x[0], t, x[1..], rest);
        assert [x[0]] + x[1..] == x;
      }
    }
  }

  /** A closing quote not followed by another ends the field. */
  lemma UnquoteClosing(rest: string)
    requires rest == [] || rest[0] != '"'
    ensures Unquote(Double("") + "\"" + rest) == Some(("", rest))
  {
    var q := Double("") + "\"" + rest;
    assert q == "\"" + rest;
    assert q[0] == '"' && q[1..] == rest;
  }

  /** The doubled text with its closing quote, split at its first character. */
  lemma DoubleFront(x: string, rest: string)
    requires |x| > 0
    ensures Double(x) + "\"" + rest ==
      (if x[0] == '"' then "\"\"" else [x[0]]) + (Double(x[1..]) + "\"" + rest)
  {
    var p := if x[0] == '"' then "\"\"" else [x[0]];
    var d := Double(x[1..]);
    assert Double(x) == p + d;
    Append3(p, d, "\"", rest);
  }

  lemma Append3(a: string, b: string, c: string, d: string)
    ensures a + b + c + d == a + (b + c + d)
  {
  }

  /** A doubled quote in front reads as one quote in front of the value. */
  lemma UnquoteQuoteStep(t: string, v: string, rest: string)
    requires Unquote(t) == Some((v, rest))
    ensures Unquote("\"\"" + t) == Some(("\"" + v, rest))
  {
    var s := "\"\"" + t;
    assert s[0] == '"' && s[1] == '"' && s[2..] == t;
  }

  /** Any other character in front is kept in front of the value. */
  lemma UnquoteCharStep(c: char, t: string, v: string, rest: string)
    requires c != '"'
    requires Unquote(t) == Some((v, rest))
    ensures Unquote([c] + t) == Some(([c] + v, rest))
  {
    var s := [c] + t;
    assert s[0] == c && s[1..] == t;
  }

  /** Reading an escaped field gives back the original value, whatever it holds. */
  lemma EscRoundTrip(x: string, rest: string)
    requires rest == [] || rest[0] != '"'
    ensures ReadField(Esc(x) + rest) == Some((x, rest))
  {
    assert (Esc(x) + rest)[1..] == Double(x) + "\"" + rest;
    UnquoteDouble(x, rest);
  }

  /** Reads one record: quoted fields separated by ",", up to a "\n" or the end. */
  function ReadRecord(s: string): (r: Option<(seq<string>, string)>)
    ensures r.Some? ==> |r.value.1| < |s|
    decreases |s|
  {
    match ReadField(s)
    case None => None
    case Some((v, rest)) =>
      if |rest| > 0 && rest[0] == ',' then
        match ReadRecord(rest[1..])
        case None => None
        case Some((vs, tail)) => Some(([v] + vs, tail))
      else if |rest| == 0 || rest[0] == '\n' then Some(([v], rest))
      else None
  }

  /** One CSV line: the escaped fields joined by ",". */
  function EncodeRecord(fields: seq<string>): string {
    Text.Join(seq(|fields|, i requires 0 <= i < |fields| => Esc(fields[i])), ",")
  }

  /** A line of escaped fields reads back as those fields, however many commas, quotes
      or line breaks the values hold. */
  lemma {:induction false} RecordRoundTrip(fields: seq<string>, rest: string)
    requires |fields| >= 1
    requires rest == [] || rest[0] == '\n'
    ensures ReadRecord(EncodeRecord(fields) + rest) == Some((fields, rest))
  {
    var escaped := seq(|fields|, i requires 0 <= i < |fields| => Esc(fields[i]));
    if |fields| == 1 {
      assert EncodeRecord(fields) == Esc(fields[0]);
      EscRoundTrip(fields[0], rest);
      assert fields == [fields[0]];
    } else {
      var tail := fields[1..];
      var escapedTail := seq(|tail|, i requires 0 <= i < |tail| => Esc(tail[i]));
      assert escaped[1..] == escapedTail;
      var after := "," + EncodeRecord(tail) + rest;
      assert EncodeRecord(fields) + rest == Esc(fields[0]) + after;
      EscRoundTrip(fields[0], after);
      assert after[1..] == EncodeRecord(tail) + rest;
      RecordRoundTrip(tail, rest);
      assert fields == [fields[0]] + tail;
    }
  }

  /** Reads "\n"-separated records up to the end of the text. */
  function ReadRecords(s: string): Option<seq<seq<string>>>
    decreases |s|
  {
    match ReadRecord(s)
    case None => None
    case Some((fields, rest)) =>
      if |rest| == 0 then Some([fields])
      else
        match ReadRecords(rest[1..])
        case None => None
        case Some(more) => Some([fields] + more)
  }

  /** Records as lines joined by "\n". */
  function EncodeRecords(records: seq<seq<string>>): string {
    Text.Join(seq(|records|, i requires 0 <= i < |records| => EncodeRecord(records[i])), "\n")
  }

  /** The encoded records read back as the same records. */
  lemma {:induction false} RecordsRoundTrip(records: seq<seq<string>>)
    requires |records| >= 1
    requires forall i :: 0 <= i < |records| ==> |records[i]| >= 1
    ensures ReadRecords(EncodeRecords(records)) == Some(records)
  {
    var lines := seq(|records|, i requires 0 <= i < |records| => EncodeRecord(records[i]));
    if |records| == 1 {
      assert EncodeRecords(records) == EncodeRecord(records[0]) + "";
      RecordRoundTrip(records[0], "");
      assert records == [records[0]];
    } else {
      var tail := records[1..];
      var tailLines := seq(|tail|, i requires 0 <= i < |tail| => EncodeRecord(tail[i]));
      assert lines[1..] == tailLines;
      var after := "\n" + EncodeRecords(tail);
      assert EncodeRecords(records) == EncodeRecord(records[0]) + after;
      RecordRoundTrip(records[0], after);
      assert after[1..] == EncodeRecords(tail);
      RecordsRoundTrip(tail);
      assert records == [records[0]] + tail;
    }
  }
}
