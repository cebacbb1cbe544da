/** `generateSalesEmail`: the model's reply for a first outreach email is cut off at its
    first sign-off phrase, given the fixed signature, and split into a subject (the first
    non-blank line) and a body (the other non-blank lines). The reply is an input. */
module SalesEmail {
  import Seqs
  import opened Text
  import opened Json

  /** The job language is Dutch only when it is exactly the string "nl". */
  predicate Dutch(language: Value) {
    language == JStr("nl")
  }

  /** The last line of both signatures. */
  const SignOff: string := "Teun \U{2013} CivicAi Solutions"

  /** The first line of the signature. */
  function Greeting(language: Value): string {
    if Dutch(language) then "Met vriendelijke groet," else "Best regards,"
  }

  /** The fixed signature: the greeting, a line break and the sign-off. */
  function Signature(language: Value): string {
    Greeting(language) + "\n" + SignOff
  }

  function DefaultSubject(language: Value): string {
    if Dutch(language) then "ContractGuard AI \U{2013} contracten sneller en veiliger"
    else "ContractGuard AI \U{2013} faster, safer contracts"
  }

  /* ---------------------------------------------------------------------------- */
  /*  Sign-off phrases                                                             */
  /* ---------------------------------------------------------------------------- */

  /** `s` holds `m` at position `k`, ignoring the case of ASCII letters (`m` is lower
      case). Under the `i` flag a non-ASCII character never matches an ASCII letter,
      so lower-casing the ASCII letters is the whole of the case folding here. */
  predicate MatchesAt(s: string, k: nat, m: string) {
    k + |m| <= |s| && forall i :: 0 <= i < |m| ==> ToLowerChar(s[k + i]) == m[i]
  }

  /** One of the sign-off phrases the cut looks for starts at position `k`. The optional
      "en" after "groet" does not move the cut, so it is left out. */
  predicate SignOffAt(s: string, k: nat) {
    || MatchesAt(s, k, "best regards")
    || MatchesAt(s, k, "kind regards")
    || MatchesAt(s, k, "regards")
    || MatchesAt(s, k, "met vriendelijke groet")
  }

  /** The leftmost position at or after `p` where a sign-off phrase starts, or `|s|`. */
  function CutFrom(s: string, p: nat): (q: nat)
    requires p <= |s|
    ensures p <= q <= |s|
    ensures q < |s| ==> SignOffAt(s, q)
    decreases |s| - p
  {
    if p == |s| || SignOffAt(s, p) then p else CutFrom(s, p + 1)
  }

  /** The cut is the leftmost phrase at or after `p`: none starts before it. */
  lemma {:induction false} CutFromIsLeftmost(s: string, p: nat)
    requires p <= |s|
    ensures forall k :: p <= k < CutFrom(s, p) ==> !SignOffAt(s, k)
    decreases |s| - p
  {
    if p < |s| && !SignOffAt(s, p) {
      CutFromIsLeftmost(s, p + 1);
    }
  }

  /** The reply with everything from its first sign-off phrase on removed, then trimmed. */
  function StripSignOff(text: string): (r: string)
    ensures Trimmed(r) && |r| <= |text|
  {
    Trim(text[..CutFrom(text, 0)])
  }

  /** A match inside a prefix is a match in the whole string. */
  lemma MatchInPrefix(s: string, c: nat, k: nat, m: string)
    requires c <= |s|
    requires MatchesAt(s[..c], k, m)
    ensures MatchesAt(s, k, m)
  {
    forall i | 0 <= i < |m|
      ensures ToLowerChar(s[k + i]) == m[i]
    {
      assert s[..c][k + i] == s[k + i];
    }
  }

  /** A match inside an infix `t` of `s` is a match in `s`, shifted. */
  lemma MatchInInfix(s: string, t: string, a: nat, k: nat, m: string)
    requires a + |t| <= |s| && t == s[a..a + |t|]
    requires MatchesAt(t, k, m)
    ensures MatchesAt(s, a + k, m)
  {
    forall i | 0 <= i < |m|
      ensures ToLowerChar(s[a + k + i]) == m[i]
    {
      assert t[k + i] == s[a + k + i];
    }
  }

  /** A sign-off phrase inside an infix `t` of `s` is one in `s`, shifted. */
  lemma SignOffInInfix(s: string, t: string, a: nat, k: nat)
    requires a + |t| <= |s| && t == s[a..a + |t|]
    ensures SignOffAt(t, k) ==> SignOffAt(s, a + k)
  {
    if MatchesAt(t, k, "best regards") {
      MatchInInfix(s, t, a, k, "best regards");
    }
    if MatchesAt(t, k, "kind regards") {
      MatchInInfix(s, t, a, k, "kind regards");
    }
    if MatchesAt(t, k, "regards") {
      MatchInInfix(s, t, a, k, "regards");
    }
    if MatchesAt(t, k, "met vriendelijke groet") {
      MatchInInfix(s, t, a, k, "met vriendelijke groet");
    }
  }

  /** The stripped reply holds no sign-off phrase anywhere. */
  lemma StrippedHasNoSignOff(text: string)
    ensures forall k :: 0 <= k < |StripSignOff(text)| ==> !SignOffAt(StripSignOff(text), k)
  {
    var c := CutFrom(text, 0);
    assert StripSignOff(text) == Trim(text[..c]);
    NoSignOffInTrimmedCut(text, c);
  }

  /** The text before the cut, trimmed, is free of sign-off phrases. */
  lemma NoSignOffInTrimmedCut(s: string, c: nat)
    requires c == CutFrom(s, 0)
    ensures forall k :: 0 <= k < |Trim(s[..c])| ==> !SignOffAt(Trim(s[..c]), k)
  {
    TrimOfPrefixIsInfix(s, c);
    NoSignOffInInfix(s, Trim(s[..c]), LeadingSpace(s[..c]), c);
  }

  /** An infix of the stretch before the first sign-off phrase is free of them. */
  lemma NoSignOffInInfix(s: string, t: string, a: nat, c: nat)
    requires c == CutFrom(s, 0)
    requires a + |t| <= c && t == s[a..a + |t|]
    ensures forall k :: 0 <= k < |t| ==> !SignOffAt(t, k)
  {
    CutFromIsLeftmost(s, 0);
    forall k | 0 <= k < |t|
      ensures !SignOffAt(t, k)
    {
      assert !SignOffAt(s, a + k);
      SignOffInInfix(s, t, a, k);
    }
  }

  /** A reply without sign-off phrases is only trimmed. */
  lemma StripWithoutSignOff(text: string)
    requires forall k :: 0 <= k < |text| ==> !SignOffAt(text, k)
    ensures StripSignOff(text) == Trim(text)
  {
    assert text[..CutFrom(text, 0)] == text;
  }

  /* ---------------------------------------------------------------------------- */
  /*  Subject and body                                                             */
  /* ---------------------------------------------------------------------------- */

  /** A line `trim` does not empty. */
  predicate NonBlank(line: string) {
    Trim(line) != []
  }

  /** The `replace` of a leading `subject[:\-]\s*` pattern under the `i` flag: one leading
      "subject:" or "subject-", in any case, and the white space after it removed. */
  function StripSubjectPrefix(line: string): (r: string)
    ensures |r| <= |line|
    ensures r == line || (|line| >= 8 && MatchesAt(line, 0, "subject") && (line[7] == ':' || line[7] == '-') && r == TrimStart(line[8..]))
  {
    if |line| >= 8 && MatchesAt(line, 0, "subject") && (line[7] == ':' || line[7] == '-')
    then TrimStart(line[8..])
    else line
  }

  /** A line written as "Subject: ..." gives back what follows, without its leading
      white space. */
  lemma SubjectPrefixRemoved(s: string)
    ensures StripSubjectPrefix("Subject: " + s) == TrimStart(s)
  {
    SubjectLabelMatches(s);
    assert TrimStart([' '] + s) == TrimStart(s) by {
      assert ([' '] + s)[1..] == s;
    }
  }

  /** "Subject: " in front of `s` is a match of the label, a colon, and a space before `s`. */
  lemma SubjectLabelMatches(s: string)
    ensures var line := "Subject: " + s;
      |line| >= 8 && MatchesAt(line, 0, "subject") && line[7] == ':' && line[8..] == [' '] + s
  {
    var line := "Subject: " + s;
    forall i | 0 <= i < 7
      ensures ToLowerChar(line[i]) == "subject"[i]
    {
      assert line[i] == "Subject: "[i];
    }
    assert line[7] == "Subject: "[7];
    assert line[8..] == [' '] + s;
  }

  /** The reply with the signature put after a blank line. */
  function Signed(stripped: string, language: Value): string {
    stripped + "\n\n" + Signature(language)
  }

  /** The non-blank lines of the signed text. */
  function Lines(text: string): seq<string> {
    Seqs.Filter(Split(text, '\n'), NonBlank)
  }

  datatype Email = Email(subject: string, body: string)

  /** `generateSalesEmail` after the model call; `content` is the reply (`""` for none). */
  function GenerateSalesEmail(language: Value, content: string): (e: Email)
  {
    var text := Signed(StripSignOff(content), language);
    var lines := Lines(text);
    var firstLine := if |lines| > 0 then lines[0] else "";
    var rest := Trim(Join(if |lines| > 0 then lines[1..] else [], "\n"));
    var subject := Trim(StripSubjectPrefix(firstLine));
    if subject == [] || rest == [] then Email(DefaultSubject(language), text)
    else Email(subject, rest)
  }

  /* ---------------------------------------------------------------------------- */
  /*  Facts about the fixed strings                                                */
  /* ---------------------------------------------------------------------------- */

  /** The signed text splits into the stripped reply's lines, an empty line, the
      greeting and the sign-off. */
  lemma SplitSignedWith(x: string, g: string, so: string)
    requires '\n' !in g && '\n' !in so
    ensures Split(x + "\n\n" + g + "\n" + so, '\n') == Split(x, '\n') + ["", g, so]
  {
    assert x + "\n\n" + g + "\n" + so == ((x + ['\n'] + []) + ['\n'] + g) + ['\n'] + so;
    SplitAppend(x, '\n', []);
    SplitAppend(x + ['\n'] + [], '\n', g);
    SplitAppend((x + ['\n'] + []) + ['\n'] + g, '\n', so);
  }

  /** Of those, the non-blank lines: the reply's own, then the two signature lines. */
  lemma LinesWith(x: string, g: string, so: string)
    requires '\n' !in g && '\n' !in so && NonBlank(g) && NonBlank(so)
    ensures Lines(x + "\n\n" + g + "\n" + so) == Lines(x) + [g, so]
  {
    var parts := Split(x, '\n');
    var text := x + "\n\n" + g + "\n" + so;
    assert Split(text, '\n') == parts + ["", g, so] by {
      SplitSignedWith(x, g, so);
    }
    assert !NonBlank("");
    Seqs.FilterEndDropKeepKeep(parts, "", g, so, NonBlank);
  }

  /** The body lines joined and trimmed end with the last line when it is solid at both
      ends. */
  lemma RestWith(head: seq<string>, g: string, so: string)
    requires |so| > 0 && !IsSpace(so[0]) && !IsSpace(so[|so| - 1])
    ensures var rest := Trim(Join(head + [g, so], "\n"));
      rest != [] && EndsWith(rest, so)
  {
    assert head + [g, so] == (head + [g]) + [so];
    JoinAppend(head + [g], so, "\n");
    var a := Join(head + [g], "\n") + "\n";
    TrimBeforeSolid(a, so);
    assert Join(head + [g], "\n") + "\n" + so == a + so;
  }

  lemma SignOffFacts()
    ensures |SignOff| > 0 && '\n' !in SignOff && !IsSpace(SignOff[0]) && !IsSpace(SignOff[|SignOff| - 1])
    ensures NonBlank(SignOff)
  {
    assert '\n' !in SignOff by {
      forall i | 0 <= i < |SignOff|
        ensures SignOff[i] != '\n'
      {
      }
    }
    assert NonBlank(SignOff) by {
      assert Trimmed(SignOff);
      TrimOfTrimmed(SignOff);
    }
  }

  lemma GreetingFacts(language: Value)
    ensures |Greeting(language)| > 0 && '\n' !in Greeting(language)
    ensures !IsSpace(Greeting(language)[0]) && !IsSpace(Greeting(language)[|Greeting(language)| - 1])
    ensures StripSubjectPrefix(Greeting(language)) == Greeting(language)
    ensures NonBlank(Greeting(language))
  {
    var g := Greeting(language);
    assert '\n' !in g by {
      forall i | 0 <= i < |g|
        ensures g[i] != '\n'
      {
      }
    }
    assert StripSubjectPrefix(g) == g by {
      assert ToLowerChar(g[0]) != "subject"[0];
    }
    assert NonBlank(g) by {
      assert Trimmed(g);
      TrimOfTrimmed(g);
    }
  }

  /** The signed text, spelled out. */
  lemma SignedParts(x: string, language: Value)
    ensures Signed(x, language) == x + "\n\n" + Greeting(language) + "\n" + SignOff
    ensures EndsWith(Signed(x, language), SignOff)
  {
    var t := Signed(x, language);
    assert t == (x + "\n\n" + Greeting(language) + "\n") + SignOff;
  }

  /** The non-blank lines of the signed text end with the greeting and the sign-off. */
  lemma LinesOfSigned(x: string, language: Value)
    ensures Lines(Signed(x, language)) == Lines(x) + [Greeting(language), SignOff]
  {
    SignOffFacts();
    GreetingFacts(language);
    SignedParts(x, language);
    LinesWith(x, Greeting(language), SignOff);
  }

  /* ---------------------------------------------------------------------------- */
  /*  Properties                                                                   */
  /* ---------------------------------------------------------------------------- */

  /** Lines that end with a greeting and a solid sign-off leave a body after the first
      line, ending with the sign-off. */
  lemma RestOfLines(head: seq<string>, g: string, so: string)
    requires |so| > 0 && !IsSpace(so[0]) && !IsSpace(so[|so| - 1])
    ensures var lines := head + [g, so];
      var rest := Trim(Join(lines[1..], "\n"));
      rest != [] && EndsWith(rest, so)
  {
    var lines := head + [g, so];
    if head == [] {
      assert lines[1..] == [so];
      assert Join([so], "\n") == so;
      TrimBeforeSolid([], so);
      assert [] + so == so;
    } else {
      assert lines[1..] == head[1..] + [g, so];
      RestWith(head[1..], g, so);
    }
  }

  /** After the first line there is always a body, and it ends with the sign-off. */
  lemma RestOfSigned(x: string, language: Value)
    ensures var lines := Lines(Signed(x, language));
      && |lines| >= 2
      && var rest := Trim(Join(lines[1..], "\n"));
      && rest != [] && EndsWith(rest, SignOff)
  {
    LinesOfSigned(x, language);
    SignOffFacts();
    RestOfLines(Lines(x), Greeting(language), SignOff);
  }

  lemma DefaultSubjectFacts(language: Value)
    ensures DefaultSubject(language) != []
  {
  }

  /** The subject and the body are never empty and the body always ends with the
      sign-off line. The fallback is taken exactly when the first line is blank once its
      "subject:" prefix is gone: the empty-body half of its guard is dead. */
  lemma EmailIsSigned(language: Value, content: string)
    ensures var e := GenerateSalesEmail(language, content);
      && e.subject != [] && e.body != [] && EndsWith(e.body, SignOff)
    ensures var text := Signed(StripSignOff(content), language);
      var lines := Lines(text);
      var e := GenerateSalesEmail(language, content);
      && |lines| >= 2
      && var subject := Trim(StripSubjectPrefix(lines[0]));
      && (subject == [] ==> e == Email(DefaultSubject(language), text))
      && (subject != [] ==> e == Email(subject, Trim(Join(lines[1..], "\n"))))
  {
    var stripped := StripSignOff(content);
    RestOfSigned(stripped, language);
    SignedParts(stripped, language);
    DefaultSubjectFacts(language);
  }

  /** An empty reply gives the greeting as subject and the sign-off as body: the
      fallback meant for it is not reached. */
  lemma EmptyReplySubjectIsGreeting(language: Value)
    ensures GenerateSalesEmail(language, "") == Email(Greeting(language), SignOff)
  {
    var lines := Lines(Signed(StripSignOff(""), language));
    EmptyReplyLines(language);
    assert lines[0] == Greeting(language) && lines[1..] == [SignOff];
    SignOffIsBody();
    GreetingIsSubject(language);
    EmailIsSigned(language, "");
  }

  /** The signed empty reply has just the two signature lines. */
  lemma EmptyReplyLines(language: Value)
    ensures Lines(Signed(StripSignOff(""), language)) == [Greeting(language), SignOff]
  {
    StripEmpty();
    LinesOfSigned("", language);
    NoLinesInEmpty();
    assert [] + [Greeting(language), SignOff] == [Greeting(language), SignOff];
  }

  /** Stripping the empty reply leaves it empty. */
  lemma StripEmpty()
    ensures StripSignOff("") == ""
  {
    assert CutFrom("", 0) == 0;
  }

  /** The empty text has no non-blank line. */
  lemma NoLinesInEmpty()
    ensures Lines("") == []
  {
    SplitEmpty('\n');
    Seqs.FilterCons("", [], NonBlank);
    assert !NonBlank("");
  }

  /** The sign-off line alone, joined and trimmed, is itself. */
  lemma SignOffIsBody()
    ensures Trim(Join([SignOff], "\n")) == SignOff != []
  {
    assert Join([SignOff], "\n") == SignOff;
    SignOffFacts();
    TrimOfTrimmed(SignOff);
  }

  /** The greeting line, as a subject line, is kept whole. */
  lemma GreetingIsSubject(language: Value)
    ensures Trim(StripSubjectPrefix(Greeting(language))) == Greeting(language) != []
  {
    GreetingFacts(language);
    TrimOfTrimmed(Greeting(language));
  }
}
