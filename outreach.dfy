/** scripts/generate_outreach.py: the first name read off a trainer's address,
    the outreach email built from a trainer's result, and the loop of `main`
    over the saved results. */
module Outreach {
  import opened Wrappers
  import opened Text
  import opened Records
  import opened Quotes
  import opened Cohorts
  import opened Assembly

  // ---------------------------------------------------------------- first name

  /** `s.split(sep)[0]`: the longest prefix of `s` without `sep`; when it is
      shorter than `s`, `sep` follows it. */
  function Before(s: string, sep: char): (r: string)
    ensures |r| <= |s| && r == s[..|r|]
    ensures sep !in r
    ensures |r| < |s| ==> s[|r|] == sep
  {
    if s == [] || s[0] == sep then [] else [s[0]] + Before(s[1..], sep)
  }

  /** A text without `sep` is its own first piece. */
  lemma {:induction false} BeforeAbsent(s: string, sep: char)
    requires sep !in s
    ensures Before(s, sep) == s
  {
    if s != [] {
      assert forall c :: c in s[1..] ==> c in s;
      BeforeAbsent(s[1..], sep);
    }
  }

  /** Cutting at `sep` keeps a leading piece that has no `sep` whole. */
  lemma {:induction false} BeforeConcat(head: string, tail: string, sep: char)
    requires sep !in head
    ensures Before(head + tail, sep) == head + Before(tail, sep)
  {
    if head == [] {
      assert head + tail == tail;
    } else {
      var s := head + tail;
      assert s[0] == head[0] != sep;
      assert s[1..] == head[1..] + tail;
      assert sep !in head[1..] by {
        assert forall c :: c in head[1..] ==> c in head;
      }
      BeforeConcat(head[1..], tail, sep);
      assert head == [head[0]] + head[1..];
    }
  }

  /** `s.capitalize()`: the first character in upper case, the rest in lower case. */
  function Capitalize(s: string): (r: string)
    ensures |r| == |s|
    ensures forall k :: 0 <= k < |s| ==> LowerChar(r[k]) == LowerChar(s[k])
  {
    if s == [] then [] else [UpperChar(s[0])] + Lower(s[1..])
  }

  /** A name already capitalized stays as it is. */
  lemma CapitalizeIdempotent(s: string)
    ensures Capitalize(Capitalize(s)) == Capitalize(s)
  {
    if s != [] {
      var c := Capitalize(s);
      var cc := Capitalize(c);
      assert cc[0] == UpperChar(UpperChar(s[0])) == c[0];
      forall k | 1 <= k < |s| ensures cc[k] == c[k] {
        assert cc[k] == LowerChar(c[k]) && c[k] == LowerChar(s[k]);
      }
    }
  }

  /** The characters an address is cut at: `@`, `.` and `_`. */
  predicate IsSeparator(c: char) {
    c == '@' || c == '.' || c == '_'
  }

  /** `username.split('.')[0].split('_')[0]` of `email.split('@')[0]`. */
  function FirstPart(email: string): string {
    Before(Before(Before(email, '@'), '.'), '_')
  }

  /** The piece `FirstPart` keeps is a prefix of the address without separators,
      ended by a separator or by the end of the address. */
  lemma FirstPartFacts(email: string)
    ensures var p := FirstPart(email);
      && |p| <= |email| && p == email[..|p|]
      && (forall k :: 0 <= k < |p| ==> !IsSeparator(p[k]))
      && (|p| < |email| ==> IsSeparator(email[|p|]))
  {
    var username := Before(email, '@');
    var b := Before(username, '.');
    var p := Before(b, '_');
    forall k | 0 <= k < |p| ensures !IsSeparator(p[k]) {
      assert p[k] == b[k] == username[k];
      assert p[k] in p && b[k] in b && username[k] in username;
    }
    if |p| < |email| {
      if |p| < |b| {
        assert email[|p|] == b[|p|] == '_';
      } else if |b| < |username| {
        assert email[|b|] == username[|b|] == '.';
      } else {
        assert email[|username|] == '@';
      }
    }
  }

  /** `extract_first_name`: the part of the address before `@`, cut at the
      first `.` or `_` and capitalized. It holds no separator, spells the
      address's opening characters up to case, and ends where a separator or
      the address does. */
  function ExtractFirstName(email: string): (name: string)
    ensures |name| <= |email|
    ensures forall k :: 0 <= k < |name| ==> !IsSeparator(name[k])
    ensures forall k :: 0 <= k < |name| ==> LowerChar(name[k]) == LowerChar(email[k])
    ensures |name| < |email| ==> IsSeparator(email[|name|])
  {
    FirstPartFacts(email);
    Capitalize(FirstPart(email))
  }

  /** The first name of a `first.last@domain` address is the capitalized `first`,
      whichever separator ends it. */
  lemma FirstNameOfAddress(first: string, sep: char, rest: string)
    requires IsSeparator(sep)
    requires forall k :: 0 <= k < |first| ==> !IsSeparator(first[k])
    ensures ExtractFirstName(first + [sep] + rest) == Capitalize(first)
  {
    var t := [sep] + rest;
    assert first + [sep] + rest == first + t;
    assert '@' !in first && '.' !in first && '_' !in first by {
      forall k | 0 <= k < |first| ensures !IsSeparator(first[k]) { }
    }
    var u1 := Before(t, '@');
    var u2 := Before(u1, '.');
    var u3 := Before(u2, '_');
    assert u3 == [] by {
      if sep == '@' {
        assert u1 == [];
      } else if sep == '.' {
        assert u1 == [sep] + Before(rest, '@');
        assert u2 == [];
      } else {
        assert u1 == [sep] + Before(rest, '@');
        assert u2 == [sep] + Before(u1[1..], '.');
      }
    }
    BeforeConcat(first, t, '@');
    BeforeConcat(first, u1, '.');
    BeforeConcat(first, u2, '_');
    assert FirstPart(first + t) == first + u3 == first;
  }

  /** Reading the first name off an extracted first name changes nothing. */
  lemma FirstNameIdempotent(email: string)
    ensures ExtractFirstName(ExtractFirstName(email)) == ExtractFirstName(email)
  {
    var name := ExtractFirstName(email);
    assert '@' !in name && '.' !in name && '_' !in name by {
      forall k | 0 <= k < |name| ensures !IsSeparator(name[k]) { }
    }
    BeforeAbsent(name, '@');
    BeforeAbsent(name, '.');
    BeforeAbsent(name, '_');
    CapitalizeIdempotent(FirstPart(email));
  }

  /** Before capitalization, the first name is the address's longest opening
      stretch without `@`, `.` or `_`. */
  lemma FirstNameIsPrefix(email: string)
    ensures var n := |ExtractFirstName(email)|;
      && ExtractFirstName(email) == Capitalize(email[..n])
      && (forall k :: 0 <= k < n ==> !IsSeparator(email[k]))
      && (n < |email| ==> IsSeparator(email[n]))
  {
    FirstPartFacts(email);
  }

  /** An address without `@`, `.` or `_` is capitalized whole. */
  lemma FirstNameWithoutSeparator(email: string)
    requires forall k :: 0 <= k < |email| ==> !IsSeparator(email[k])
    ensures ExtractFirstName(email) == Capitalize(email)
  {
    assert '@' !in email && '.' !in email && '_' !in email by {
      forall k | 0 <= k < |email| ensures !IsSeparator(email[k]) { }
    }
    BeforeAbsent(email, '@');
    BeforeAbsent(email, '.');
    BeforeAbsent(email, '_');
  }

  // ---------------------------------------------------------------- the email

  /** One entry of `outreach_ready.json`; `trainerName` holds the first name and
      `trainerEmail` the full address, as the source names them. */
  datatype Email = Email(
    trainerName: string,
    trainerEmail: string,
    subject: string,
    body: string,
    evidenceQuote: string,
    evidenceRowId: string,
    generatedAt: string)

  const SubjectLead: string := "Your training impact is showing up in the feedback, "

  /** The subject line addressed to `firstName`. */
  function Subject(firstName: string): string {
    SubjectLead + firstName + "!"
  }

  const Greeting: string := "Hi "

  /** What ends the greeting line. The two fixed paragraphs the letter has between
      the greeting and the quoted evidence are not part of this model. */
  const BodyIntro: string := ",\n\n"

  /** What separates the quoted evidence from the rest of the letter, whose fixed
      paragraphs and sign-off are not part of this model. */
  const BodyOutro: string := "\n\n"

  /** `quote` between double quotation marks. */
  function Quoted(quote: string): string {
    "\"" + quote + "\""
  }

  /** The body addressed to `firstName` quoting `quote`. */
  function Body(firstName: string, quote: string): string {
    Greeting + firstName + BodyIntro + Quoted(quote) + BodyOutro
  }

  /** For one reader, different quotes give different bodies: the quote can be
      read back from the body. */
  lemma BodyCarriesQuote(firstName: string, q1: string, q2: string)
    requires Body(firstName, q1) == Body(firstName, q2)
    ensures q1 == q2
  {
    var n := |Greeting + firstName + BodyIntro| + 1;
    assert |q1| == |q2|;
    assert q1 == Body(firstName, q1)[n..n + |q1|];
    assert q2 == Body(firstName, q2)[n..n + |q2|];
  }

  /** `generate_email`: addressed to the first name of the trainer's address,
      quoting the trainer's first quote and citing its row id; `now` stands for
      `datetime.now().isoformat()`. The source indexes `quotes[0]`, so a trainer
      without quotes is outside its domain. */
  function GenerateEmail(trainer: TrainerResult, now: string): (e: Email)
    requires |trainer.quotes| > 0
    ensures e.trainerName == ExtractFirstName(trainer.trainerName)
    ensures e.trainerEmail == trainer.trainerName
    ensures e.evidenceQuote == trainer.quotes[0].text && e.evidenceRowId == trainer.quotes[0].rowId
    ensures e.generatedAt == now
    ensures e.subject == Subject(e.trainerName) && e.body == Body(e.trainerName, e.evidenceQuote)
  {
    var firstName := ExtractFirstName(trainer.trainerName);
    var evidence := trainer.quotes[0];
    Email(firstName, trainer.trainerName, Subject(firstName), Body(firstName, evidence.text),
      evidence.text, evidence.rowId, now)
  }

  /** The subject names the reader, the body opens by greeting them, and the
      evidence quote appears in the body between double quotation marks. */
  lemma EmailCarriesEvidence(trainer: TrainerResult, now: string)
    requires |trainer.quotes| > 0
    ensures var e := GenerateEmail(trainer, now);
      && Contains(e.subject, e.trainerName)
      && Greeting + e.trainerName <= e.body
      && Contains(e.body, Quoted(e.evidenceQuote))
  {
    var e := GenerateEmail(trainer, now);
    ContainsInside(SubjectLead, e.trainerName, "!");
    ContainsInside(Greeting + e.trainerName + BodyIntro, Quoted(e.evidenceQuote), BodyOutro);
  }

  // ---------------------------------------------------------------- the run

  /** What the loop of `main` leaves in `outreach_emails`: one email per trainer,
      in the saved order. A trainer without quotes raises `IndexError`, which ends
      the run before anything is written (`None`). */
  function Outreach(trainers: seq<TrainerResult>, now: string): (emails: Option<seq<Email>>)
    ensures emails.None? <==> exists i :: 0 <= i < |trainers| && trainers[i].quotes == []
    ensures emails.Some? ==> |emails.value| == |trainers|
  {
    if forall i :: 0 <= i < |trainers| ==> |trainers[i].quotes| > 0
    then Some(seq(|trainers|, i requires 0 <= i < |trainers| && |trainers[i].quotes| > 0 =>
      GenerateEmail(trainers[i], now)))
    else None
  }

  /** `main`'s loop, appending to `outreach_emails`. */
  method GenerateOutreach(trainers: seq<TrainerResult>, now: string) returns (emails: Option<seq<Email>>)
    ensures emails == Outreach(trainers, now)
  {
    var outreachEmails: seq<Email> := [];
    for i := 0 to |trainers|
      invariant forall j :: 0 <= j < i ==> |trainers[j].quotes| > 0
      invariant |outreachEmails| == i
      invariant forall j :: 0 <= j < i ==> outreachEmails[j] == GenerateEmail(trainers[j], now)
    {
      if |trainers[i].quotes| == 0 {
        assert !(|trainers[i].quotes| > 0);
        return None;
      }
      var emailData := GenerateEmail(trainers[i], now);
      outreachEmails := outreachEmails + [emailData];
    }
    emails := Some(outreachEmails);
    assert outreachEmails == Outreach(trainers, now).value;
  }

  /** One email per trainer, in the order of the saved results: the `i`-th goes
      to the address of the `i`-th trainer, greets its first name and quotes its
      first quote. */
  lemma OutreachFollowsResults(trainers: seq<TrainerResult>, now: string, i: nat)
    requires Outreach(trainers, now).Some? && i < |trainers|
    ensures |Outreach(trainers, now).value| == |trainers|
    ensures var e := Outreach(trainers, now).value[i];
      && |trainers[i].quotes| > 0
      && e.trainerEmail == trainers[i].trainerName
      && e.trainerName == ExtractFirstName(trainers[i].trainerName)
      && e.evidenceQuote == trainers[i].quotes[0].text
      && e.evidenceRowId == trainers[i].quotes[0].rowId
  {
    assert |trainers[i].quotes| > 0;
  }

  /** Run after the analysis, every email goes to a trainer of the input, and its
      evidence row id is `R` and the 1-based position of a dated row of that very
      trainer. */
  lemma OutreachEvidenceTraces(raws: seq<RawRow>, textCols: seq<string>, frameCols: set<string>,
                               now: string, i: nat)
    requires Outreach(Results(raws, textCols, frameCols), now).Some?
    requires i < |Outreach(Results(raws, textCols, frameCols), now).value|
    ensures var e := Outreach(Results(raws, textCols, frameCols), now).value[i];
      exists k :: (0 <= k < |raws| && e.evidenceRowId == RowId(k + 1)
        && raws[k].trainer == Some(e.trainerEmail) && raws[k].created.Some?)
  {
    var results := Results(raws, textCols, frameCols);
    var q := results[i].quotes[0];
    EvidenceTracesToInput(raws, textCols, frameCols, i, q);
  }

  /** Run after the analysis, the outreach is written if and only if every kept
      trainer has qualifying text in one of its valid rows; otherwise the
      `quotes[0]` of a trainer without quotes ends the run. */
  lemma OutreachNeedsPraise(raws: seq<RawRow>, textCols: seq<string>, frameCols: set<string>, now: string)
    ensures var results := Results(raws, textCols, frameCols);
      Outreach(results, now).Some? <==>
        forall i :: 0 <= i < |results| ==>
          HasPraise(GroupOf(ValidRows(raws), results[i].trainerName), textCols, frameCols)
  {
    var results := Results(raws, textCols, frameCols);
    forall i | 0 <= i < |results|
      ensures |results[i].quotes| > 0 <==>
        HasPraise(GroupOf(ValidRows(raws), results[i].trainerName), textCols, frameCols)
    {
      ResultQuotesPresentIffPraise(raws, textCols, frameCols, i);
    }
  }
}
