/** One contact-form submission: its validation (honeypot, required fields,
    e-mail syntax, in that order) and the eight-field row built from an
    accepted one. */
module Lead {
  import opened Email

  /** The raw field values of the form, honeypot included. Topic and budget
      come from select boxes and are carried as the strings they hold. */
  datatype Submission = Submission(
    name: string,
    email: string,
    company: string,
    topic: string,
    budget: string,
    message: string,
    honeypot: string)

  /** Why a submission is turned away. */
  datatype Rejection = Spam | MissingRequired | InvalidEmail

  datatype Verdict = Accept | Reject(reason: Rejection)

  /** The handler's guard chain: the first failing check decides. A required
      field counts as missing only when it is the empty string, so a value
      made of blanks passes this check. */
  function Validate(s: Submission): (v: Verdict)
    ensures v == Reject(Spam) <==> s.honeypot != ""
    ensures v == Reject(MissingRequired) <==>
              s.honeypot == "" && (s.name == "" || s.email == "" || s.message == "")
    ensures v == Reject(InvalidEmail) <==>
              s.honeypot == "" && s.name != "" && s.email != "" && s.message != ""
              && !RegexMatches(s.email)
    ensures v == Accept <==>
              s.honeypot == "" && s.name != "" && s.email != "" && s.message != ""
              && RegexMatches(s.email)
  {
    ValidEmailIsRegexMatch(s.email);
    if s.honeypot != "" then Reject(Spam)
    else if !(s.name != "" && s.email != "" && s.message != "") then Reject(MissingRequired)
    else if !ValidEmail(s.email) then Reject(InvalidEmail)
    else Accept
  }

  /** message.replace("\n", " "): every newline becomes one space. */
  function FlattenMessage(m: string): (r: string)
    ensures |r| == |m|
    ensures forall k :: 0 <= k < |m| ==> r[k] == if m[k] == '\n' then ' ' else m[k]
  {
    if m == [] then []
    else [if m[0] == '\n' then ' ' else m[0]] + FlattenMessage(m[1..])
  }

  /** The flattened message holds no newline and is unchanged by flattening again. */
  lemma FlattenMessageNoNewline(m: string)
    ensures '\n' !in FlattenMessage(m)
    ensures FlattenMessage(FlattenMessage(m)) == FlattenMessage(m)
    ensures '\n' !in m ==> FlattenMessage(m) == m
  {
  }

  /** The stored record, in the column order of the file. */
  datatype Row = Row(
    timestamp: string,
    sessionId: string,
    name: string,
    email: string,
    company: string,
    topic: string,
    budget: string,
    message: string)

  /** The column names written as the header line. */
  const Header: seq<string> :=
    ["timestamp", "session_id", "name", "email", "company", "topic", "budget", "message"]

  /** The row built from a submission; the clock reading and the session
      identifier are given by the caller. */
  function MakeRow(s: Submission, timestamp: string, sessionId: string): (r: Row)
    ensures r.timestamp == timestamp && r.sessionId == sessionId
    ensures r.name == s.name && r.email == s.email && r.company == s.company
    ensures r.topic == s.topic && r.budget == s.budget
    ensures |r.message| == |s.message| && '\n' !in r.message
    ensures forall k :: 0 <= k < |s.message| ==>
              r.message[k] == if s.message[k] == '\n' then ' ' else s.message[k]
  {
    FlattenMessageNoNewline(s.message);
    Row(timestamp, sessionId, s.name, s.email, s.company, s.topic, s.budget, FlattenMessage(s.message))
  }

  /** The value the record holds under a column name (the keys of the
      dictionary the handler builds). */
  function Column(r: Row, h: string): string
    requires h in Header
  {
    if h == "timestamp" then r.timestamp
    else if h == "session_id" then r.sessionId
    else if h == "name" then r.name
    else if h == "email" then r.email
    else if h == "company" then r.company
    else if h == "topic" then r.topic
    else if h == "budget" then r.budget
    else r.message
  }

  /** The row as the line of fields written under the header: one field per
      column, each under its own column name. */
  function Fields(r: Row): (f: seq<string>)
    ensures |f| == |Header|
    ensures forall k :: 0 <= k < |Header| ==> f[k] == Column(r, Header[k])
  {
    [r.timestamp, r.sessionId, r.name, r.email, r.company, r.topic, r.budget, r.message]
  }

  /** Distinct records give distinct lines: the line loses nothing. */
  lemma FieldsInjective(r1: Row, r2: Row)
    requires Fields(r1) == Fields(r2)
    ensures r1 == r2
  {
  }
}
