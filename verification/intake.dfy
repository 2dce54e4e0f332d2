/** The submit branch of the contact form: validate, build the row, append it
    to leads.csv. */
module Intake {
  import opened Email
  import opened Lead
  import opened LeadCsv

  /** One press of the Send button: the form values, the UTC clock reading
      and the per-session identifier (both supplied from outside). */
  datatype Event = Event(sub: Submission, timestamp: string, sessionId: string)

  /** The line an accepted event writes. */
  function LineOf(e: Event): seq<string> {
    Fields(MakeRow(e.sub, e.timestamp, e.sessionId))
  }

  /** The effect of one submission on the file. */
  function Step(c: Csv, e: Event): (r: Csv)
    ensures Validate(e.sub) != Accept ==> r == c
    ensures e.sub.honeypot != "" ==> r == c
    ensures WellFormed(c) ==> WellFormed(r)
    ensures WellFormed(c) ==>
              DataRows(r) == DataRows(c) + (if Validate(e.sub) == Accept then [LineOf(e)] else [])
  {
    if Validate(e.sub) == Accept then Appended(c, LineOf(e)) else c
  }

  /** The submit handler: reports the verdict and, only on acceptance,
      appends the row. */
  method HandleSubmit(store: LeadStore, s: Submission, timestamp: string, sessionId: string)
    returns (v: Verdict)
    requires store.Valid()
    modifies store
    ensures v == Validate(s)
    ensures store.Valid()
    ensures store.State() == Step(old(store.State()), Event(s, timestamp, sessionId))
  {
    if s.honeypot != "" {
      v := Reject(Spam);
    } else if !(s.name != "" && s.email != "" && s.message != "") {
      v := Reject(MissingRequired);
    } else if !ValidEmail(s.email) {
      v := Reject(InvalidEmail);
    } else {
      var row := MakeRow(s, timestamp, sessionId);
      store.Append(row);
      v := Accept;
    }
  }

  /** The file after a sequence of submissions, starting with no file. */
  function Replay(events: seq<Event>): Csv {
    if events == [] then Absent
    else Step(Replay(events[..|events| - 1]), events[|events| - 1])
  }

  /** The lines of the accepted submissions, in submission order. */
  function AcceptedLines(events: seq<Event>): seq<seq<string>> {
    if events == [] then []
    else
      var e := events[|events| - 1];
      AcceptedLines(events[..|events| - 1]) + (if Validate(e.sub) == Accept then [LineOf(e)] else [])
  }

  /** An accepted line is never the header line: its email field holds an
      '@', and the column name "email" does not. */
  lemma AcceptedLineIsNotHeader(e: Event)
    requires Validate(e.sub) == Accept
    ensures LineOf(e) != Header
  {
  }

  /** No accepted line of a sequence of submissions is the header line. */
  lemma {:induction false} AcceptedLinesHaveNoHeader(events: seq<Event>)
    ensures forall k :: 0 <= k < |AcceptedLines(events)| ==> AcceptedLines(events)[k] != Header
  {
    if events != [] {
      var init, e := events[..|events| - 1], events[|events| - 1];
      AcceptedLinesHaveNoHeader(init);
      if Validate(e.sub) == Accept {
        AcceptedLineIsNotHeader(e);
      }
    }
  }

  /** From no file, the accepted submissions leave one header line followed by
      exactly their lines in submission order, and the header line occurs
      nowhere else; rejected ones leave no trace, and the file is created only
      by the first accepted one. */
  lemma {:induction false} ReplayFromNoFile(events: seq<Event>)
    ensures WellFormed(Replay(events))
    ensures Replay(events).Absent? <==> AcceptedLines(events) == []
    ensures Replay(events).File? ==> Replay(events).lines == [Header] + AcceptedLines(events)
    ensures Replay(events).File? ==>
              forall k :: 1 <= k < |Replay(events).lines| ==> Replay(events).lines[k] != Header
  {
    AcceptedLinesHaveNoHeader(events);
    if events != [] {
      var init, e := events[..|events| - 1], events[|events| - 1];
      ReplayFromNoFile(init);
      var c := Replay(init);
      if Validate(e.sub) == Accept && c.Absent? {
        assert AcceptedLines(init) == [];
      }
    }
  }

  /** The handler's scenarios: a clean submission is stored with the other
      fields as given; the same one with the honeypot filled in, or with no
      name, leaves the store as it was. */
  lemma Scenarios(c: Csv, timestamp: string, sessionId: string, topic: string, budget: string)
    ensures
      var ok := Submission("A", "a@b.com", "", topic, budget, "hi", "");
      Step(Absent, Event(ok, timestamp, sessionId))
        == File([Header, [timestamp, sessionId, "A", "a@b.com", "", topic, budget, "hi"]])
    ensures
      var spam := Submission("A", "a@b.com", "", topic, budget, "hi", "spam");
      Validate(spam) == Reject(Spam) && Step(c, Event(spam, timestamp, sessionId)) == c
    ensures
      var noName := Submission("", "a@b.com", "", topic, budget, "hi", "");
      Validate(noName) == Reject(MissingRequired) && Step(c, Event(noName, timestamp, sessionId)) == c
    ensures
      var blank := Submission(" ", "a@b.com", "", topic, budget, "hi", "");
      Validate(blank) == Accept
  {
    Examples();
    assert FlattenMessage("hi") == "hi";
  }
}
