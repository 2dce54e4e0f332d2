/** leads.csv: created with a header line by the first accepted submission,
    then only ever appended to. Lines are modelled as sequences of fields;
    the CSV text encoding is not part of this model. */
module LeadCsv {
  import opened Lead

  /** What the file system holds under leads.csv. */
  datatype Csv = Absent | File(lines: seq<seq<string>>)

  /** The store invariant: no file, or the header line followed by data lines
      of one field per column. */
  predicate WellFormed(c: Csv) {
    c.Absent? ||
    (|c.lines| >= 1 && c.lines[0] == Header &&
     forall k :: 1 <= k < |c.lines| ==> |c.lines[k]| == |Header|)
  }

  /** The data lines under the header, oldest first. */
  function DataRows(c: Csv): seq<seq<string>> {
    if c.Absent? || c.lines == [] then [] else c.lines[1..]
  }

  /** Writing one line: a missing file is created with the header and the
      line; an existing file gets the line at its end and nothing else. */
  function Appended(c: Csv, line: seq<string>): (r: Csv)
    ensures r.File?
    ensures c.Absent? ==> |r.lines| == 2 && r.lines[0] == Header && r.lines[1] == line
    ensures c.File? ==> |r.lines| == |c.lines| + 1 && r.lines[..|c.lines|] == c.lines
                        && r.lines[|c.lines|] == line
    ensures WellFormed(c) && |line| == |Header| ==>
              WellFormed(r) && DataRows(r) == DataRows(c) + [line]
  {
    match c
    case Absent => File([Header, line])
    case File(lines) =>
      assert lines != [] ==> (lines + [line])[1..] == lines[1..] + [line];
      File(lines + [line])
  }

  /** The store as the handler sees it: whether the file exists, and its lines. */
  class LeadStore {
    var present: bool
    var lines: seq<seq<string>>

    function State(): Csv
      reads this
    {
      if present then File(lines) else Absent
    }

    ghost predicate Valid()
      reads this
    {
      WellFormed(State()) && (!present ==> lines == [])
    }

    /** No file yet. */
    constructor ()
      ensures Valid() && State() == Absent
    {
      present := false;
      lines := [];
    }

    /** Path("leads.csv").exists() */
    method Exists() returns (b: bool)
      requires Valid()
      ensures b <==> State().File?
      ensures !b ==> DataRows(State()) == []
    {
      b := present;
    }

    /** DataFrame([row]).to_csv: with the header when the file is new, in
        append mode without the header when it exists. */
    method Append(row: Row)
      requires Valid()
      modifies this
      ensures Valid()
      ensures State() == Appended(old(State()), Fields(row))
      ensures DataRows(State()) == DataRows(old(State())) + [Fields(row)]
    {
      var found := Exists();
      if found {
        lines := lines + [Fields(row)];
      } else {
        present := true;
        lines := [Header, Fields(row)];
      }
    }
  }
}
