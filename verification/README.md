# Lead intake of the contact form

This project models the submit handler of the Contact tab of a single-page
Streamlit site (`app.py`). When the visitor presses Send, the handler:

1. rejects the submission as spam if the hidden honeypot field is non-empty;
2. otherwise rejects it if name, e-mail or message is the empty string;
3. otherwise rejects it if the e-mail does not match
   `^[^@\s]+@[^@\s]+\.[^@\s]+$` under Python's `re.match`;
4. otherwise builds an eight-field row (timestamp, session id, name, e-mail,
   company, topic, budget, message with every newline turned into a space)
   and writes it to `leads.csv`. A missing file is created with a header line
   first; an existing file gets the row appended, without a second header.

Modules, one per component:

- `Email` (`email.dfy`): the e-mail check. `ValidEmail` is an index-based
  predicate (one `@`, a run before it, a run with an inner `.` after it, and
  an optional single trailing newline, because `$` also matches before a
  final newline). `RegexMatches` is the pattern's language written as
  concatenations of runs. The two are proved to be the same. `\s` is Python 3's
  whitespace set for `str` patterns, which is the set of characters where
  `str.isspace()` holds.
- `Lead` (`lead.dfy`): the submission, the validation chain, the newline
  flattening of the message, and the row with its column order.
- `LeadCsv` (`store.dfy`): the file as a value (`Absent` or its lines, each
  a sequence of fields), the append rule `Appended`, and the class
  `LeadStore`, which holds an existence flag and the lines and is updated in
  place by `Append`.
- `Intake` (`intake.dfy`): the handler `HandleSubmit` over a `LeadStore`, its
  one-step effect `Step`, and `Replay`, which runs a sequence of submissions
  starting from no file.

The clock reading (`datetime.utcnow().isoformat()`) and the session identifier
(`uuid4()`) are parameters of the handler.

A required field counts as missing only when it is the empty string:
`app.py:129` tests Python truthiness, so a whitespace-only name, e-mail or
message passes that check. `Intake.Scenarios` shows a name of one blank being
accepted.

## Model

| member | source | states |
|---|---|---|
| `Email.ShapedIsRegexLanguage` | app.py:131 | a string is local-part `@` domain-with-inner-dot (index form) exactly when it is in the language of `[^@\s]+@[^@\s]+\.[^@\s]+` |
| `Email.ValidEmailIsRegexMatch` | app.py:131 | `ValidEmail` holds exactly when `re.match` with the anchored pattern succeeds, counting `$` matching before one final newline |
| `Email.SingleAt` | app.py:131 | an accepted address contains exactly one `@`, and it is not at position 0 |
| `Email.OnlyTrailingNewline` | app.py:131 | an accepted address contains no whitespace except possibly one final `\n`, and what precedes that newline is itself well-shaped |
| `Email.TrailingNewlineTolerated` | app.py:131 | a well-shaped address followed by one newline is still accepted |
| `Email.Examples` | app.py:131 | `a@b.com` and `a@b.com\n` are accepted; `a@b`, `a@b.com\n\n` and `a b@c.d` are rejected |
| `Lead.Validate` | app.py:126-133 | spam exactly when the honeypot is non-empty; missing-field exactly when the honeypot is empty and name, e-mail or message is empty; invalid-email exactly when those pass and the pattern does not match; accepted exactly when all three checks pass |
| `Lead.FlattenMessage` | app.py:142 | the stored message has the submitted length; each newline becomes a space and every other character is kept in place |
| `Lead.FlattenMessageNoNewline` | app.py:142 | the stored message has no newline, flattening is idempotent, and a message without newlines is stored unchanged |
| `Lead.MakeRow` | app.py:134-143 | the row carries the given timestamp and session id, the submitted name, e-mail, company, topic and budget unchanged, and the flattened message |
| `Lead.Fields` | app.py:134-145 | a row is written as eight fields, each under the header column that names it, in the order timestamp, session_id, name, email, company, topic, budget, message |
| `Lead.FieldsInjective` | app.py:134-145 | two rows with the same written line are the same row |
| `LeadCsv.Appended` | app.py:146-149 | writing to a missing file gives the header line and the row; writing to an existing file keeps its lines as a prefix and adds only the row; the header-then-rows invariant is kept and the data rows grow by the row |
| `LeadCsv.LeadStore.Exists` | app.py:146 | reports whether the file exists; a missing file has no data rows |
| `LeadCsv.LeadStore.Append` | app.py:144-149 | the store's new state is `Appended` of the old state and the row's fields; the invariant is kept and exactly one data row is added at the end |
| `Intake.Step` | app.py:126-149 | a rejected submission, and in particular any with a non-empty honeypot, leaves the file unchanged; an accepted one adds exactly its own line to the data rows; the invariant is kept |
| `Intake.HandleSubmit` | app.py:126-149 | the handler's verdict is `Validate` of the submission and the store changes exactly as `Step` says |
| `Intake.AcceptedLineIsNotHeader` | app.py:129-143 | the line written for an accepted submission is never equal to the header line, because its email field passed the pattern and so holds an `@` |
| `Intake.AcceptedLinesHaveNoHeader` | app.py:126-143 | no line of any accepted submission in a sequence equals the header line |
| `Intake.ReplayFromNoFile` | app.py:126-149 | starting with no file, after any sequence of submissions the file is absent exactly when none was accepted; otherwise it is one header line followed by exactly the accepted submissions' lines in submission order, and the header line occurs nowhere after the first line |
| `Intake.Scenarios` | app.py:126-149 | a clean submission to a missing file yields the header and its row; with the honeypot filled in it is spam and with no name it is missing-field, both leaving the file unchanged; a name of one blank passes |

## Left out

- E-mail notification: `app.py` has no notifier, so nothing is modelled for it.
- The page layout, the form widgets and the success, warning and error messages (`app.py:1-124`, `app.py:150`, `app.py:167-170`).
- Topic and budget come from select boxes with fixed option lists. The handler does not check them, so the model carries them as arbitrary strings.
- The timestamp source and the session identifier. They are clock and randomness, so they are parameters.
- CSV text encoding and quoting by pandas `to_csv`. A line is modelled as its sequence of fields.
- The admin view (`app.py:152-165`): the secret flag, `read_csv` with its headerless fallback, and the download button. These are library-driven I/O.
- `LeadCsv.LeadStore`: the class always starts with no file, and its invariant requires our header as the first line. So it cannot stand for a `leads.csv` that existed before the first submission or was written by something else. The handler appends to such a file without a header line; the function `LeadCsv.Appended` covers that case, but the class does not.
- File-system failures (permission, disk full) and concurrent writers. These are I/O and concurrency; the model assumes every append succeeds and submissions run one at a time.
