# QR-code contest ledger

A Dafny model of the participant ledger of the QR-code contest server
(`qr-contest/server.js`). The server keeps every entry as a `{code, result}`
record in one in-memory list and exposes two handlers over it:

- the participation query, which refuses a missing code and otherwise says
  whether any record carries the code;
- the submission, which refuses a missing code or a code already recorded,
  appends the new record with the drawn outcome, and then runs a winner-cap
  pass: when more than 10 records are winners, every record whose code belongs
  to a winner past the tenth (in list order) is dropped. The list is then saved
  and the drawn outcome is reported.

`contest.dfy` holds one module, `Contest`:

- values: `Result` (`Win | Lose`), `Record`, `Error` (the two refusals) and
  `Response` (a success value or an error, standing for the JSON reply and its
  status code);
- the list operations the handlers use, as pure functions: `AnyWithCode`
  (the query's `some`), `FindByCode` (the submission's `find`), `WithResult`
  (the `filter` on result), `Codes` (the `map` to codes), `WithoutCodes` (the
  final `filter`), `CapWinners` (the cap pass as written) and `AfterSubmit`
  (append, then cap);
- `KeepFirstWinners`, an independent reference definition of the cap (keep
  every losing record and the first k winners, in order), and lemmas that tie
  the cap pass to it;
- the class `ContestServer`, whose field `participants` is the module-level
  list the source mutates (`push`, then reassignment to a filtered copy), and
  whose field `saved` is the snapshot last written to the results workbook.
  `HasParticipated` is the query handler; `Submit` is the submission handler,
  specified against `AfterSubmit`.

The request's `code` is an `Option<string>`: `None` stands for an absent
field, and `Missing` holds for `None` and for the empty string, the two string
values the handlers' falsiness test refuses. The random draw is an input
parameter `outcome` of `Submit`.

One behaviour is modelled as the code has it: when ten winners are already
recorded and a new code draws `Win`, the cap pass removes the record just
appended, the reply still reports `Win`, and the code afterwards reads as not
having participated, so a later submission of it is accepted
(`SubmitPastCapDropsNew`, and `Submit`, which accepts exactly the present codes
that are not recorded). The comment at qr-contest/server.js:76 speaks of
reducing the winners "randomly"; the code always drops the winners past the
tenth in list order, and the model follows the code.

Both handlers run synchronously from the request to the reply (the lookup, the
append, the cap pass and the workbook write do not yield), so each is modelled
as one step on the server's state.

## Model

| member | source | states |
|---|---|---|
| `Contest.AnyWithCode` | qr-contest/server.js:49 | true exactly when some record of the list carries the queried code |
| `Contest.FindByCode` | qr-contest/server.js:62-63 | no record is found exactly when no record carries the code; otherwise the one found is the first record, in list order, that carries it |
| `Contest.WithResult` | qr-contest/server.js:74 | every record kept has the given outcome, and the result is no longer than the list |
| `Contest.WithResultMembers` | qr-contest/server.js:74 | a record is kept exactly when it is in the list and has the given outcome |
| `Contest.WithoutCodes` | qr-contest/server.js:79 | no record kept carries a code to remove, and the result is no longer than the list |
| `Contest.WithoutCodesMembers` | qr-contest/server.js:79 | a record is kept exactly when it is in the list and its code is not among the codes to remove (so a losing record sharing an evicted winner's code is dropped too) |
| `Contest.CapWinners` | qr-contest/server.js:73-80 | the cap pass only removes records: the result is no longer than the list and every surviving record was in it |
| `Contest.CapBound` | qr-contest/server.js:74-80 | for any list, even one with repeated codes, at most 10 winners remain after the cap pass |
| `Contest.WithoutLaterWinners` | qr-contest/server.js:77-79 | with unique codes, removing the codes of the winners past the k-th keeps every losing record and the first k winners, in order |
| `Contest.KeepFirstWinnersWinners` | qr-contest/server.js:77-79 | the winners kept are exactly the first min(k, winners) winners of the list, in order |
| `Contest.KeepFirstWinnersLosers` | qr-contest/server.js:79 | every losing record is kept, in order |
| `Contest.CapKeepsFirstWinners` | qr-contest/server.js:74-79 | with unique codes the cap pass keeps the first 10 winners and every losing record in list order, and leaves exactly min(winners, 10) winners |
| `Contest.SubmitAppends` | qr-contest/server.js:71-75 | with at most 10 winners before, a losing entry, or a winning one while fewer than 10 winners exist, only appends the new record, and the code then counts as participated |
| `Contest.SubmitPastCapDropsNew` | qr-contest/server.js:71-79 | a new code that wins when 10 winners already exist leaves the list exactly as before, and the code does not count as participated |
| `Contest.SubmitKeepsInvariant` | qr-contest/server.js:62-79 | an accepted submission on a list with unique codes keeps the codes unique and leaves at most 10 winners |
| `Contest.Missing` | qr-contest/server.js:44 | a code counts as given exactly when it is present and non-empty; the submission applies the same test (line 57) |
| `Contest.Message` | qr-contest/server.js:45-64 | each refusal carries its own error text ("Code is required." at lines 45 and 58, "This code has already been used." at line 64), and the texts tell the two refusals apart |
| `Contest.Codes` | qr-contest/server.js:77 | the codes of the winners, one per winner, in the same order |
| `Contest.AfterSubmit` | qr-contest/server.js:71-80 | append then cap: the ledger grows by at most the new record, holds nothing but old records and the new one, and has at most 10 winners |
| `Contest.ContestServer.constructor` | qr-contest/server.js:18-31 | at start-up the ledger is the stored list when the workbook exists and empty otherwise, and it equals the saved snapshot |
| `Contest.Restart` | qr-contest/server.js:18-39 | a server restarted from the workbook written by a running server, taken to read back exactly the rows written, holds the same ledger and gives the same participation answer for every code |
| `Contest.ContestServer.HasParticipated` | qr-contest/server.js:42-52 | a missing or empty code is refused with the code-required error; otherwise the answer is true exactly when some record carries the code |
| `Contest.ContestServer.Submit` | qr-contest/server.js:55-86 | a missing or empty code is refused with the code-required error and a recorded code with the already-used error, every other code is accepted, both refusals leaving the ledger and the saved snapshot unchanged; otherwise the reply is the drawn outcome, the ledger becomes the old ledger with the record appended and the cap applied, the snapshot equals it, a ledger equal to its snapshot stays so, and unique codes with at most 10 winners are preserved |

## Left out

- HTTP plumbing: Express routing, body parsing, status codes, the JSON reply bodies other than the two error texts (`Message`), static file serving and start-up logging (qr-contest/server.js:1-11, 89-95). A reply is a `Response`; both refusals stand for status 400.
- The random draw (qr-contest/server.js:68) is the `outcome` parameter of `Submit`; its 10% win probability is not modelled.
- The workbook format: loading and saving go through the `xlsx` library and the file system, which are not part of this model. Saving is the snapshot field `saved`; loading is the constructor's optional stored list. Cell typing on reload (a numeric-looking code may come back as a number, which the strict comparison with the queried string would not match) is not modelled; `Restart` assumes the workbook reads back the rows as written.
- Request values that are not strings (numbers, booleans, objects, or a repeated query parameter arriving as an array) are not modelled; the code is an optional string.
- Contest.SubmitAppends: the losing case is stated for a list with at most 10 winners, the state every accepted submission maintains; on a list loaded with more winners the cap pass runs even for a losing entry, which `Submit` still describes through `AfterSubmit`.
