# Postman, modelled in Dafny

Postman (`postman.py`) is a bulk-mail script. It reads sender accounts
(login and application password) from one spreadsheet and recipients from
another spreadsheet or from a typed comma-separated line. It picks each
account's SMTP server from the login's mail domain, then sends the same
message from every account to every recipient, pausing between sends and
between accounts.

This project models the deterministic logic under that I/O:

- `account_loader.dfy`: the accounts loader (`read_accounts_from_excel`).
  - `ReadAccounts` is its loop, proved against the row filter `AccountsFrom`.
- `smtp_directory.dfy`: choosing the SMTP server.
  - The domain is the text after the last `@`, lowercased.
  - The 20-entry provider table is included.
  - A domain outside the table falls back to `smtp.<domain>` on port 587.
- `recipient_loader.dfy`:
  - the recipients loader (`read_recipients_from_excel`), with `ReadRecipients` proved against `RecipientsFrom`;
  - the hand-typed recipient line (`ManualRecipients`).
- `email_pattern.dfy`: the address pattern written as a predicate over characters, `IsEmail`.
  - It is proved equal to the pattern's existential reading, `PatternMatches`.
- `dispatch.dfy`: the dispatcher (`send_bulk_emails`).
  - `SendBulkEmails` and its inner loop `SendRound` are proved against a trace specification (`Trace`).
  - In the source the inner loop is part of the outer loop's body. Here it is a method of its own so that each loop is proved separately.
  - The trace lists every attempt and every pause in order. An attempt is one pass through the inner loop's `try` block for an (account, recipient) pair. It is a transmitter call unless the progress print raised before `send_email` was reached.
  - `SendOne` is one pass through the inner loop's `try` block.
  - `send_email` is a `Transmitter` oracle indexed by (account, recipient, request). It answers how the pass through the `try` block ended:
    - `Raised`: an exception reached the handler before either counter moved;
    - `Returned(success, raisedAfter)`: `send_email` returned `success`; `raisedAfter` says that a result print or the pause after the send then raised, so the handler counts the same send a second time, as a failure.
- `text.dfy`: Python's `str.strip()`, `str.lower()` and `str.split(',')`.
- `sheets.dfy`: a worksheet as header names plus rows of text.
- `sequences.dfy` and `wrappers.dfy`: generic support.
  - an order-preserving filter (`FilterMap`) with its index witness;
  - counting;
  - row-major layout;
  - `Option`.

A sheet that cannot be read is `None` and yields no accounts and no recipients, as the loaders' exception handlers do.

## Model

| member | source | states |
|---|---|---|
| SmtpDirectory.DomainOf | postman.py:66 | The domain contains no `@` and ends the login. Unless it is the whole login, it follows an `@`: the text after the last `@`. |
| SmtpDirectory.ServerForDomain | postman.py:69-97 | A domain in the 20-entry table gets its table entry. A domain missing from it gets host `smtp.` + domain. The port is always 587 and the host is non-empty. |
| SmtpDirectory.KnownServersSubmit | postman.py:69-90 | Every table entry uses port 587. |
| SmtpDirectory.ResolveServer | postman.py:66-97 | Every resolved server uses port 587 and has a non-empty host. |
| SmtpDirectory.ResolveLogin | postman.py:66 | For `local@domain` with no `@` in domain, the server is the table lookup of the lowercased domain, whatever the local part holds. |
| SmtpDirectory.ResolveBareLogin | postman.py:66 | A login with no `@` is looked up as a domain in its own right, lowercased. |
| SmtpDirectory.KnownDomain | postman.py:66-93 | Any `local@gmail.com` login resolves to smtp.gmail.com:587. |
| SmtpDirectory.KnownDomainInCapitals | postman.py:66-93 | `local@Mail.RU` resolves to smtp.mail.ru:587. The lookup happens after lowercasing. |
| SmtpDirectory.NotKnownWhenLong | postman.py:69-90 | No domain longer than 14 characters is in the table. |
| SmtpDirectory.UnknownDomain | postman.py:94-97 | `local@unknown-domain.xyz` falls back to `smtp.unknown-domain.xyz` on port 587. |
| Sheets.ColumnIndex | postman.py:45-48 | A column is found exactly when its name is among the header names. The index found carries that name, and no earlier header does. |
| Sheets.ColumnValues | postman.py:234 | The column's values are the rows' cells in that column, one per row, top to bottom. |
| AccountLoader.AccountOf | postman.py:57-97 | A row gives an account exactly when its trimmed login and trimmed password are both non-empty. The account holds those trimmed strings and the server resolved from the login, and it is valid. |
| AccountLoader.AccountsFrom | postman.py:45-99 | An unreadable sheet, or one missing either required column, gives no accounts. Otherwise there are at most as many accounts as rows. |
| AccountLoader.AccountsFollowRows | postman.py:54-99 | The accounts are exactly the rows whose trimmed login and trimmed password are both non-empty, in row order. The k-th account holds that row's trimmed strings and the server resolved from its login. |
| AccountLoader.AccountsValid | postman.py:58-97 | Every loaded account has a non-empty, trimmed login and password, a non-empty host and port 587. |
| AccountLoader.AccountCount | postman.py:54-102 | There are as many accounts as qualifying rows. |
| AccountLoader.ReadAccounts | postman.py:45-103 | The loop's result equals `AccountsFrom`. It is empty when the sheet is unreadable or either required column is missing, and every account is valid. |
| Text.Lower | postman.py:66 | Each ASCII capital becomes the matching small letter, every other character is kept, the length is kept, and no ASCII capital remains. |
| Text.LowerIdempotent | postman.py:66 | Lowercasing twice is lowercasing once. |
| Text.LowerKeepsLowercase | postman.py:66 | Text without ASCII capitals is unchanged. |
| Text.Strip | postman.py:58-59 | The result has no whitespace at either end. It is `s` with a whitespace-only prefix and suffix removed. It is empty exactly when `s` is all whitespace, using Python's whitespace set. |
| Text.StripUnique | postman.py:58-59 | Those properties determine `strip()`: any stripped trimming of `s` is `Strip(s)`. |
| Text.StripAddsNothing | postman.py:266 | Stripping introduces no character. |
| Text.StripKeepsStripped | postman.py:235 | Text already stripped is unchanged. |
| Text.StripIdempotent | postman.py:235 | Stripping twice is stripping once. |
| Text.Split | postman.py:266 | There is always at least one piece, and no piece contains the separator. |
| Text.JoinSplit | postman.py:266 | Joining the pieces with `,` gives back the input, so nothing is lost or reordered. |
| Text.SplitJoin | postman.py:266 | Splitting a join of separator-free pieces gives back the pieces. |
| Text.SplitPair | postman.py:266 | Text with one separator splits into its two sides. |
| EmailPattern.IsEmail | postman.py:236 | The address pattern as a check without search: the first `@` and the last `.` must split the text into an allowed local part, an allowed domain stem and two or more ASCII letters. Its meaning is stated by `IsEmailIffPattern` and `AcceptedShape`. |
| EmailPattern.MatchesEmailPattern | postman.py:236 | `re.match` with the final `$`: the text, or the text without one trailing newline, is an address. `StrippedMatch` states what this means for trimmed text. |
| EmailPattern.IsEmailIffPattern | postman.py:236 | The search-free check accepts a string exactly when the pattern matches it for some placement of the `@` and the final `.`. |
| EmailPattern.StrippedMatch | postman.py:235-236 | On trimmed text, `$` accepting one trailing newline makes no difference. |
| EmailPattern.AcceptedShape | postman.py:236 | An accepted address has exactly one `@`, a non-empty local part and domain stem, and a last `.` followed by two or more ASCII letters. |
| RecipientLoader.RecipientOf | postman.py:235-237 | A cell gives a recipient exactly when its trimmed value is an address, and the recipient is that trimmed value. |
| RecipientLoader.RecipientsFrom | postman.py:229-237 | An unreadable sheet or a missing column gives no recipients. Otherwise there are at most as many recipients as rows. |
| RecipientLoader.RecipientsFollowCells | postman.py:233-237 | The recipients are exactly the trimmed column values that are addresses, in column order, with repetitions kept. |
| RecipientLoader.RecipientsAreAddresses | postman.py:235-237 | Every recipient read from a sheet is a trimmed, well-formed address. |
| RecipientLoader.ReadRecipients | postman.py:229-240 | The loop's result equals `RecipientsFrom`. It is empty when the column is missing, and every recipient is a trimmed address. |
| RecipientLoader.ManualRecipients | postman.py:266 | The typed line split at every comma, each piece trimmed, blank pieces dropped. Its contents are stated by the three lemmas below. |
| RecipientLoader.ManualRecipientsFollowPieces | postman.py:266 | The typed recipients are the trimmed non-blank comma-separated pieces, in order. Every non-blank piece gives one, and the pieces rejoin to the input. |
| RecipientLoader.ManualRecipientsClean | postman.py:266 | Every typed recipient is non-empty, trimmed and free of commas. |
| RecipientLoader.ManualRecipientsUnchecked | postman.py:266 | `a, b` yields `[a, b]` for any two trimmed, non-empty, comma-free pieces, addresses or not. No pattern check is applied. |
| Dispatch.StepEvents | postman.py:134-165 | One pass: the attempt, then a send pause when the pass raised nothing and the recipient is not the last. |
| Dispatch.RoundEvents | postman.py:133-165 | Account i's first j passes, one after another. |
| Dispatch.RunEvents | postman.py:130-170 | The first i accounts' rounds, each followed by the account-switch pause unless it is the last account's. |
| Dispatch.Trace | postman.py:130-170 | Every account's round, in account order. Its attempts are stated by `TraceCall`, its pauses by `RunPausesPlaced` and `TraceAccountPauses`. |
| Dispatch.RoundAttempts | postman.py:133-146 | Account i's round makes one attempt per recipient, in recipient order. |
| Dispatch.RunAttempts | postman.py:130-146 | The attempts of the first i accounts are their rounds laid out one after another (account-major order). |
| Dispatch.TraceCall | postman.py:130-146 | A run makes \|accounts\| × \|recipients\| attempts. Attempt number a·m + b is account a's attempt for recipient b, with that account's credentials and server, and no outcome of an attempt stops the run. |
| Dispatch.DeliveredPlusFailed | postman.py:148-165 | Every attempt is exactly one delivery or one failure. |
| Dispatch.StepTally | postman.py:148-165 | One send is one delivery when `send_email` returned true and one failure otherwise, including when the pass raised before counting. It is also one late raise when the handler ran after the counting. |
| Dispatch.NoLateRaiseNoDoubleCount | postman.py:148-165 | When no pass raises after its counting, the run has no late raise, so the counters add up to the number of attempts. |
| Dispatch.LateRaiseCountsTwice | postman.py:148-165 | A send whose result print or pause raises is counted twice. Its late raise makes the counters add up to more than the number of attempts. |
| Dispatch.TraceAccountPauses | postman.py:167-170 | The account-switch pause happens max(\|accounts\| − 1, 0) times. |
| Dispatch.RunPausesPlaced | postman.py:157-165 | Every send pause directly follows an attempt that raised nothing and whose recipient is not the last. Every such attempt is directly followed by one. |
| Dispatch.SendOne | postman.py:134-165 | One pass appends its attempt and, when nothing raised and another recipient remains, a pause. `successful` stays the delivery count, and `failed` stays the failure count plus the late-raise count. |
| Dispatch.SendRound | postman.py:133-165 | The inner loop appends account i's round to the events. `successful` stays the delivery count, and `failed` stays the failure count plus the late-raise count. |
| Dispatch.SendBulkEmails | postman.py:121-177 | The events are the trace specification. `successful` counts delivered attempts. `failed` counts the other attempts plus the late raises. So `successful + failed` is \|accounts\| × \|recipients\| plus the number of late raises. |

## Left out

- Reading the spreadsheets (`pd.read_excel`, `iterrows`, `dropna`) is left out.
  - A sheet is given as header names and rows of strings.
  - A read failure is `None`.
  - An empty cell is the empty string.
  - The library turns an empty account cell into the text `nan`, which would keep the row. That behaviour belongs to the library, and the model treats the cell as blank.
- `sheet_name` selection in the recipients loader is left out: the sheet is given.
- `send_email` (SMTP connection, STARTTLS, login, MIME encoding) is left out and replaced by the `Transmitter` oracle.
  - `success == false` is the caught authentication or other error returning false.
  - `Raised` is an exception reaching the dispatcher's handler before either counter moved. `raisedAfter` is one raised after the counting, by a result print or by the pause.
- Dispatch.SendBulkEmails: the statements of the loops that run outside the inner `try` are assumed not to raise. These are:
  - the account header print at postman.py:131;
  - the handler's own log and print at postman.py:163-164;
  - the print before the account switch at postman.py:169;
  - the pause between accounts, `time.sleep(delay * 2)` at postman.py:170.
  - If one of them raises, the source's run ends there with the exception and returns no counts. For example, a console that cannot encode the emoji at :131 ends the run before the first send. A delay that `time.sleep` refuses (negative or NaN) ends it at the first account switch.
  - The same delay makes the pause inside the `try` raise after its send was counted, and that case is modelled as `raisedAfter`.
- Pause lengths (`delay`, `2 * delay`, the float parsing of the delay) are left out. Pauses are events in the trace, not seconds.
- Logging, `print`, the banner, the prompts and the confirmation in `main` are left out. The only part of `main` modelled is the split expression of the typed recipient line.
- Python's regular-expression engine is not modelled. The one pattern used is restated as a character-class predicate, with `$` also accepting a single trailing newline.
- Text.Lower: lowercases ASCII letters only. Python's `str.lower()` also maps non-ASCII letters, for example 'Ä' to 'ä', so a domain in non-ASCII capitals is looked up differently here.
- Python's dictionaries for accounts are the `Account` datatype. Its `smtpPort` is an `int` and is always 587.
