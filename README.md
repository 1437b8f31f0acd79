# Email deliverability check, modelled in Dafny

The system answers one HTTP request, `POST /verify-email` with a JSON body
`{"email": ...}`, with a verdict on whether the address is real. It works in
three stages and stops at the first one that fails:

1. a syntax check against the pattern `^[a-zA-Z0-9_.+-]+@[a-zA-Z0-9-]+\.[a-zA-Z0-9-.]+$`;
2. an MX lookup for the text after the last `@`;
3. an SMTP `RCPT TO` probe against the first exchange returned.

The handler builds a response record (`email`, `status`, `message` and a
`details` record with `syntax_valid`, `mx_record_found`, `mx_record`,
`smtp_status` and `smtp_message`) and fills it in stage by stage.

The model has six modules, one file each:

- `Wrappers` (wrappers.dfy) defines `Option`, which stands for Python's `None`.
- `Decimal` (decimal.dfy) gives the decimal text Python writes for an integer. The SMTP refusal message contains the reply code in this form. `ParseInt` reads the text back, which shows the message determines the code.
- `EmailSyntax` (email_syntax.dfy) checks syntax. `IsValidEmailSyntax` is an executable matcher: it splits at the first `@` and then at the first `.` after it. It is proved equal to a declarative grammar, `MatchesPattern`, which reads "L `@` D1 `.` R, optionally followed by one newline". The optional newline is there because Python's `$` also matches before a final newline. The module also holds `DomainOf` (`email.split('@')[-1]`) and the lemmas that link the two.
- `MxLookup` (mx_lookup.dfy) holds the decision part of `has_mx_record`. The resolver's answer is an input.
- `SmtpProbe` (smtp_probe.dfy) holds the classification in `verify_email_smtp`. The RCPT TO reply, or the transport failure, is an input.
- `Verification` (verification.dfy) holds `verify_email` as a method. Its local response record is updated step by step, with the source's early returns. The resolver (`string -> MxAnswer`) and the SMTP session (`(recipient, host) -> RcptResult`) are function parameters. The method also returns the list of calls it made to them, in order. This list shows, for example, that a syntax failure never reaches DNS, and that the host probed is the first record returned.

Points where the code does what one might not expect:

- An empty or missing email keeps the initial status `undeliverable` (DNS.py:54, 65-67); it is not reported as `error`.
- The MX stage takes the first record in the order the resolver returned them. It does not take the one with the lowest preference (DNS.py:18). `MxLookup.FirstReturnedWinsOverPreference` shows an answer where the two choices differ.
- `quit()` is skipped when an exception is raised mid-session (DNS.py:35, 43-45), so the connection is not released on that path.
- Exceptions outside the two `except` lists escape the handler.
- A pattern match accepts one trailing newline. The domain handed to the resolver then ends in that newline. `AcceptsAddress` states this acceptance.

## Model

| member | source | states |
|---|---|---|
| EmailSyntax.IsValidEmailSyntax | DNS.py:9-12 | true exactly when the text matches the anchored pattern, where `$` also admits one final newline (`MatchesPattern`) |
| EmailSyntax.MatchesAnchoredIsAddress | DNS.py:11 | splitting at the first `@` and then at the first `.` after it succeeds exactly when the text is L `@` D1 `.` R, with each part non-empty and drawn from its own character class |
| EmailSyntax.AcceptsAddress | DNS.py:11-12 | every L `@` D1 `.` R is accepted, and so is the same text followed by one newline |
| EmailSyntax.SplitChars | DNS.py:11 | in a split address no character but the separating `@` is an `@` or a newline, and the first label holds no `.` |
| EmailSyntax.AcceptedSplit | DNS.py:11-12 | an accepted text is a split address, or a split address followed by one newline |
| EmailSyntax.SplitPositions | DNS.py:11-12 | in such a text the `@` is the only one, a `.` follows it, not directly, and the first label between them holds no `.` |
| EmailSyntax.SplitDomain | DNS.py:70-76 | in such a text the `@` is the first one, and the domain cut after it is everything after it; it holds a `.` and does not start with one |
| EmailSyntax.AcceptedNewlineOnlyLast | DNS.py:11-12 | an accepted text holds a newline at most as its last character |
| EmailSyntax.DomainOf | DNS.py:76 | the result is the suffix after the last `@` (the whole text when there is none) and holds no `@` |
| EmailSyntax.DomainAfterOnlyAt | DNS.py:76 | when the text has exactly one `@`, the domain is everything after it |
| EmailSyntax.AcceptedAddressDomain | DNS.py:70-76 | an accepted address holds exactly one `@`, the first one; its domain is everything after that `@`, contains a `.` and does not start with `.`; so the empty text is rejected |
| EmailSyntax.RejectsWithoutAt | DNS.py:11-12 | text without an `@` (the empty string included) is rejected |
| EmailSyntax.RejectsTwoAts | DNS.py:11-12 | text with two `@` is rejected |
| EmailSyntax.RejectsDotAfterAt | DNS.py:11-12 | an empty first domain label (`@.`) is rejected |
| EmailSyntax.RejectsNoDotAfterAt | DNS.py:11-12 | text with no `.` after its `@` is rejected |
| EmailSyntax.RejectsNewlineBeforeEnd | DNS.py:11-12 | a newline anywhere but at the very end is rejected |
| EmailSyntax.AcceptsTrailingDots | DNS.py:11 | `a@b..` is accepted: the domain tail may repeat dots and end in one |
| EmailSyntax.RejectsDoubledAt | DNS.py:11 | `bad@@domain` is rejected |
| Decimal.NatToString | DNS.py:41 | the text of a natural number is a non-empty run of digits with no leading zero |
| Decimal.IntToString | DNS.py:41 | the text of an integer is digits, with a leading `-` when the integer is negative |
| Decimal.NatToStringValue | DNS.py:41 | the digits of `n` read back as `n` |
| Decimal.IntToStringRoundTrip | DNS.py:41 | the text of any integer parses back to that integer |
| Decimal.IntToStringAlphabet | DNS.py:41 | the text of an integer holds only `-` and digits, so it contains no `,` |
| MxLookup.HasMxRecord | DNS.py:14-21 | a lookup failure gives (false, diagnostic text); records give (true, exchange of the first record returned); an answer with no records gives nothing, because indexing it raises |
| MxLookup.FirstIsLowest | DNS.py:18 | in records listed by preference, the first has the lowest preference |
| MxLookup.ChosenIsPreferredWhenOrdered | DNS.py:18 | when the resolver lists records by preference, the chosen (first) host has the lowest preference; for an unordered answer see `MxLookup.FirstReturnedWinsOverPreference` |
| MxLookup.FirstReturnedWinsOverPreference | DNS.py:18 | a backup exchange listed first is the one chosen |
| SmtpProbe.RefusalMessageCarriesCode | DNS.py:41 | the refusal message can be read back to the exact reply code, whatever the reply text |
| SmtpProbe.VerifyEmailSmtp | DNS.py:23-45 | `deliverable` exactly for reply code 250 or 251, with its fixed message; `error` exactly for a caught transport failure, carrying its text; otherwise `undeliverable`, whose message gives back the code and ends with the reply text |
| Verification.VerifyEmail | DNS.py:48-101 | every reply echoes `email`, carries a message, and is 400 exactly when the email is missing or empty. A missing email, or bad syntax, returns status `undeliverable`, its fixed message and default details, with nothing consulted. A lookup failure sets `mx_record` to the diagnostic, `mx_record_found` to false and the no-MX message, and no probe is made. An empty answer escapes unhandled. Otherwise the first exchange is probed and its status and message are copied verbatim. The final status is `valid` exactly when the reply code is 250 or 251, and `error` exactly when the probe failed in transport. The details always agree with the order of the stages |
| Verification.VerifyEmailTwice | DNS.py:48-101 | two runs against the same services give identical replies and identical lists of calls |

## Left out

- The Flask app, its route, parsing `request.json`, `jsonify` and `app.run` are HTTP plumbing. The model starts from the value of the `email` key (`None` when missing or null) and ends with the reply and its HTTP status.
- A JSON `email` value that is not a string (a number, a list, ...) is not modelled. The email is modelled as an optional string.
- The DNS query `dns.resolver.resolve` is a network call. Its outcome is a parameter: records in returned order, or a caught failure with its text.
- The SMTP session (connect, HELO, MAIL FROM, RCPT TO, QUIT) is network I/O. Its outcome is a parameter: the RCPT TO reply code and text, or a caught transport failure with its text.
- SmtpProbe.VerifyEmailSmtp: the reply text is taken as Python's `str()` of the reply. The model does not compute how Python renders the reply's bytes (`b'...'` quoting and escapes).
- Exceptions outside the two `except` lists are not modelled (`NoNameservers`, other `smtplib` errors, a non-string email reaching `re.match`). The one escape the model keeps is the `IndexError` raised by an answer with no records, as `Outcome.Unhandled`.
- Connection release is not observable in the model. This covers `quit()`, and its omission on the exception path.
- The `print` diagnostics and the concurrency Flask provides between requests are not modelled.
- MxLookup.MxRecord: preference is a natural number. The 16-bit range of the DNS field is not enforced, and nothing depends on it.
