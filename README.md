# ACS-SMTP relay: message translation and endpoint normalisation

ACS-SMTP is a local SMTP relay. It accepts one message per SMTP transaction
and forwards it through the Azure Communication Services (ACS) email client.
This project models its two pieces of real logic:

- **The translator.** This is the body of `SMTPHandler.handle_DATA`. It takes
  the parsed MIME tree and the SMTP envelope. It builds the request dict for
  `EmailClient.begin_send`: `senderAddress`, `content.{subject, plainText,
  html}`, `recipients.to` and an optional `attachments` list. Otherwise it
  raises `DecodeError` or `UnknownContentType`.
- **Endpoint normalisation.** `CommunicationServices.__init__` completes the
  configured endpoint to `https://….communication.azure.com/` and formats the
  connection string.

Modules:

- `Wrappers` (`wrappers.dfy`): `Option`, which stands for a missing dict key or `None`, and `Result`.
- `Text` (`text.dfy`): Python's `startswith`, `endswith`, `split(c)[0]` and `strip()`.
  `IsSpace` is the full `str.isspace` character set.
- `Mime` (`mime.dfy`): the part tree and `msg.walk()` as a pre-order `Walk`.
  It also has `msg[name]` header lookup: first match, names compared without case.
- `Translator` (`translator.dfy`): the request types and the reference
  definitions (`LastBody`, `AttachmentsOf`, `DisplayName`, `SubjectOf`, `Translation`).
  It also has the handler as imperative methods. `Translate` builds the request
  step by step, as the source mutates its dict. `HandleParts` is the
  `for part in msg.walk()` loop. `HandleRecipient` and `HandleSubject` are the
  last two sections. `Translate` is proved equal to `Translation`.
- `TranslatorFacts` (`translator_facts.dfy`): the properties of the translation.
- `Endpoint` (`endpoint.dfy`): `Normalize` and `ConnectionString` with their lemmas.
- `Scenarios` (`scenarios.dfy`): worked examples, stated as equations.

`Ok(request)` from `Translate` is the request that `handle_DATA` passes to
`send_email`. `Err(e)` is the exception it raises, and then nothing is sent.

## Behaviour of the code that is easy to misread

- **Attachment payload.** `contentInBase64` is `get_payload()` passed on
  untouched (acs-smtp.py:116). The code does not base64-encode it; for a
  base64 transfer-encoded part the payload is already base64 text.
- **The walk includes containers.** `msg.walk()` visits every part, the
  containers too. A container marked as an attachment (for example a forwarded
  `message/rfc822` with `Content-Disposition: attachment`) therefore adds an
  entry. Its payload is the list of its subparts (`Payload.Subparts`). The walk
  still goes into those subparts, so text bodies inside a forwarded message can
  overwrite the outer ones.
- **A text part without headers writes nothing.** In the multipart branch,
  `if body:` tests the part returned by `get_body()`. For a `text/plain` or
  `text/html` leaf that is the part itself; for any other leaf it is `None`.
  A `Message` counts as false when it has no headers. The leaf field
  `hasHeaders` models this. The single-part branch has no such test, so the
  root leaf's `hasHeaders` is never read.
- **Only plain and HTML bodies are decoded in the multipart branch.**
  `get_content()` runs only for a `text/plain` or `text/html` part that passes
  `if body:` (acs-smtp.py:126-131). So an inline part of another type, or a
  headerless text part, never stops the message, however undecodable its body.
  The call is outside the `try`, so its failure is an unguarded exception;
  it is modelled as `DecodeError`.
- **A single-part message ignores `Content-Disposition`.** A single-part
  message marked as an attachment is still treated as a body.
- **The error name.** The error is `UnknownContentType`, as the code raises it.
- **Missing inputs are caller obligations.** An empty `rcpt_tos`, or a message
  without a `To` header, is not handled. The code raises `IndexError` or
  `TypeError` (acs-smtp.py:151-152). `Admissible` requires both.

## Model

| member | source | states |
|---|---|---|
| `Translator.Translate` | acs-smtp.py:89-157 | the request built in place equals `Translation`: a multipart message fails with `DecodeError` iff some non-attachment `text/plain` or `text/html` leaf with headers in the walk cannot be decoded, otherwise its slots are the last writers' texts and its attachments those of the walk; a single-part message fails with `DecodeError` when undecodable, fills the slot of its own type, and fails with `UnknownContentType` when it is neither `text/plain` nor `text/html` |
| `Translator.HandleParts` | acs-smtp.py:104-131 | the walk loop fails with `DecodeError` exactly when some part of the walk is a non-attachment `text/plain` or `text/html` leaf with headers whose body cannot be decoded; otherwise `plainText`/`html` are the last writers of each kind and `attachments` are the walk's attachment entries, absent when there are none; nothing else in the request changes |
| `Translator.HandleRecipient` | acs-smtp.py:149-153 | `recipients.to` becomes the single entry for the given address, with the display name taken from the `To` header; nothing else changes |
| `Translator.HandleSubject` | acs-smtp.py:155-157 | `content.subject` becomes the `Subject` header when present and non-empty, and stays absent otherwise; nothing else changes |
| `Translator.DisplayName` | acs-smtp.py:152-153 | a display name exists iff the `To` value contains `<`; it is then `strip()` of the text before the first `<`, which may be empty |
| `Translator.WalkStep` | acs-smtp.py:108-131 | visiting one more part appends that part's entry when it is an attachment, creating the list on first use, and overwrites a body slot exactly when the part writes it |
| `TranslatorFacts.LastBodyNone` | acs-smtp.py:126-131 | a body slot stays absent iff no part of the walk writes it |
| `TranslatorFacts.LastBodyOfLastWriter` | acs-smtp.py:105-131 | a body slot holds the text of the last part of the walk that writes it (last writer wins) |
| `TranslatorFacts.LastBodyAppend` | acs-smtp.py:105-131 | the slot after two runs of parts is the second run's writer if it has one, else the first run's |
| `TranslatorFacts.LastBodyIgnores` | acs-smtp.py:108-131 | a part that does not write a slot can be placed anywhere in the walk without changing it: attachments, containers, headerless parts, other content types |
| `TranslatorFacts.AttachmentNeverSetsBody` | acs-smtp.py:108-118 | an attachment part never changes `plainText` or `html` |
| `TranslatorFacts.AttachmentsAppend` | acs-smtp.py:108-117 | the attachment entries of two runs of parts are the first run's followed by the second's |
| `TranslatorFacts.AttachmentsNone` | acs-smtp.py:109-111 | there are no entries, and the `attachments` key is absent, iff no part of the walk is an attachment |
| `TranslatorFacts.AttachmentsInOrder` | acs-smtp.py:113-117 | the attachment at walk position i contributes `{name: filename, attachmentType: contentType, contentInBase64: payload untouched}`, right after the entries of the parts before it |
| `TranslatorFacts.SenderAndRecipient` | acs-smtp.py:151-153 | `senderAddress` is `mail_from` (set at line 98); `recipients.to` has exactly one entry, whose address is `rcpt_tos[0]` and whose display name comes from `To` |
| `TranslatorFacts.LaterRecipientsIgnored` | acs-smtp.py:150-151 | envelope recipients after the first do not change the outcome |
| `TranslatorFacts.SubjectRule` | acs-smtp.py:156-157 | `content.subject` is present iff `Subject` is present and non-empty, and then is that header verbatim |
| `TranslatorFacts.FailureCases` | acs-smtp.py:119-147 | `DecodeError` iff, in the multipart branch, some non-attachment `text/plain` or `text/html` leaf with headers cannot be decoded, or, in the single-part branch, the sole body cannot be decoded; `UnknownContentType` iff a decodable single-part message that is neither plain text nor HTML |
| `TranslatorFacts.MultipartRequest` | acs-smtp.py:104-131 | a multipart request's slots are the last writers and its attachments those of the walk, the key absent when there are none |
| `TranslatorFacts.SinglePartRequest` | acs-smtp.py:139-145 | a decodable single-part `text/plain` message sets only `plainText`, a `text/html` one only `html`, and neither has attachments |
| `Scenarios.AlternativeMessage` | acs-smtp.py:89-157 | plain "Hello" and HTML "<p>Hello</p>", subject "Test", from `a@b.com` to `c@d.com`: the exact request, with no display name and no attachments |
| `Scenarios.TwoPlainBodies` | acs-smtp.py:126-128 | two plain bodies "A" then "B": "B" is sent |
| `Scenarios.PdfAttachment` | acs-smtp.py:108-128 | a plain body and an attached `f.pdf`: one entry with name, type and untouched payload; the body is unaffected; the attachment is never decoded |
| `Scenarios.UndecodedPartsPassedOver` | acs-smtp.py:119-131 | an undecodable inline `text/calendar` part and an undecodable headerless plain part are passed over; the earlier plain body is sent |
| `Scenarios.NamedRecipient` | acs-smtp.py:152-153 | `Name <address>` with a trimmed name without `<` yields exactly that name |
| `Scenarios.JsonRefused` | acs-smtp.py:146-147 | a single-part `application/json` message yields `UnknownContentType` |
| `Scenarios.NoSubject` | acs-smtp.py:156-157 | without a `Subject` header the subject key is absent |
| `Mime.Walk` | acs-smtp.py:105 | the walk starts with the part itself; a leaf's walk is just the leaf |
| `Mime.WalkAllAppend` | acs-smtp.py:105 | walking adjacent runs of children is walking the first run and then the second |
| `Mime.WalkVisitsChild` | acs-smtp.py:105 | every part in a child's walk is visited by the parent's walk, after the parent |
| `Mime.Lookup` | acs-smtp.py:152-156 | `msg[name]` is present iff some header matches the name without regard to case, and is then the value of the first match |
| `Text.BeforeFirst` | acs-smtp.py:153 | `split(c)[0]` is the longest prefix without `c`: it is shorter than the string iff `c` occurs, and then `c` follows it |
| `Text.LStrip` | acs-smtp.py:153 | a suffix of the input with only whitespace removed before it and no leading whitespace |
| `Text.RStrip` | acs-smtp.py:153 | a prefix of the input with only whitespace removed after it and no trailing whitespace |
| `Text.StripSlice` | acs-smtp.py:153 | `strip()` returns the slice of the input starting where `lstrip()` stopped, with only whitespace outside it |
| `Text.StripEnds` | acs-smtp.py:153 | a non-empty result of `strip()` has no whitespace at either end |
| `Text.StripIdempotent` | acs-smtp.py:153 | stripping twice is stripping once |
| `Endpoint.Normalize` | acs-smtp.py:63-66 | the endpoint always starts with `https://` and ends with `.communication.azure.com/` |
| `Endpoint.NormalizeShape` | acs-smtp.py:63-66 | normalisation only adds text: the scheme iff the configured endpoint lacks it, the domain iff the configured endpoint lacks it |
| `Endpoint.SchemeKeepsDomainTest` | acs-smtp.py:65 | prefixing the scheme neither completes nor breaks the domain suffix, so the second test sees the same answer as on the configured text |
| `Endpoint.NormalizeKeepsFullForm` | acs-smtp.py:63-66 | an endpoint already in full form is unchanged |
| `Endpoint.NormalizeIdempotent` | acs-smtp.py:63-66 | normalising twice is normalising once |
| `Endpoint.ConnectionString` | acs-smtp.py:68 | the string opens with `endpoint=https://`, holds the normalised endpoint, and ends with `;accessKey=` and the key exactly as configured |

## Left out

- MIME parsing (`email.message_from_bytes`, `policy.default`) and the accessors
  `get_content_type`, `is_attachment`, `get_filename`, `get_payload`,
  `get_body` and `get_content`. These are library calls. Their answers are
  fields of each `Part`. Whether decoding succeeds is the `decodeOk` flag.
  Header values come as the parser delivers them, already unfolded and decoded.
- `get_body()` is taken never to raise, on a container or a leaf. It only
  reads headers.
- A container's `content_type` is never `text/plain` or `text/html`: the parser
  makes only `multipart/...` and `message/...` parts into containers. So a
  container writes no body slot.
- Header names are compared case-insensitively for ASCII letters only. Python
  lower-cases the full Unicode range, but that differs only for names that are
  not `To` or `Subject`.
- The `EmailClient` (`from_connection_string`, `begin_send`, `poller.result()`,
  `send_email`): this is network I/O. An `Ok` result stands for "send was
  invoked with this request".
- `print` diagnostics in the `except` branches. Also the `NameError`s they would
  raise, because `part_id` and `part` are undefined there (acs-smtp.py:122, 137).
  Both paths end the translation, modelled as `DecodeError`.
- The `'250 Message accepted for delivery'` reply, the aiosmtpd `Controller`,
  the async `main` loop, console input and the quit command, the sleeps and
  `exit()`. These are server lifecycle, concurrency and interactive input.
- `config.json` loading and the startup prints: file I/O and console output.
- The exception raised when `rcpt_tos` is empty or `To` is missing: these are
  preconditions (`Admissible`) rather than error results.
