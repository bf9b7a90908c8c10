/** The body of `SMTPHandler.handle_DATA`: turning a parsed email and its SMTP
    envelope into the request dict passed to the email client's `begin_send`,
    or stopping with the exception the handler raises. */
module Translator {
  import opened Wrappers
  import opened Text
  import opened Mime

  const TextPlain := "text/plain"
  const TextHtml := "text/html"

  /** The SMTP envelope: `envelope.mail_from` and `envelope.rcpt_tos`. */
  datatype Envelope = Envelope(mailFrom: string, rcptTos: seq<string>)

  /** A parsed message: the root of its part tree and the root's headers. */
  datatype Email = Email(root: Part, headers: seq<Header>)

  /** `contentInBase64`: whatever `get_payload()` returned, passed on untouched.
      For a leaf that is its undecoded body text; for a container marked as an
      attachment it is the list of its subparts. */
  datatype Payload = Encoded(data: string) | Subparts(parts: seq<Part>)

  /** One entry of the request's `attachments` list. */
  datatype Attachment = Attachment(name: Option<string>, attachmentType: string, contentInBase64: Payload)

  /** The request's `content` dict; an absent key is `None`. */
  datatype Content = Content(subject: Option<string>, plainText: Option<string>, html: Option<string>)

  /** One entry of `recipients.to`. */
  datatype EmailAddress = EmailAddress(address: string, displayName: Option<string>)

  /** The request's `recipients` dict. */
  datatype Recipients = Recipients(to: seq<EmailAddress>)

  /** The dict handed to `send_email`; `attachments` is `None` when the key is absent. */
  datatype SendRequest = SendRequest(
    content: Content,
    recipients: Recipients,
    senderAddress: string,
    attachments: Option<seq<Attachment>>)

  /** The two exceptions the handler raises. */
  datatype TranslationError = DecodeError | UnknownContentType

  // ---------------------------------------------------------------------------
  // Reference definitions over the walk

  /** The entry an attachment part contributes. */
  function AttachmentOf(p: Part): Attachment
  {
    Attachment(p.filename, p.contentType,
               if p.Leaf? then Encoded(p.rawPayload) else Subparts(p.children))
  }

  /** The attachment entries of a run of parts, in order. */
  function AttachmentsOf(ps: seq<Part>): seq<Attachment>
  {
    if ps == [] then []
    else
      var last := ps[|ps| - 1];
      AttachmentsOf(ps[..|ps| - 1]) + (if last.isAttachment then [AttachmentOf(last)] else [])
  }

  /** The `attachments` key: absent when there is no attachment part. */
  function AttachmentsKey(ps: seq<Part>): Option<seq<Attachment>>
  {
    if AttachmentsOf(ps) == [] then None else Some(AttachmentsOf(ps))
  }

  /** A part that aborts the multipart branch: one whose body is decoded
      (a plain or HTML leaf that passes `if body:`) and cannot be. Attachments,
      containers and every other leaf are never decoded there. */
  predicate AbortsDecode(p: Part)
  {
    (SetsBody(p, TextPlain) || SetsBody(p, TextHtml)) && !p.decodeOk
  }

  /** Some part of the walk aborts the multipart branch. */
  predicate WalkAborts(ps: seq<Part>)
  {
    exists i :: 0 <= i < |ps| && AbortsDecode(ps[i])
  }

  /** A part whose body the multipart branch writes into the `kind` slot. */
  predicate SetsBody(p: Part, kind: string)
  {
    p.Leaf? && !p.isAttachment && p.hasHeaders && p.contentType == kind
  }

  /** The text of the last part of `ps` that sets the `kind` slot, if any. */
  function LastBody(ps: seq<Part>, kind: string): Option<string>
  {
    if ps == [] then None
    else if SetsBody(ps[|ps| - 1], kind) then Some(ps[|ps| - 1].text)
    else LastBody(ps[..|ps| - 1], kind)
  }

  /** The display name cut out of the `To` header: the text before the first
      `<`, whitespace stripped, present exactly when the header holds a `<`. */
  function DisplayName(to: string): (r: Option<string>)
    ensures r.Some? <==> '<' in to
    ensures r.Some? ==> var k := |BeforeFirst(to, '<')|;
      && k < |to| && to[k] == '<' && '<' !in to[..k]
      && r.value == Strip(to[..k])
  {
    if '<' in to then Some(Strip(BeforeFirst(to, '<'))) else None
  }

  /** `content.subject`: the `Subject` header verbatim when it is present and
      non-empty, and otherwise absent. */
  function SubjectOf(headers: seq<Header>): (r: Option<string>)
  {
    var s := Lookup(headers, "Subject");
    if s.Some? && s.value != "" then s else None
  }

  /** The source's preconditions: aiosmtpd only calls `handle_DATA` after at
      least one `RCPT`, and `msg["To"]` must be a string for `"<" in msg["To"]`. */
  predicate Admissible(msg: Email, env: Envelope)
  {
    |env.rcptTos| >= 1 && Lookup(msg.headers, "To").Some?
  }

  /** The request assembled around given body slots. */
  function Assemble(msg: Email, env: Envelope, plainText: Option<string>, html: Option<string>,
                    attachments: Option<seq<Attachment>>): SendRequest
    requires Admissible(msg, env)
  {
    SendRequest(
      Content(SubjectOf(msg.headers), plainText, html),
      Recipients([EmailAddress(env.rcptTos[0], DisplayName(Lookup(msg.headers, "To").value))]),
      env.mailFrom,
      attachments)
  }

  /** What translating `msg` under `env` yields, stated through the reference
      definitions above. */
  function Translation(msg: Email, env: Envelope): Result<SendRequest, TranslationError>
    requires Admissible(msg, env)
  {
    var root := msg.root;
    if root.Multipart? then
      var ps := Walk(root);
      if WalkAborts(ps) then Err(DecodeError)
      else Ok(Assemble(msg, env, LastBody(ps, TextPlain), LastBody(ps, TextHtml), AttachmentsKey(ps)))
    else if !root.decodeOk then Err(DecodeError)
    else if root.contentType == TextPlain then Ok(Assemble(msg, env, Some(root.text), None, None))
    else if root.contentType == TextHtml then Ok(Assemble(msg, env, None, Some(root.text), None))
    else Err(UnknownContentType)
  }

  /** How the reference definitions grow by one part of the walk. */
  lemma WalkStep(ps: seq<Part>, i: nat)
    requires i < |ps|
    ensures AttachmentsOf(ps[..i + 1])
         == AttachmentsOf(ps[..i]) + (if ps[i].isAttachment then [AttachmentOf(ps[i])] else [])
    ensures ps[i].isAttachment ==> AttachmentsKey(ps[..i + 1]) == Some(AttachmentsOf(ps[..i]) + [AttachmentOf(ps[i])])
    ensures !ps[i].isAttachment ==> AttachmentsKey(ps[..i + 1]) == AttachmentsKey(ps[..i])
    ensures forall kind :: LastBody(ps[..i + 1], kind)
                        == if SetsBody(ps[i], kind) then Some(ps[i].text) else LastBody(ps[..i], kind)
  {
    assert ps[..i + 1][..i] == ps[..i];
    assert AttachmentsOf(ps[..i]) + [] == AttachmentsOf(ps[..i]);
  }

  // ---------------------------------------------------------------------------
  // The handler

  /** `handle_DATA` up to the `send_email` call: builds the request dict in
      place while walking the message. `Ok(request)` is the request sent; an
      `Err` is the exception raised, after which nothing is sent. */
  method Translate(msg: Email, env: Envelope) returns (r: Result<SendRequest, TranslationError>)
    requires Admissible(msg, env)
    ensures r == Translation(msg, env)
  {
    var message := SendRequest(Content(None, None, None), Recipients([]), env.mailFrom, None);
    var root := msg.root;
    if root.Multipart? {
      var walked := HandleParts(Walk(root), message);
      if walked.Err? {
        return walked;
      }
      message := walked.value;
    } else {
      if !root.decodeOk {
        return Err(DecodeError);
      }
      var body := root.text;
      if root.contentType == TextPlain {
        message := message.(content := message.content.(plainText := Some(body)));
      } else if root.contentType == TextHtml {
        message := message.(content := message.content.(html := Some(body)));
      } else {
        return Err(UnknownContentType);
      }
    }
    message := HandleRecipient(Lookup(msg.headers, "To").value, env.rcptTos[0], message);
    message := HandleSubject(msg, message);
    r := Ok(message);
  }

  /** The multipart branch: visits the walk in order, appending attachment
      entries and overwriting the body slots; the first plain or HTML body part
      that cannot be decoded stops it. */
  method HandleParts(parts: seq<Part>, start: SendRequest) returns (r: Result<SendRequest, TranslationError>)
    requires start.content.plainText == None && start.content.html == None && start.attachments == None
    ensures WalkAborts(parts) <==> r.Err?
    ensures r.Err? ==> r.error == DecodeError
    ensures r.Ok? ==> r.value == start.(content := start.content.(plainText := LastBody(parts, TextPlain),
                                                                  html := LastBody(parts, TextHtml)),
                                        attachments := AttachmentsKey(parts))
  {
    var message := start;
    var i := 0;
    while i < |parts|
      invariant 0 <= i <= |parts|
      invariant forall j :: 0 <= j < i ==> !AbortsDecode(parts[j])
      invariant message == start.(content := start.content.(plainText := LastBody(parts[..i], TextPlain),
                                                            html := LastBody(parts[..i], TextHtml)),
                                  attachments := AttachmentsKey(parts[..i]))
    {
      var part := parts[i];
      WalkStep(parts, i);
      if part.isAttachment {
        if message.attachments.None? {
          message := message.(attachments := Some([]));
        }
        message := message.(attachments := Some(message.attachments.value + [AttachmentOf(part)]));
      } else if part.Leaf? && part.hasHeaders {
        // `get_body()` gave the part itself; `get_content()` may raise
        if part.contentType == TextPlain {
          if !part.decodeOk {
            return Err(DecodeError);
          }
          message := message.(content := message.content.(plainText := Some(part.text)));
        } else if part.contentType == TextHtml {
          if !part.decodeOk {
            return Err(DecodeError);
          }
          message := message.(content := message.content.(html := Some(part.text)));
        }
      }
      i := i + 1;
    }
    assert parts[..i] == parts;
    r := Ok(message);
  }

  /** The recipient section: one `to` entry for `address` (the first envelope
      recipient), given a display name when the `To` header value `toHeader`
      holds a `<`. */
  method HandleRecipient(toHeader: string, address: string, start: SendRequest) returns (message: SendRequest)
    requires start.recipients.to == []
    ensures message == start.(recipients := Recipients([EmailAddress(address, DisplayName(toHeader))]))
  {
    message := start;
    message := message.(recipients := Recipients(message.recipients.to + [EmailAddress(address, None)]));
    if '<' in toHeader {
      // the entry just appended, now given its display name
      var first := message.recipients.to[0].(displayName := Some(Strip(BeforeFirst(toHeader, '<'))));
      message := message.(recipients := Recipients([first] + message.recipients.to[1..]));
    }
  }

  /** The subject section: the subject is copied when it is present and non-empty. */
  method HandleSubject(msg: Email, start: SendRequest) returns (message: SendRequest)
    requires start.content.subject == None
    ensures message == start.(content := start.content.(subject := SubjectOf(msg.headers)))
  {
    message := start;
    var subject := Lookup(msg.headers, "Subject");
    if subject.Some? && subject.value != "" {
      message := message.(content := message.content.(subject := subject));
    }
  }
}
