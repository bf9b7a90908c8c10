/** What the translation promises, proved about the reference definitions in
    `Translator` and therefore about what `Translator.Translate` returns. */
module TranslatorFacts {
  import opened Wrappers
  import opened Mime
  import opened Translator

  // ---------------------------------------------------------------------------
  // Body slots: last writer wins

  /** A body slot stays empty exactly when no part of the walk writes it. */
  lemma {:induction false} LastBodyNone(ps: seq<Part>, kind: string)
    ensures LastBody(ps, kind).None? <==> forall i :: 0 <= i < |ps| ==> !SetsBody(ps[i], kind)
  {
    if ps != [] {
      var init := ps[..|ps| - 1];
      LastBodyNone(init, kind);
      assert forall i :: 0 <= i < |init| ==> init[i] == ps[i];
    }
  }

  /** A body slot holds the text of the last part of the walk that writes it:
      every earlier writer is overwritten. */
  lemma {:induction false} LastBodyOfLastWriter(ps: seq<Part>, kind: string, i: nat)
    requires i < |ps| && SetsBody(ps[i], kind)
    requires forall j :: i < j < |ps| ==> !SetsBody(ps[j], kind)
    ensures LastBody(ps, kind) == Some(ps[i].text)
  {
    if i < |ps| - 1 {
      var init := ps[..|ps| - 1];
      LastBodyOfLastWriter(init, kind, i);
    }
  }

  /** The slot after two runs of parts is the second run's writer if it has one,
      and otherwise the first run's. */
  lemma {:induction false} LastBodyAppend(a: seq<Part>, b: seq<Part>, kind: string)
    ensures LastBody(a + b, kind) == if LastBody(b, kind).Some? then LastBody(b, kind) else LastBody(a, kind)
    decreases |b|
  {
    if b == [] {
      assert a + b == a;
    } else {
      var ab := a + b;
      assert ab[|ab| - 1] == b[|b| - 1];
      assert ab[..|ab| - 1] == a + b[..|b| - 1];
      LastBodyAppend(a, b[..|b| - 1], kind);
    }
  }

  /** A part that does not write a slot can be placed anywhere in the walk
      without changing it: attachment parts, containers, headerless parts and
      parts of another content type never affect `plainText` or `html`. */
  lemma LastBodyIgnores(a: seq<Part>, p: Part, b: seq<Part>, kind: string)
    requires !SetsBody(p, kind)
    ensures LastBody(a + [p] + b, kind) == LastBody(a + b, kind)
  {
    LastBodyAppend(a + [p], b, kind);
    LastBodyAppend(a, b, kind);
    assert (a + [p])[..|a + [p]| - 1] == a;
  }

  /** An attachment part never writes either body slot. */
  lemma AttachmentNeverSetsBody(a: seq<Part>, p: Part, b: seq<Part>)
    requires p.isAttachment
    ensures LastBody(a + [p] + b, TextPlain) == LastBody(a + b, TextPlain)
    ensures LastBody(a + [p] + b, TextHtml) == LastBody(a + b, TextHtml)
  {
    LastBodyIgnores(a, p, b, TextPlain);
    LastBodyIgnores(a, p, b, TextHtml);
  }

  // ---------------------------------------------------------------------------
  // Attachments: one entry per attachment part, in walk order

  /** The entries of two runs of parts are the first run's followed by the second's. */
  lemma {:induction false} AttachmentsAppend(a: seq<Part>, b: seq<Part>)
    ensures AttachmentsOf(a + b) == AttachmentsOf(a) + AttachmentsOf(b)
    decreases |b|
  {
    if b == [] {
      assert a + b == a;
    } else {
      var ab := a + b;
      assert ab[|ab| - 1] == b[|b| - 1];
      assert ab[..|ab| - 1] == a + b[..|b| - 1];
      AttachmentsAppend(a, b[..|b| - 1]);
    }
  }

  /** There are no entries (and so no `attachments` key) exactly when no part of
      the walk is an attachment. */
  lemma {:induction false} AttachmentsNone(ps: seq<Part>)
    ensures AttachmentsOf(ps) == [] <==> forall i :: 0 <= i < |ps| ==> !ps[i].isAttachment
    ensures AttachmentsKey(ps).None? <==> forall i :: 0 <= i < |ps| ==> !ps[i].isAttachment
  {
    if ps != [] {
      var init := ps[..|ps| - 1];
      AttachmentsNone(init);
      assert forall i :: 0 <= i < |init| ==> init[i] == ps[i];
    }
  }

  /** The attachment part at position `i` of the walk contributes its entry
      (file name, content type, payload untouched) right after the entries of
      the parts before it. */
  lemma AttachmentsInOrder(ps: seq<Part>, i: nat)
    requires i < |ps| && ps[i].isAttachment
    ensures var k := |AttachmentsOf(ps[..i])|;
      && k < |AttachmentsOf(ps)|
      && AttachmentsOf(ps)[k] == Attachment(ps[i].filename, ps[i].contentType,
                                            if ps[i].Leaf? then Encoded(ps[i].rawPayload) else Subparts(ps[i].children))
  {
    assert ps == ps[..i] + [ps[i]] + ps[i + 1..];
    AttachmentsAppend(ps[..i] + [ps[i]], ps[i + 1..]);
    AttachmentsAppend(ps[..i], [ps[i]]);
    assert AttachmentsOf([ps[i]]) == [AttachmentOf(ps[i])] by {
      assert [ps[i]][..0] == [];
    }
  }

  // ---------------------------------------------------------------------------
  // The whole translation

  /** The sender is the envelope's, and `recipients.to` holds exactly one entry:
      the first envelope recipient, with the display name cut from `To`. */
  lemma SenderAndRecipient(msg: Email, env: Envelope)
    requires Admissible(msg, env)
    ensures var r := Translation(msg, env);
      r.Ok? ==> && r.value.senderAddress == env.mailFrom
                && |r.value.recipients.to| == 1
                && r.value.recipients.to[0].address == env.rcptTos[0]
                && r.value.recipients.to[0].displayName == DisplayName(Lookup(msg.headers, "To").value)
  {
  }

  /** Envelope recipients after the first make no difference. */
  lemma LaterRecipientsIgnored(msg: Email, env: Envelope, more: seq<string>)
    requires Admissible(msg, env)
    ensures Admissible(msg, env.(rcptTos := env.rcptTos + more))
    ensures Translation(msg, env.(rcptTos := env.rcptTos + more)) == Translation(msg, env)
  {
    assert (env.rcptTos + more)[0] == env.rcptTos[0];
  }

  /** `content.subject` is the `Subject` header verbatim when it is present and
      non-empty; otherwise the key is absent. */
  lemma SubjectRule(msg: Email, env: Envelope)
    requires Admissible(msg, env)
    ensures var r := Translation(msg, env); var s := Lookup(msg.headers, "Subject");
      r.Ok? ==> && (r.value.content.subject.Some? <==> s.Some? && s.value != "")
                && (r.value.content.subject.Some? ==> r.value.content.subject.value == s.value)
  {
  }

  /** Translation fails exactly when a body part cannot be decoded (both
      branches) or a single-part message is neither plain text nor HTML, and
      the failure is then the one the source raises. */
  lemma FailureCases(msg: Email, env: Envelope)
    requires Admissible(msg, env)
    ensures var r := Translation(msg, env); var root := msg.root;
      && (r == Err(DecodeError) <==>
            if root.Multipart? then WalkAborts(Walk(root)) else !root.decodeOk)
      && (r == Err(UnknownContentType) <==>
            root.Leaf? && root.decodeOk && root.contentType != TextPlain && root.contentType != TextHtml)
  {
  }

  /** A multipart message: each body slot is the last writer's text, and the
      attachments are those of the walk, the key absent when there are none. */
  lemma MultipartRequest(msg: Email, env: Envelope)
    requires Admissible(msg, env) && msg.root.Multipart?
    ensures var r := Translation(msg, env); var ps := Walk(msg.root);
      r.Ok? ==> && r.value.content.plainText == LastBody(ps, TextPlain)
                && r.value.content.html == LastBody(ps, TextHtml)
                && r.value.attachments == (if AttachmentsOf(ps) == [] then None else Some(AttachmentsOf(ps)))
  {
  }

  /** A single-part message fills only the slot of its own type and never has
      attachments, whatever its `Content-Disposition`. */
  lemma SinglePartRequest(msg: Email, env: Envelope)
    requires Admissible(msg, env) && msg.root.Leaf? && msg.root.decodeOk
    ensures var r := Translation(msg, env); var root := msg.root;
      && (root.contentType == TextPlain ==>
            r.Ok? && r.value.content.plainText == Some(root.text) && r.value.content.html == None
            && r.value.attachments == None)
      && (root.contentType == TextHtml ==>
            r.Ok? && r.value.content.html == Some(root.text) && r.value.content.plainText == None
            && r.value.attachments == None)
  {
  }
}
