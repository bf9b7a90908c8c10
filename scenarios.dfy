/** Concrete messages run through the reference definitions, each stated as
    an equation. */
module Scenarios {
  import opened Wrappers
  import opened Mime
  import opened Translator
  import opened TranslatorFacts

  function TextLeaf(contentType: string, text: string): Part
  {
    Leaf(contentType, false, None, true, text, true, text)
  }

  /** A `multipart/alternative` message with a plain and an HTML body, a subject
      and a `To` header without a display name. */
  lemma AlternativeMessage()
    ensures var root := Multipart("multipart/alternative", false, None,
                                  [TextLeaf(TextPlain, "Hello"), TextLeaf(TextHtml, "<p>Hello</p>")]);
      && Admissible(Email(root, [Header("Subject", "Test"), Header("To", "c@d.com")]),
                    Envelope("a@b.com", ["c@d.com"]))
      && Translation(Email(root, [Header("Subject", "Test"), Header("To", "c@d.com")]),
                     Envelope("a@b.com", ["c@d.com"]))
         == Ok(SendRequest(Content(Some("Test"), Some("Hello"), Some("<p>Hello</p>")),
                           Recipients([EmailAddress("c@d.com", None)]),
                           "a@b.com", None))
  {
    var root := Multipart("multipart/alternative", false, None,
                          [TextLeaf(TextPlain, "Hello"), TextLeaf(TextHtml, "<p>Hello</p>")]);
    var headers := [Header("Subject", "Test"), Header("To", "c@d.com")];
    AlternativeBodies(root);
    AlternativeHeaders(headers);
  }

  /** The bodies of the worked example. */
  lemma AlternativeBodies(root: Part)
    requires root == Multipart("multipart/alternative", false, None,
                               [TextLeaf(TextPlain, "Hello"), TextLeaf(TextHtml, "<p>Hello</p>")])
    ensures !WalkAborts(Walk(root))
    ensures LastBody(Walk(root), TextPlain) == Some("Hello")
    ensures LastBody(Walk(root), TextHtml) == Some("<p>Hello</p>")
    ensures AttachmentsKey(Walk(root)) == None
  {
    var ps := TwoLeafWalk(root);
    assert LastBody(ps[..2], TextPlain) == Some("Hello");
    AttachmentsNone(ps);
  }

  /** The headers of the worked example. */
  lemma AlternativeHeaders(headers: seq<Header>)
    requires headers == [Header("Subject", "Test"), Header("To", "c@d.com")]
    ensures Lookup(headers, "To") == Some("c@d.com")
    ensures SubjectOf(headers) == Some("Test")
    ensures DisplayName("c@d.com") == None
  {
    assert !SameName(headers[0].name, "To");
    assert '<' !in "c@d.com";
  }

  /** The walk of a container with two leaves. */
  lemma TwoLeafWalk(root: Part) returns (ps: seq<Part>)
    requires root.Multipart? && |root.children| == 2
    requires root.children[0].Leaf? && root.children[1].Leaf?
    ensures ps == Walk(root) == [root, root.children[0], root.children[1]]
  {
    var cs := root.children;
    assert WalkAll(cs[1..]) == Walk(cs[1]) + WalkAll([]) by {
      assert cs[1..][1..] == [];
    }
    ps := Walk(root);
  }

  /** Two plain-text bodies "A" then "B": the second one is sent. */
  lemma TwoPlainBodies(headers: seq<Header>, env: Envelope)
    requires Admissible(Email(Multipart("multipart/mixed", false, None,
                                        [TextLeaf(TextPlain, "A"), TextLeaf(TextPlain, "B")]), headers), env)
    ensures var r := Translation(Email(Multipart("multipart/mixed", false, None,
                                                 [TextLeaf(TextPlain, "A"), TextLeaf(TextPlain, "B")]), headers), env);
      r.Ok? && r.value.content.plainText == Some("B")
  {
    var a, b := TextLeaf(TextPlain, "A"), TextLeaf(TextPlain, "B");
    var root := Multipart("multipart/mixed", false, None, [a, b]);
    assert WalkAll([b]) == [b];
    assert WalkAll([a, b]) == [a, b];
    assert Walk(root) == [root, a, b];
  }

  /** A plain body followed by an attached `f.pdf`: the attachment entry carries
      the file name, the content type and the payload as transmitted, and the
      body is untouched by it. */
  lemma PdfAttachment(headers: seq<Header>, env: Envelope, payload: string)
    requires Admissible(Email(Multipart("multipart/mixed", false, None,
                                        [TextLeaf(TextPlain, "Hi"),
                                         Leaf("application/pdf", true, Some("f.pdf"), true, payload, false, "")]),
                              headers), env)
    ensures var r := Translation(Email(Multipart("multipart/mixed", false, None,
                                                 [TextLeaf(TextPlain, "Hi"),
                                                  Leaf("application/pdf", true, Some("f.pdf"), true, payload, false, "")]),
                                       headers), env);
      && r.Ok?
      && r.value.content.plainText == Some("Hi") && r.value.content.html == None
      && r.value.attachments == Some([Attachment(Some("f.pdf"), "application/pdf", Encoded(payload))])
  {
    var a := TextLeaf(TextPlain, "Hi");
    var f := Leaf("application/pdf", true, Some("f.pdf"), true, payload, false, "");
    var root := Multipart("multipart/mixed", false, None, [a, f]);
    assert WalkAll([f]) == [f];
    assert WalkAll([a, f]) == [a, f];
    var ps := Walk(root);
    assert ps == [root, a, f];
    assert ps[..2] == [root, a] && ps[..1] == [root];
    assert !AbortsDecode(ps[0]) && !AbortsDecode(ps[1]) && !AbortsDecode(ps[2]);
    assert !WalkAborts(ps);
    assert LastBody(ps[..2], TextPlain) == Some("Hi");
    assert LastBody(ps, TextPlain) == Some("Hi");
    LastBodyNone(ps, TextHtml);
    var p1, p2 := [root], [root, a];
    assert p1[..0] == [] && AttachmentsOf([]) == [];
    assert AttachmentsOf(p1) == [];
    assert p2[..1] == p1;
    assert AttachmentsOf(p2) == [];
    assert ps[..2] == p2;
    assert AttachmentsOf(ps) == [AttachmentOf(f)];
  }

  /** An inline `text/calendar` part is never decoded, so a body it could not
      decode does not stop the message; neither does a plain part without
      headers, which is passed over. */
  lemma UndecodedPartsPassedOver(headers: seq<Header>, env: Envelope, payload: string)
    requires Admissible(Email(Multipart("multipart/mixed", false, None,
                                        [TextLeaf(TextPlain, "x"),
                                         Leaf("text/calendar", false, None, true, payload, false, ""),
                                         Leaf(TextPlain, false, None, false, payload, false, "")]),
                              headers), env)
    ensures var r := Translation(Email(Multipart("multipart/mixed", false, None,
                                                 [TextLeaf(TextPlain, "x"),
                                                  Leaf("text/calendar", false, None, true, payload, false, ""),
                                                  Leaf(TextPlain, false, None, false, payload, false, "")]),
                                       headers), env);
      r.Ok? && r.value.content.plainText == Some("x")
  {
    var a := TextLeaf(TextPlain, "x");
    var c := Leaf("text/calendar", false, None, true, payload, false, "");
    var h := Leaf(TextPlain, false, None, false, payload, false, "");
    var root := Multipart("multipart/mixed", false, None, [a, c, h]);
    assert WalkAll([h]) == [h];
    assert WalkAll([c, h]) == [c, h];
    assert WalkAll([a, c, h]) == [a, c, h];
    var ps := Walk(root);
    assert ps == [root, a, c, h];
    assert !AbortsDecode(ps[0]) && !AbortsDecode(ps[1]) && !AbortsDecode(ps[2]) && !AbortsDecode(ps[3]);
    assert !WalkAborts(ps);
    assert ps[..3] == [root, a, c] && ps[..2] == [root, a];
    assert LastBody(ps[..2], TextPlain) == Some("x");
    assert LastBody(ps[..3], TextPlain) == Some("x");
    assert ps[..4] == ps && ps[..4][..3] == ps[..3];
    assert LastBody(ps, TextPlain) == Some("x");
  }

  /** `To: Jane Doe <jane@x.com>` names its recipient "Jane Doe": a name without
      `<` and without surrounding whitespace, followed by a space and the
      bracketed address, is cut out exactly. */
  lemma NamedRecipient(name: string, address: string)
    requires name != [] && !Text.IsSpace(name[0]) && !Text.IsSpace(name[|name| - 1])
    requires '<' !in name
    ensures DisplayName(name + " <" + address + ">") == Some(name)
  {
    var to := name + " <" + address + ">";
    var before := Text.BeforeFirst(to, '<');
    assert to[|name| + 1] == '<';
    assert forall k :: 0 <= k <= |name| ==> to[k] != '<' by {
      forall k | 0 <= k <= |name| ensures to[k] != '<' {
        if k < |name| { assert to[k] == name[k]; }
      }
    }
    assert before == name + " ";
    assert Text.LStrip(before) == before;
    assert before[..|before| - 1] == name;
    assert Text.RStrip(name) == name;
  }

  /** A single-part `application/json` message is refused. */
  lemma JsonRefused(headers: seq<Header>, env: Envelope, payload: string, text: string)
    requires Admissible(Email(Leaf("application/json", false, None, true, payload, true, text), headers), env)
    ensures Translation(Email(Leaf("application/json", false, None, true, payload, true, text), headers), env)
         == Err(UnknownContentType)
  {
  }

  /** Without a `Subject` header the subject key is absent. */
  lemma NoSubject(root: Part, env: Envelope)
    requires Admissible(Email(root, [Header("To", "c@d.com")]), env)
    ensures var r := Translation(Email(root, [Header("To", "c@d.com")]), env);
      r.Ok? ==> r.value.content.subject == None
  {
    assert !SameName("To", "Subject");
  }
}
