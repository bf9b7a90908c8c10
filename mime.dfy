/** The parsed email document as the translator sees it: the part tree the
    MIME parser builds, its pre-order walk, and header lookup on the root.
    Parsing itself belongs to the email library and is not modelled; each
    part carries, as plain fields, what the library's accessors would report
    for it. */
module Mime {
  import opened Wrappers

  /** One node of the MIME tree.
      A `Multipart` is any part whose payload is a list of subparts (the
      `multipart/...` and `message/...` types); a `Leaf` carries one body.
      - `contentType`: `get_content_type()`;
      - `isAttachment`: `is_attachment()` (a `Content-Disposition: attachment` header);
      - `filename`: `get_filename()`, `None` when the part names no file;
      - `hasHeaders`: the part has at least one header line. For a `text/plain`
        or `text/html` leaf `get_body()` returns the part itself (for any other
        leaf it returns `None`), and `if body:` tests its header count, so such
        a leaf without headers is passed over. The field matters only below the
        root: the root's headers are the `Email`'s header list, and the
        single-part branch makes no `if body:` test;
      - `rawPayload`: `get_payload()`, the body as transmitted, undecoded;
      - `decodeOk`: `get_content()` on the part succeeds;
      - `text`: `get_content()`, the decoded body text. */
  datatype Part =
    | Multipart(contentType: string, isAttachment: bool, filename: Option<string>, children: seq<Part>)
    | Leaf(contentType: string, isAttachment: bool, filename: Option<string>,
           hasHeaders: bool, rawPayload: string, decodeOk: bool, text: string)

  /** `msg.walk()`: the part itself, then the walks of its children in order. */
  function Walk(p: Part): (ps: seq<Part>)
    decreases p, 1
    ensures |ps| >= 1 && ps[0] == p
    ensures p.Leaf? ==> ps == [p]
  {
    match p
    case Leaf(_, _, _, _, _, _, _) => [p]
    case Multipart(_, _, _, children) => [p] + WalkAll(children)
  }

  /** The walks of a sequence of sibling parts, concatenated in order. */
  function WalkAll(cs: seq<Part>): seq<Part>
    decreases cs, 0
  {
    if cs == [] then [] else Walk(cs[0]) + WalkAll(cs[1..])
  }

  /** Walking a list of siblings is walking each part of it in turn: the walk
      of two adjacent runs of children is the walk of the first run followed
      by the walk of the second. */
  lemma {:induction false} WalkAllAppend(a: seq<Part>, b: seq<Part>)
    ensures WalkAll(a + b) == WalkAll(a) + WalkAll(b)
    decreases a
  {
    if a == [] {
      assert a + b == b;
    } else {
      assert (a + b)[0] == a[0];
      assert (a + b)[1..] == a[1..] + b;
      WalkAllAppend(a[1..], b);
    }
  }

  /** Every part of a child's walk is visited by its parent's walk, after the
      parent itself. */
  lemma {:induction false} WalkVisitsChild(p: Part, i: nat, q: Part)
    requires p.Multipart? && i < |p.children|
    requires q in Walk(p.children[i])
    ensures q in Walk(p)[1..]
  {
    var cs := p.children;
    assert cs == cs[..i] + [cs[i]] + cs[i + 1..];
    WalkAllAppend(cs[..i] + [cs[i]], cs[i + 1..]);
    WalkAllAppend(cs[..i], [cs[i]]);
    assert WalkAll([cs[i]]) == Walk(cs[i]) + WalkAll([]);
    assert Walk(p)[1..] == WalkAll(cs);
  }

  /** A header line of the root part. */
  datatype Header = Header(name: string, value: string)

  /** ASCII lower case, as header names are compared. */
  function Lower(c: char): char
  {
    if 'A' <= c <= 'Z' then (c as int + 32) as char else c
  }

  /** Header names are matched without regard to case. */
  predicate SameName(a: string, b: string)
  {
    |a| == |b| && forall k :: 0 <= k < |a| ==> Lower(a[k]) == Lower(b[k])
  }

  /** `msg[name]`: the value of the first header whose name matches, or `None`. */
  function Lookup(headers: seq<Header>, name: string): (r: Option<string>)
    ensures r.Some? <==> exists i :: 0 <= i < |headers| && SameName(headers[i].name, name)
    ensures r.Some? ==> exists i :: (0 <= i < |headers| && SameName(headers[i].name, name)
                                     && r.value == headers[i].value
                                     && forall j :: 0 <= j < i ==> !SameName(headers[j].name, name))
  {
    if headers == [] then None
    else if SameName(headers[0].name, name) then Some(headers[0].value)
    else
      var r := Lookup(headers[1..], name);
      assert forall i :: 1 <= i < |headers| ==> headers[i] == headers[1..][i - 1];
      r
  }
}
