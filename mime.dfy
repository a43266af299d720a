/**
 * The Gmail message payload as index.js reads it: a tree of MIME parts,
 * the body extraction `extractBody`, the `Subject` header lookup and the
 * collection of top-level attachments.
 *
 * JavaScript truthiness decides every presence test in the source, so a
 * string field that is absent is modelled as "" (both are falsy). The
 * `parts` array is the exception: an empty array is truthy, so its
 * presence is kept apart in `hasParts`.
 */
module Mime {
  import opened Options
  import opened Text

  datatype Header = Header(name: string, value: string)

  /** `part.body`: inline base64 data and/or a reference to a stored attachment ("" when absent). */
  datatype Body = Body(data: string, attachmentId: string)

  /** One node of the payload tree; `parts` is meaningful only when `hasParts` holds. */
  datatype Part = Part(
    mimeType: string,
    filename: string,
    headers: seq<Header>,
    body: Body,
    hasParts: bool,
    parts: seq<Part>)

  /** `payload.parts || []` */
  function TopParts(p: Part): seq<Part>
  {
    if p.hasParts then p.parts else []
  }

  predicate IsText(p: Part)
  {
    p.mimeType == "text/plain" || p.mimeType == "text/html"
  }

  // ---------------------------------------------------------------------
  // extractBody
  // ---------------------------------------------------------------------

  /**
   * The text `extractBody(p)` returns; `decode` is the base64-then-UTF-8
   * decoding of `Buffer`. A node's own data wins and is not stripped of tags;
   * otherwise the children are scanned left to right.
   */
  function BodyOf(p: Part, decode: string -> string): string
    decreases p, 0
  {
    if p.body.data != "" then decode(p.body.data)
    else if p.hasParts then ScanParts(p.parts, decode)
    else ""
  }

  /** The `for (const part of payload.parts)` loop of extractBody. */
  function ScanParts(ps: seq<Part>, decode: string -> string): string
    decreases ps, 1
  {
    if ps == [] then ""
    else match Contribution(ps[0], decode)
      case Some(t) => t
      case None => ScanParts(ps[1..], decode)
  }

  /**
   * What one child makes the loop return, if anything: a child with
   * sub-parts is recursed into first and wins when its text is non-empty;
   * then a text/plain or text/html child with data returns its decoded data
   * with tags removed, whether or not that leaves anything.
   */
  function Contribution(part: Part, decode: string -> string): Option<string>
    decreases part, 2
  {
    if part.hasParts && BodyOf(part, decode) != "" then Some(BodyOf(part, decode))
    else if IsText(part) && part.body.data != "" then Some(StripTags(decode(part.body.data)))
    else None
  }

  /** extractBody as the source writes it: early returns out of a loop over the children. */
  method ExtractBody(payload: Part, decode: string -> string) returns (text: string)
    ensures text == BodyOf(payload, decode)
    decreases payload
  {
    if payload.body.data != "" {
      return decode(payload.body.data);
    }
    if payload.hasParts {
      var parts := payload.parts;
      var i := 0;
      while i < |parts|
        invariant 0 <= i <= |parts|
        invariant ScanParts(parts[i..], decode) == ScanParts(parts, decode)
      {
        var part := parts[i];
        assert parts[i..][0] == part && parts[i..][1..] == parts[i + 1..];
        if part.hasParts {
          var nested := ExtractBody(part, decode);
          if nested != "" {
            return nested;
          }
        }
        if IsText(part) && part.body.data != "" {
          return StripTags(decode(part.body.data));
        }
        i := i + 1;
      }
    }
    return "";
  }

  /**
   * The loop returns the contribution of the first child that has one,
   * and "" when no child has one.
   */
  lemma {:induction false} ScanPartsFirstContribution(ps: seq<Part>, decode: string -> string)
    ensures ScanParts(ps, decode) == "" || exists i :: 0 <= i < |ps| && Contribution(ps[i], decode).Some?
    ensures forall i :: 0 <= i < |ps| && Contribution(ps[i], decode).Some?
                        && (forall j :: 0 <= j < i ==> Contribution(ps[j], decode).None?)
                        ==> ScanParts(ps, decode) == Contribution(ps[i], decode).value
    decreases |ps|
  {
    if ps != [] {
      ScanPartsFirstContribution(ps[1..], decode);
      forall i | 0 <= i < |ps| && Contribution(ps[i], decode).Some?
                 && (forall j :: 0 <= j < i ==> Contribution(ps[j], decode).None?)
        ensures ScanParts(ps, decode) == Contribution(ps[i], decode).value
      {
        if i > 0 {
          assert ps[1..][i - 1] == ps[i];
          assert forall j :: 0 <= j < i - 1 ==> Contribution(ps[1..][j], decode).None? by {
            forall j | 0 <= j < i - 1 ensures Contribution(ps[1..][j], decode).None? {
              assert ps[1..][j] == ps[j + 1];
            }
          }
        }
      }
      if Contribution(ps[0], decode).None? && ScanParts(ps, decode) != "" {
        var i :| 0 <= i < |ps[1..]| && Contribution(ps[1..][i], decode).Some?;
        assert ps[1..][i] == ps[i + 1];
      }
    }
  }

  /**
   * extractBody on a whole node: its own data decoded as it is; failing
   * that, the contribution of its first contributing child; failing that, "".
   */
  lemma BodyOfCases(p: Part, decode: string -> string)
    ensures p.body.data != "" ==> BodyOf(p, decode) == decode(p.body.data)
    ensures p.body.data == "" && !p.hasParts ==> BodyOf(p, decode) == ""
    ensures p.body.data == "" && p.hasParts ==>
      forall i :: 0 <= i < |p.parts| && Contribution(p.parts[i], decode).Some?
                  && (forall j :: 0 <= j < i ==> Contribution(p.parts[j], decode).None?)
                  ==> BodyOf(p, decode) == Contribution(p.parts[i], decode).value
    ensures p.body.data == "" && p.hasParts
            && (forall i :: 0 <= i < |p.parts| ==> Contribution(p.parts[i], decode).None?)
            ==> BodyOf(p, decode) == ""
  {
    if p.body.data == "" && p.hasParts {
      ScanPartsFirstContribution(p.parts, decode);
      if forall i :: 0 <= i < |p.parts| ==> Contribution(p.parts[i], decode).None? {
        ScanPartsNothing(p.parts, decode);
      }
    }
  }

  /** When no child contributes, the loop falls through to "". */
  lemma {:induction false} ScanPartsNothing(ps: seq<Part>, decode: string -> string)
    requires forall i :: 0 <= i < |ps| ==> Contribution(ps[i], decode).None?
    ensures ScanParts(ps, decode) == ""
    decreases |ps|
  {
    if ps != [] {
      assert forall i :: 0 <= i < |ps[1..]| ==> ps[1..][i] == ps[i + 1];
      ScanPartsNothing(ps[1..], decode);
    }
  }

  /**
   * A text/plain or text/html leaf gives its decoded data with tags
   * removed; decoded text without `<` comes through unchanged.
   */
  lemma TextLeafContribution(part: Part, decode: string -> string)
    requires IsText(part) && part.body.data != "" && !part.hasParts
    ensures Contribution(part, decode) == Some(StripTags(decode(part.body.data)))
    ensures '<' !in decode(part.body.data) ==> Contribution(part, decode) == Some(decode(part.body.data))
  {
    if '<' !in decode(part.body.data) {
      StripTagsPlain(decode(part.body.data));
    }
  }

  // ---------------------------------------------------------------------
  // Subject lookup
  // ---------------------------------------------------------------------

  /** The fallback subject of index.js. */
  const NoSubject: string := "(sem assunto)"

  /** `headers.find((h) => h.name === name)`, as an index. */
  function FindHeader(hs: seq<Header>, name: string, from: nat): (r: Option<nat>)
    requires from <= |hs|
    ensures r.Some? ==> from <= r.value < |hs| && hs[r.value].name == name
    ensures r.Some? ==> forall j :: from <= j < r.value ==> hs[j].name != name
    ensures r.None? ==> forall j :: from <= j < |hs| ==> hs[j].name != name
    decreases |hs| - from
  {
    if from == |hs| then None
    else if hs[from].name == name then Some(from)
    else FindHeader(hs, name, from + 1)
  }

  /** `headers.find((h) => h.name === "Subject")?.value || "(sem assunto)"` */
  function Subject(hs: seq<Header>): (r: string)
    ensures forall i :: 0 <= i < |hs| && hs[i].name == "Subject"
                        && (forall j :: 0 <= j < i ==> hs[j].name != "Subject")
                        ==> r == (if hs[i].value != "" then hs[i].value else NoSubject)
    ensures (forall i :: 0 <= i < |hs| ==> hs[i].name != "Subject") ==> r == NoSubject
  {
    match FindHeader(hs, "Subject", 0)
    case Some(i) => if hs[i].value != "" then hs[i].value else NoSubject
    case None => NoSubject
  }

  // ---------------------------------------------------------------------
  // Attachment collector
  // ---------------------------------------------------------------------

  datatype AttachmentRef = AttachmentRef(filename: string, id: string)

  /** `part.filename && part.body?.attachmentId` */
  predicate IsAttachment(p: Part)
  {
    p.filename != "" && p.body.attachmentId != ""
  }

  function RefOf(p: Part): AttachmentRef
  {
    AttachmentRef(p.filename, p.body.attachmentId)
  }

  /** The references of the attachment parts among `ps`, in order. */
  function AttachmentRefs(ps: seq<Part>): seq<AttachmentRef>
  {
    if ps == [] then []
    else (if IsAttachment(ps[0]) then [RefOf(ps[0])] else []) + AttachmentRefs(ps[1..])
  }

  /** Collecting over a concatenation collects each side in turn, so order is kept. */
  lemma {:induction false} AttachmentRefsAppend(a: seq<Part>, b: seq<Part>)
    ensures AttachmentRefs(a + b) == AttachmentRefs(a) + AttachmentRefs(b)
    decreases |a|
  {
    if a == [] {
      assert a + b == b;
    } else {
      assert (a + b)[0] == a[0];
      assert (a + b)[1..] == a[1..] + b;
      AttachmentRefsAppend(a[1..], b);
    }
  }

  /** A reference is collected exactly when some part among `ps` is an attachment carrying it. */
  lemma {:induction false} AttachmentRefsMembers(ps: seq<Part>, r: AttachmentRef)
    ensures r in AttachmentRefs(ps) <==> exists i :: 0 <= i < |ps| && IsAttachment(ps[i]) && RefOf(ps[i]) == r
    decreases |ps|
  {
    if ps != [] {
      AttachmentRefsMembers(ps[1..], r);
      if exists i :: 0 <= i < |ps| && IsAttachment(ps[i]) && RefOf(ps[i]) == r {
        var i :| 0 <= i < |ps| && IsAttachment(ps[i]) && RefOf(ps[i]) == r;
        if i > 0 {
          assert ps[1..][i - 1] == ps[i];
        }
      }
      if r in AttachmentRefs(ps[1..]) {
        var i :| 0 <= i < |ps[1..]| && IsAttachment(ps[1..][i]) && RefOf(ps[1..][i]) == r;
        assert ps[1..][i] == ps[i + 1];
      }
    }
  }

  /** The attachment loop of index.js: a one-level scan of the payload's own parts. */
  method CollectAttachments(payload: Part) returns (attachments: seq<AttachmentRef>)
    ensures attachments == AttachmentRefs(TopParts(payload))
  {
    attachments := [];
    var parts := TopParts(payload);
    for i := 0 to |parts|
      invariant attachments == AttachmentRefs(parts[..i])
    {
      var part := parts[i];
      AttachmentRefsAppend(parts[..i], [part]);
      assert parts[..i + 1] == parts[..i] + [part];
      if IsAttachment(part) {
        attachments := attachments + [RefOf(part)];
      }
    }
    assert parts[..|parts|] == parts;
  }
}
