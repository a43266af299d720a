/**
 * One run of `verificarEmail` in index.js: list the sender's unread mail,
 * fetch the first listed message, send its cleaned body in pieces, send a
 * notice per uploaded attachment, and only then remove the UNREAD label.
 *
 * The mail, messaging and storage services are not modelled; what they
 * answer is fixed by a `World`, and every call the cycle issues is recorded,
 * in order, in the mailbox's log. A call that throws is recorded too (it was
 * issued) and ends the cycle, because the whole body sits in one try/catch;
 * the one exception is the upload, whose failure uploadToCloudinary turns
 * into `null`.
 */
module Relay {
  import opened Options
  import opened Text
  import opened Chunker
  import opened Mime

  type MessageId = string

  /** An outgoing call of the cycle. */
  datatype Call =
    | GetMessage(id: MessageId)                                      // gmail.users.messages.get
    | SendText(body: string)                                         // client.messages.create with a body piece
    | GetAttachment(messageId: MessageId, attachment: AttachmentRef) // gmail.users.messages.attachments.get
    | Upload(attachment: AttachmentRef)                              // cloudinary.uploader.upload
    | SendMedia(body: string, mediaUrl: string)                      // client.messages.create with a media URL
    | MarkRead(id: MessageId)                                        // gmail.users.messages.modify, removing UNREAD

  /**
   * What the outside world answers during one cycle.
   * `listing` is None when loading the credentials or the list call throws;
   * `message` is what a successful get returns; `url` is the secure_url a
   * successful upload returns; `fails` holds the requests that throw. For an
   * upload, a throw anywhere inside uploadToCloudinary's `try`, the unlink
   * of the temporary file included, counts as the upload throwing.
   */
  datatype World = World(
    listing: Option<seq<MessageId>>,
    message: MessageId -> Part,
    url: AttachmentRef -> string,
    fails: set<Call>)

  /** The calls one stage issued and whether it ran to its end without an exception. */
  datatype Run = Run(calls: seq<Call>, completed: bool)

  /** The calls a whole cycle issued and the message whose UNREAD label it removed, if any. */
  datatype Cycle = Cycle(calls: seq<Call>, markedRead: Option<MessageId>)

  /** The body of an attachment notice. */
  function Caption(filename: string): string
  {
    "\U{1F4F7} Anexo: " + filename
  }

  /** The pieces the cycle sends for a fetched message. */
  function MessageChunks(payload: Part, decode: string -> string): seq<string>
  {
    Chunks(Footer(BodyOf(payload, decode)), ChunkLimit)
  }

  /** `uploadToCloudinary`: the secure URL, or null (None) when the upload throws. */
  function UploadResult(att: AttachmentRef, w: World): Option<string>
  {
    if Upload(att) in w.fails then None else Some(w.url(att))
  }

  /** `if (url)`: an upload result that leads to a notice. */
  predicate IsUrl(url: Option<string>)
  {
    url.Some? && url.value != ""
  }

  /** The calls the attachment loop may issue. */
  predicate IsAttachmentCall(c: Call, id: MessageId)
  {
    (c.GetAttachment? && c.messageId == id) || c.Upload? || c.SendMedia?
  }

  /** One call: it is issued, and the stage goes on unless it threw. */
  function Single(c: Call, fails: set<Call>): Run
  {
    Run([c], c !in fails)
  }

  /**
   * Stage `a`, then stage `b`: the whole cycle body sits in one try/catch,
   * so once a call of `a` threw nothing of `b` is issued.
   */
  function Then(a: Run, b: Run): Run
  {
    if a.completed then Run(a.calls + b.calls, b.completed) else a
  }

  /** The chunk loop: one send per piece, in order. */
  function SendTexts(chunks: seq<string>, fails: set<Call>): Run
    decreases |chunks|
  {
    if chunks == [] then Run([], true)
    else Then(Single(SendText(chunks[0]), fails), SendTexts(chunks[1..], fails))
  }

  /**
   * One pass of the attachment loop: the fetch, the upload (whose failure
   * uploadToCloudinary swallows) and, when the upload gave a URL, the
   * notice.
   */
  function AttachmentStep(id: MessageId, a: AttachmentRef, w: World): Run
  {
    var url := UploadResult(a, w);
    var notice := if IsUrl(url) then Single(SendMedia(Caption(a.filename), url.value), w.fails)
                  else Run([], true);
    Then(Single(GetAttachment(id, a), w.fails), Then(Run([Upload(a)], true), notice))
  }

  /** The attachment loop. */
  function RelayAttachments(id: MessageId, atts: seq<AttachmentRef>, w: World): Run
    decreases |atts|
  {
    if atts == [] then Run([], true)
    else Then(AttachmentStep(id, atts[0], w), RelayAttachments(id, atts[1..], w))
  }

  /** The attachment loop followed by the removal of the UNREAD label. */
  function AfterTexts(id: MessageId, atts: seq<AttachmentRef>, w: World): Run
  {
    Then(RelayAttachments(id, atts, w), Single(MarkRead(id), w.fails))
  }

  /**
   * What the cycle does after a successful get: the chunk loop over
   * `chunks`, the attachment loop over `atts`, the label change.
   */
  function Delivery(id: MessageId, chunks: seq<string>, atts: seq<AttachmentRef>, w: World): Run
  {
    Then(SendTexts(chunks, w.fails), AfterTexts(id, atts, w))
  }

  /** The whole cycle: the get of the first listed message, then its delivery. */
  function RunCycle(w: World, decode: string -> string): Cycle
  {
    if w.listing.None? || w.listing.value == [] then Cycle([], None)
    else
      var id := w.listing.value[0];
      var payload := w.message(id);
      var r := Then(Single(GetMessage(id), w.fails),
                    Delivery(id, MessageChunks(payload, decode), AttachmentRefs(TopParts(payload)), w));
      Cycle(r.calls, if r.completed then Some(id) else None)
  }

  // ---------------------------------------------------------------------
  // Where a stage stops
  // ---------------------------------------------------------------------

  /** Every call among `calls` that threw was an upload. */
  predicate OnlyUploadsFailed(calls: seq<Call>, fails: set<Call>)
  {
    forall c :: c in calls && c in fails ==> c.Upload?
  }

  /**
   * A stage ran to its end when no call but an upload threw; otherwise it
   * stopped right after the first call that threw, which was no upload.
   */
  predicate WellStopped(r: Run, fails: set<Call>)
  {
    if r.completed then OnlyUploadsFailed(r.calls, fails)
    else
      && |r.calls| > 0
      && r.calls[|r.calls| - 1] in fails && !r.calls[|r.calls| - 1].Upload?
      && OnlyUploadsFailed(r.calls[..|r.calls| - 1], fails)
  }

  /** A stage that stops well completes exactly when no call but an upload threw. */
  lemma WellStoppedCompletes(r: Run, fails: set<Call>)
    requires WellStopped(r, fails)
    ensures r.completed <==> OnlyUploadsFailed(r.calls, fails)
  {
    if !r.completed {
      assert r.calls[|r.calls| - 1] in r.calls;
    }
  }

  /** Sequencing two stages that stop well gives a stage that stops well. */
  lemma ThenWellStopped(a: Run, b: Run, fails: set<Call>)
    requires WellStopped(a, fails) && WellStopped(b, fails)
    ensures WellStopped(Then(a, b), fails)
  {
    if a.completed && !b.completed {
      var c := a.calls + b.calls;
      assert c[|c| - 1] == b.calls[|b.calls| - 1];
      assert c[..|c| - 1] == a.calls + b.calls[..|b.calls| - 1];
    }
  }

  /**
   * The chunk loop sends the pieces in order and stops well: it sends every
   * piece when no send threw, and otherwise stops at the first send that
   * threw.
   */
  lemma {:induction false} SendTextsShape(chunks: seq<string>, fails: set<Call>)
    ensures var r := SendTexts(chunks, fails);
      && WellStopped(r, fails)
      && |r.calls| <= |chunks|
      && (r.completed ==> |r.calls| == |chunks|)
      && (forall k :: 0 <= k < |r.calls| ==> r.calls[k] == SendText(chunks[k]))
    decreases |chunks|
  {
    if chunks != [] {
      var first := Single(SendText(chunks[0]), fails);
      var rest := SendTexts(chunks[1..], fails);
      SendTextsShape(chunks[1..], fails);
      ThenWellStopped(first, rest, fails);
      var r := SendTexts(chunks, fails);
      forall k | 1 <= k < |r.calls| ensures r.calls[k] == rest.calls[k - 1] { }
    }
  }

  /** The calls the attachment loop may issue for message `id`. */
  predicate AttachmentCalls(calls: seq<Call>, id: MessageId)
  {
    forall k :: 0 <= k < |calls| ==> IsAttachmentCall(calls[k], id)
  }

  /** One pass of the attachment loop starts with the fetch and stops well. */
  lemma AttachmentStepShape(id: MessageId, a: AttachmentRef, w: World)
    ensures var r := AttachmentStep(id, a, w);
      && WellStopped(r, w.fails)
      && AttachmentCalls(r.calls, id)
      && 0 < |r.calls| && r.calls[0] == GetAttachment(id, a)
  {
  }

  /**
   * The attachment loop issues only fetches of this message's attachments,
   * uploads and notices, and stops well.
   */
  lemma {:induction false} RelayShape(id: MessageId, atts: seq<AttachmentRef>, w: World)
    ensures var r := RelayAttachments(id, atts, w);
      WellStopped(r, w.fails) && AttachmentCalls(r.calls, id)
    decreases |atts|
  {
    if atts != [] {
      var step := AttachmentStep(id, atts[0], w);
      var rest := RelayAttachments(id, atts[1..], w);
      AttachmentStepShape(id, atts[0], w);
      RelayShape(id, atts[1..], w);
      ThenWellStopped(step, rest, w.fails);
      assert RelayAttachments(id, atts, w) == Then(step, rest);
      if step.completed {
        AttachmentCallsAppend(step.calls, rest.calls, id);
      }
    }
  }

  /** Calls of the attachment loop, concatenated, are calls of the attachment loop. */
  lemma AttachmentCallsAppend(a: seq<Call>, b: seq<Call>, id: MessageId)
    requires AttachmentCalls(a, id) && AttachmentCalls(b, id)
    ensures AttachmentCalls(a + b, id)
  {
    forall k | 0 <= k < |a + b| ensures IsAttachmentCall((a + b)[k], id) {
      if k >= |a| {
        assert (a + b)[k] == b[k - |a|];
      }
    }
  }

  // ---------------------------------------------------------------------
  // Which attachments are fetched
  // ---------------------------------------------------------------------

  /** The attachments whose fetch appears among `calls`, in order. */
  function Fetched(calls: seq<Call>): seq<AttachmentRef>
  {
    if calls == [] then []
    else (if calls[0].GetAttachment? then [calls[0].attachment] else []) + Fetched(calls[1..])
  }

  lemma {:induction false} FetchedAppend(a: seq<Call>, b: seq<Call>)
    ensures Fetched(a + b) == Fetched(a) + Fetched(b)
    decreases |a|
  {
    if a == [] {
      assert a + b == b;
    } else {
      assert (a + b)[0] == a[0];
      assert (a + b)[1..] == a[1..] + b;
      FetchedAppend(a[1..], b);
    }
  }

  lemma {:induction false} NoFetchAmong(calls: seq<Call>)
    requires forall k :: 0 <= k < |calls| ==> !calls[k].GetAttachment?
    ensures Fetched(calls) == []
    decreases |calls|
  {
    if calls != [] {
      NoFetchAmong(calls[1..]);
    }
  }

  /** A pass of the attachment loop that ran to its end fetched its attachment, once. */
  lemma AttachmentStepFetches(id: MessageId, a: AttachmentRef, w: World)
    ensures AttachmentStep(id, a, w).completed ==> Fetched(AttachmentStep(id, a, w).calls) == [a]
  {
    var calls := AttachmentStep(id, a, w).calls;
    if AttachmentStep(id, a, w).completed {
      NoFetchAmong(calls[1..]);
    }
  }

  /** A completed attachment loop fetched every attachment, in order, whatever the uploads did. */
  lemma {:induction false} RelayFetchesAll(id: MessageId, atts: seq<AttachmentRef>, w: World)
    ensures RelayAttachments(id, atts, w).completed ==> Fetched(RelayAttachments(id, atts, w).calls) == atts
    decreases |atts|
  {
    if atts != [] {
      var step := AttachmentStep(id, atts[0], w);
      var rest := RelayAttachments(id, atts[1..], w);
      if step.completed && rest.completed {
        RelayFetchesAll(id, atts[1..], w);
        AttachmentStepFetches(id, atts[0], w);
        FetchedAppend(step.calls, rest.calls);
        assert atts == [atts[0]] + atts[1..];
      }
    }
  }

  // ---------------------------------------------------------------------
  // Uploads and notices
  // ---------------------------------------------------------------------

  /**
   * Every upload among `calls` directly follows the fetch of its attachment,
   * and is directly followed by a notice exactly when uploadToCloudinary
   * gave a non-empty URL; the notice carries the caption and that URL.
   */
  predicate UploadsThenNotices(calls: seq<Call>, id: MessageId, w: World)
  {
    forall k :: 0 <= k < |calls| && calls[k].Upload? ==>
      && 0 < k && calls[k - 1] == GetAttachment(id, calls[k].attachment)
      && ((k + 1 < |calls| && calls[k + 1].SendMedia?) <==> IsUrl(UploadResult(calls[k].attachment, w)))
      && (k + 1 < |calls| && calls[k + 1].SendMedia? ==>
            calls[k + 1] == SendMedia(Caption(calls[k].attachment.filename), w.url(calls[k].attachment)))
  }

  lemma UploadsThenNoticesAppend(a: seq<Call>, b: seq<Call>, id: MessageId, w: World)
    requires UploadsThenNotices(a, id, w)
    requires UploadsThenNotices(b, id, w)
    requires |b| > 0 ==> !b[0].SendMedia? && !b[0].Upload?
    ensures UploadsThenNotices(a + b, id, w)
  {
    var c := a + b;
    forall k | 0 <= k < |c| && c[k].Upload?
      ensures 0 < k && c[k - 1] == GetAttachment(id, c[k].attachment)
      ensures (k + 1 < |c| && c[k + 1].SendMedia?) <==> IsUrl(UploadResult(c[k].attachment, w))
      ensures k + 1 < |c| && c[k + 1].SendMedia? ==>
                c[k + 1] == SendMedia(Caption(c[k].attachment.filename), w.url(c[k].attachment))
    {
      if k < |a| {
        assert c[k] == a[k] && a[k].Upload?;
        assert c[k - 1] == a[k - 1];
        assert (k + 1 < |a| && a[k + 1].SendMedia?) <==> IsUrl(UploadResult(a[k].attachment, w));
        if k + 1 < |a| {
          assert c[k + 1] == a[k + 1];
        } else if k + 1 < |c| {
          assert c[k + 1] == b[0];
        }
      } else {
        var j := k - |a|;
        assert c[k] == b[j] && b[j].Upload?;
        assert c[k - 1] == b[j - 1];
        assert (j + 1 < |b| && b[j + 1].SendMedia?) <==> IsUrl(UploadResult(b[j].attachment, w));
        if k + 1 < |c| {
          assert c[k + 1] == b[j + 1];
        }
      }
    }
  }

  /** One pass of the attachment loop: the upload follows the fetch, the notice follows a usable URL. */
  lemma AttachmentStepUploadThenNotice(id: MessageId, a: AttachmentRef, w: World)
    ensures UploadsThenNotices(AttachmentStep(id, a, w).calls, id, w)
  {
  }

  /**
   * Inside the attachment loop every upload directly follows the fetch of
   * its attachment, and is directly followed by a notice exactly when it
   * did not throw and gave a non-empty URL: a failed upload skips only its
   * own notice.
   */
  lemma {:induction false} RelayUploadThenNotice(id: MessageId, atts: seq<AttachmentRef>, w: World)
    ensures UploadsThenNotices(RelayAttachments(id, atts, w).calls, id, w)
    ensures var calls := RelayAttachments(id, atts, w).calls;
      |calls| > 0 ==> calls[0].GetAttachment?
    decreases |atts|
  {
    if atts != [] {
      var step := AttachmentStep(id, atts[0], w);
      AttachmentStepShape(id, atts[0], w);
      AttachmentStepUploadThenNotice(id, atts[0], w);
      if step.completed {
        var rest := RelayAttachments(id, atts[1..], w);
        RelayUploadThenNotice(id, atts[1..], w);
        UploadsThenNoticesAppend(step.calls, rest.calls, id, w);
        assert (step.calls + rest.calls)[0] == step.calls[0];
      }
    }
  }

  // ---------------------------------------------------------------------
  // Properties of the delivery of one message
  // ---------------------------------------------------------------------

  /** The attachment loop and the label change stop well; the label change comes last. */
  lemma AfterTextsShape(id: MessageId, atts: seq<AttachmentRef>, w: World)
    ensures var t := AfterTexts(id, atts, w);
      && WellStopped(t, w.fails)
      && (forall k :: 0 <= k < |t.calls| ==>
            if k == |t.calls| - 1 && RelayAttachments(id, atts, w).completed then t.calls[k] == MarkRead(id)
            else IsAttachmentCall(t.calls[k], id))
  {
    var rel := RelayAttachments(id, atts, w);
    var mark := Single(MarkRead(id), w.fails);
    RelayShape(id, atts, w);
    ThenWellStopped(rel, mark, w.fails);
    var t := Then(rel, mark);
    forall k | 0 <= k < |rel.calls| ensures t.calls[k] == rel.calls[k] { }
  }

  /** After a successful get, the delivery stops well. */
  lemma DeliveryStops(id: MessageId, chunks: seq<string>, atts: seq<AttachmentRef>, w: World)
    ensures WellStopped(Delivery(id, chunks, atts, w), w.fails)
  {
    SendTextsShape(chunks, w.fails);
    AfterTextsShape(id, atts, w);
    ThenWellStopped(SendTexts(chunks, w.fails), AfterTexts(id, atts, w), w.fails);
  }

  /**
   * After a successful get, the pieces of the body are sent one by one, in
   * order, before anything else; the label change of this message is the
   * last call, if it is issued at all; no message is fetched again.
   */
  lemma DeliveryOrder(id: MessageId, chunks: seq<string>, atts: seq<AttachmentRef>, w: World)
    ensures var d := Delivery(id, chunks, atts, w);
      && (forall k :: 0 <= k < |d.calls| && k < |chunks| ==> d.calls[k] == SendText(chunks[k]))
      && (forall k :: 0 <= k < |d.calls| ==> (d.calls[k].SendText? <==> k < |chunks|))
      && (forall k :: 0 <= k < |d.calls| && d.calls[k].MarkRead? ==> k == |d.calls| - 1 && d.calls[k] == MarkRead(id))
      && (forall k :: 0 <= k < |d.calls| ==> !d.calls[k].GetMessage?)
  {
    var texts := SendTexts(chunks, w.fails);
    SendTextsShape(chunks, w.fails);
    var d := Delivery(id, chunks, atts, w);
    if texts.completed {
      var t := AfterTexts(id, atts, w);
      AfterTextsShape(id, atts, w);
      assert d.calls == texts.calls + t.calls;
      forall k | 0 <= k < |d.calls|
        ensures k < |chunks| ==> d.calls[k] == SendText(chunks[k])
        ensures d.calls[k].SendText? <==> k < |chunks|
        ensures d.calls[k].MarkRead? ==> k == |d.calls| - 1 && d.calls[k] == MarkRead(id)
        ensures !d.calls[k].GetMessage?
      {
        if k < |texts.calls| {
          assert d.calls[k] == texts.calls[k];
        } else {
          assert d.calls[k] == t.calls[k - |texts.calls|];
        }
      }
    } else {
      assert d == texts;
    }
  }

  /** A label change after a successful get means every top-level attachment was fetched, in order. */
  lemma DeliveryFetchesAll(id: MessageId, chunks: seq<string>, atts: seq<AttachmentRef>, w: World)
    ensures var d := Delivery(id, chunks, atts, w);
      MarkRead(id) in d.calls ==> |d.calls| > |chunks| && Fetched(d.calls) == atts
  {
    var texts := SendTexts(chunks, w.fails);
    var rel := RelayAttachments(id, atts, w);
    var d := Delivery(id, chunks, atts, w);
    SendTextsShape(chunks, w.fails);
    DeliveryOrder(id, chunks, atts, w);
    if MarkRead(id) in d.calls {
      var k :| 0 <= k < |d.calls| && d.calls[k] == MarkRead(id);
      assert texts.completed && rel.completed by {
        AfterTextsShape(id, atts, w);
      }
      RelayFetchesAll(id, atts, w);
      NoFetchAmong(texts.calls);
      NoFetchAmong([MarkRead(id)]);
      FetchedAppend(rel.calls, [MarkRead(id)]);
      FetchedAppend(texts.calls, rel.calls + [MarkRead(id)]);
    }
  }

  /** The attachment loop and the label change: uploads and notices follow each other as in the loop. */
  lemma AfterTextsUploadThenNotice(id: MessageId, atts: seq<AttachmentRef>, w: World)
    ensures var t := AfterTexts(id, atts, w);
      UploadsThenNotices(t.calls, id, w) && (|t.calls| > 0 ==> t.calls[0].GetAttachment? || t.calls[0].MarkRead?)
  {
    var rel := RelayAttachments(id, atts, w);
    RelayUploadThenNotice(id, atts, w);
    if rel.completed {
      UploadsThenNoticesAppend(rel.calls, [MarkRead(id)], id, w);
      if |rel.calls| > 0 {
        assert (rel.calls + [MarkRead(id)])[0] == rel.calls[0];
      }
    }
  }

  /**
   * After a successful get, uploads and notices follow each other as in the
   * attachment loop, and the delivery never starts with an upload or a
   * notice.
   */
  lemma DeliveryUploadThenNotice(id: MessageId, chunks: seq<string>, atts: seq<AttachmentRef>, w: World)
    ensures var d := Delivery(id, chunks, atts, w);
      UploadsThenNotices(d.calls, id, w) && (|d.calls| > 0 ==> !d.calls[0].SendMedia? && !d.calls[0].Upload?)
  {
    var texts := SendTexts(chunks, w.fails);
    SendTextsShape(chunks, w.fails);
    if texts.completed {
      var t := AfterTexts(id, atts, w);
      AfterTextsUploadThenNotice(id, atts, w);
      UploadsThenNoticesAppend(texts.calls, t.calls, id, w);
      if |texts.calls| > 0 {
        assert (texts.calls + t.calls)[0] == texts.calls[0];
      }
    }
  }

  // ---------------------------------------------------------------------
  // Properties of one cycle
  // ---------------------------------------------------------------------

  /** An empty or failed listing makes the cycle issue nothing and mark nothing. */
  lemma CycleIdleWithoutMail(w: World, decode: string -> string)
    ensures RunCycle(w, decode).calls == [] <==> (w.listing.None? || w.listing.value == [])
    ensures RunCycle(w, decode).calls == [] ==> RunCycle(w, decode).markedRead.None?
  {
  }

  lemma CycleUnfold(w: World, decode: string -> string)
    requires w.listing.Some? && w.listing.value != []
    ensures var id := w.listing.value[0];
      var payload := w.message(id);
      var d := Delivery(id, MessageChunks(payload, decode), AttachmentRefs(TopParts(payload)), w);
      var r := RunCycle(w, decode);
      && r.calls == Then(Single(GetMessage(id), w.fails), d).calls
      && r.calls == (if GetMessage(id) in w.fails then [GetMessage(id)] else [GetMessage(id)] + d.calls)
      && (r.markedRead.Some? <==> Then(Single(GetMessage(id), w.fails), d).completed)
      && (r.markedRead.Some? ==> r.markedRead.value == id)
  {
  }

  /** The cycle in terms of its get and the delivery that follows a successful one. */
  lemma CycleAfterGet(w: World, decode: string -> string)
    requires w.listing.Some? && w.listing.value != []
    ensures var id := w.listing.value[0];
      var payload := w.message(id);
      var d := Delivery(id, MessageChunks(payload, decode), AttachmentRefs(TopParts(payload)), w);
      RunCycle(w, decode) ==
        if GetMessage(id) in w.fails then Cycle([GetMessage(id)], None)
        else Cycle([GetMessage(id)] + d.calls, if d.completed then Some(id) else None)
  {
  }

  /** A cycle whose get throws issues only that get and marks nothing read. */
  lemma CycleGetFails(w: World, decode: string -> string)
    requires w.listing.Some? && w.listing.value != [] && GetMessage(w.listing.value[0]) in w.fails
    ensures RunCycle(w, decode) == Cycle([GetMessage(w.listing.value[0])], None)
  {
    CycleAfterGet(w, decode);
  }

  /**
   * After a successful get, the cycle is the get followed by the delivery of
   * the pieces and attachments computed from the fetched payload, and it
   * marks the message read exactly when that delivery completes.
   */
  lemma CycleDelivers(w: World, decode: string -> string, partes: seq<string>, attachments: seq<AttachmentRef>)
    requires w.listing.Some? && w.listing.value != [] && GetMessage(w.listing.value[0]) !in w.fails
    requires partes == MessageChunks(w.message(w.listing.value[0]), decode)
    requires attachments == AttachmentRefs(TopParts(w.message(w.listing.value[0])))
    ensures var id := w.listing.value[0];
      var d := Delivery(id, partes, attachments, w);
      RunCycle(w, decode) == Cycle([GetMessage(id)] + d.calls, if d.completed then Some(id) else None)
  {
    CycleAfterGet(w, decode);
  }

  /**
   * The UNREAD label is removed exactly when no call of the cycle threw,
   * uploads apart, and it is removed from the first listed message only.
   */
  lemma CycleMarksReadOnlyWhenAllSucceeded(w: World, decode: string -> string)
    requires w.listing.Some? && w.listing.value != []
    ensures var r := RunCycle(w, decode);
      r.markedRead.Some? <==> forall c :: c in r.calls && c in w.fails ==> c.Upload?
    ensures var r := RunCycle(w, decode);
      r.markedRead.Some? ==> r.markedRead.value == w.listing.value[0]
  {
    var id := w.listing.value[0];
    var payload := w.message(id);
    var chunks, atts := MessageChunks(payload, decode), AttachmentRefs(TopParts(payload));
    var d := Delivery(id, chunks, atts, w);
    var get := Single(GetMessage(id), w.fails);
    CycleUnfold(w, decode);
    DeliveryStops(id, chunks, atts, w);
    ThenWellStopped(get, d, w.fails);
    WellStoppedCompletes(Then(get, d), w.fails);
  }

  /** The removal of the label, when issued, is the cycle's last call and concerns the first listed message. */
  lemma CycleMarksReadLast(w: World, decode: string -> string)
    requires w.listing.Some? && w.listing.value != []
    ensures var r := RunCycle(w, decode);
      forall k :: 0 <= k < |r.calls| && r.calls[k].MarkRead? ==>
        k == |r.calls| - 1 && r.calls[k] == MarkRead(w.listing.value[0])
  {
    var id := w.listing.value[0];
    var payload := w.message(id);
    CycleAfterGet(w, decode);
    GetThenDeliveryOrder(id, MessageChunks(payload, decode), AttachmentRefs(TopParts(payload)), w);
  }

  /** DeliveryOrder, shifted by the get that precedes a delivery. */
  lemma GetThenDeliveryOrder(id: MessageId, chunks: seq<string>, atts: seq<AttachmentRef>, w: World)
    ensures var calls := [GetMessage(id)] + Delivery(id, chunks, atts, w).calls;
      && calls[0] == GetMessage(id)
      && (forall k :: 0 < k < |calls| ==> !calls[k].GetMessage?)
      && (forall k :: 1 <= k < |calls| && k <= |chunks| ==> calls[k] == SendText(chunks[k - 1]))
      && (forall k :: 0 < k < |calls| ==> (calls[k].SendText? <==> k <= |chunks|))
      && (forall k :: 0 <= k < |calls| && calls[k].MarkRead? ==> k == |calls| - 1 && calls[k] == MarkRead(id))
  {
    var d := Delivery(id, chunks, atts, w);
    var calls := [GetMessage(id)] + d.calls;
    DeliveryOrder(id, chunks, atts, w);
    forall k | 1 <= k < |calls|
      ensures !calls[k].GetMessage?
      ensures k <= |chunks| ==> calls[k] == SendText(chunks[k - 1])
      ensures calls[k].SendText? <==> k <= |chunks|
      ensures calls[k].MarkRead? ==> k == |calls| - 1 && calls[k] == MarkRead(id)
    {
      assert calls[k] == d.calls[k - 1];
    }
  }

  /**
   * The cycle starts with the get of the first listed message, then sends
   * the pieces of its body one by one, in order; every attachment fetch,
   * upload, notice and the label change come after all of them, and no
   * other message is fetched.
   */
  lemma CycleSendsChunksFirst(w: World, decode: string -> string)
    requires w.listing.Some? && w.listing.value != []
    ensures var r := RunCycle(w, decode);
      && |r.calls| > 0 && r.calls[0] == GetMessage(w.listing.value[0])
      && forall k :: 0 < k < |r.calls| ==> !r.calls[k].GetMessage?
    ensures var r := RunCycle(w, decode);
      var chunks := MessageChunks(w.message(w.listing.value[0]), decode);
      forall k :: 1 <= k < |r.calls| && k <= |chunks| ==> r.calls[k] == SendText(chunks[k - 1])
    ensures var r := RunCycle(w, decode);
      var chunks := MessageChunks(w.message(w.listing.value[0]), decode);
      forall k :: 0 < k < |r.calls| ==> (r.calls[k].SendText? <==> k <= |chunks|)
  {
    var id := w.listing.value[0];
    var payload := w.message(id);
    CycleAfterGet(w, decode);
    GetThenDeliveryOrder(id, MessageChunks(payload, decode), AttachmentRefs(TopParts(payload)), w);
  }

  /**
   * When the cycle issues the label change, it has fetched every top-level
   * attachment of the message, in order, after all the pieces of its body.
   */
  lemma CycleFetchesAllBeforeMarking(w: World, decode: string -> string)
    requires w.listing.Some? && w.listing.value != []
    ensures var r := RunCycle(w, decode);
      var id := w.listing.value[0];
      MarkRead(id) in r.calls ==>
        && |r.calls| > |MessageChunks(w.message(id), decode)| + 1
        && Fetched(r.calls) == AttachmentRefs(TopParts(w.message(id)))
  {
    var id := w.listing.value[0];
    var payload := w.message(id);
    var chunks, atts := MessageChunks(payload, decode), AttachmentRefs(TopParts(payload));
    var d := Delivery(id, chunks, atts, w);
    CycleUnfold(w, decode);
    DeliveryFetchesAll(id, chunks, atts, w);
    FetchedAppend([GetMessage(id)], d.calls);
    NoFetchAmong([GetMessage(id)]);
  }

  /**
   * Every upload of the cycle directly follows the fetch of its attachment
   * and is directly followed by a notice exactly when uploadToCloudinary
   * gave a non-empty URL.
   */
  lemma CycleUploadThenNotice(w: World, decode: string -> string)
    requires w.listing.Some? && w.listing.value != []
    ensures UploadsThenNotices(RunCycle(w, decode).calls, w.listing.value[0], w)
  {
    var id := w.listing.value[0];
    var payload := w.message(id);
    var chunks, atts := MessageChunks(payload, decode), AttachmentRefs(TopParts(payload));
    var d := Delivery(id, chunks, atts, w);
    CycleUnfold(w, decode);
    DeliveryUploadThenNotice(id, chunks, atts, w);
    UploadsThenNoticesAppend([GetMessage(id)], d.calls, id, w);
  }

  // ---------------------------------------------------------------------
  // The mailbox
  // ---------------------------------------------------------------------

  /**
   * The state one cycle changes: the set of messages carrying the UNREAD
   * label, and the append-only log of the calls issued so far.
   */
  class Mailbox {
    var unread: set<MessageId>
    var log: seq<Call>

    constructor (initiallyUnread: set<MessageId>)
      ensures unread == initiallyUnread && log == []
    {
      unread := initiallyUnread;
      log := [];
    }

    /** `uploadToCloudinary`: the upload call is issued; a throw becomes null. */
    method UploadToCloudinary(att: AttachmentRef, w: World) returns (url: Option<string>)
      modifies this
      ensures log == old(log) + [Upload(att)] && unread == old(unread)
      ensures url == UploadResult(att, w)
    {
      log := log + [Upload(att)];
      if Upload(att) in w.fails {
        return None;
      }
      return Some(w.url(att));
    }

    /** The chunk loop of verificarEmail. */
    method SendChunks(partes: seq<string>, w: World) returns (completed: bool)
      modifies this
      ensures log == old(log) + SendTexts(partes, w.fails).calls && unread == old(unread)
      ensures completed == SendTexts(partes, w.fails).completed
    {
      var i := 0;
      while i < |partes|
        invariant 0 <= i <= |partes| && unread == old(unread)
        invariant log + SendTexts(partes[i..], w.fails).calls == old(log) + SendTexts(partes, w.fails).calls
        invariant SendTexts(partes[i..], w.fails).completed == SendTexts(partes, w.fails).completed
      {
        assert partes[i..][0] == partes[i] && partes[i..][1..] == partes[i + 1..];
        log := log + [SendText(partes[i])];
        if SendText(partes[i]) in w.fails {
          return false;
        }
        i := i + 1;
      }
      return true;
    }

    /** One pass of the attachment loop of verificarEmail. */
    method SendAttachment(id: MessageId, att: AttachmentRef, w: World) returns (completed: bool)
      modifies this
      ensures log == old(log) + AttachmentStep(id, att, w).calls && unread == old(unread)
      ensures completed == AttachmentStep(id, att, w).completed
    {
      log := log + [GetAttachment(id, att)];
      if GetAttachment(id, att) in w.fails {
        return false;
      }
      var url := UploadToCloudinary(att, w);
      if url.Some? && url.value != "" {
        var notice := SendMedia(Caption(att.filename), url.value);
        log := log + [notice];
        if notice in w.fails {
          return false;
        }
      }
      return true;
    }

    /** The attachment loop of verificarEmail. */
    method SendAttachments(id: MessageId, attachments: seq<AttachmentRef>, w: World) returns (completed: bool)
      modifies this
      ensures log == old(log) + RelayAttachments(id, attachments, w).calls && unread == old(unread)
      ensures completed == RelayAttachments(id, attachments, w).completed
    {
      var j := 0;
      while j < |attachments|
        invariant 0 <= j <= |attachments| && unread == old(unread)
        invariant log + RelayAttachments(id, attachments[j..], w).calls
                  == old(log) + RelayAttachments(id, attachments, w).calls
        invariant RelayAttachments(id, attachments[j..], w).completed
                  == RelayAttachments(id, attachments, w).completed
      {
        assert attachments[j..][0] == attachments[j] && attachments[j..][1..] == attachments[j + 1..];
        ghost var step := AttachmentStep(id, attachments[j], w);
        ghost var rest := RelayAttachments(id, attachments[j + 1..], w);
        assert RelayAttachments(id, attachments[j..], w) == Then(step, rest);
        var ok := SendAttachment(id, attachments[j], w);
        if !ok {
          return false;
        }
        assert log + rest.calls == old(log) + RelayAttachments(id, attachments, w).calls;
        j := j + 1;
      }
      return true;
    }

    /** The end of verificarEmail: relay the attachments, then remove the UNREAD label. */
    method FinishDelivery(id: MessageId, attachments: seq<AttachmentRef>, w: World)
      modifies this
      ensures log == old(log) + AfterTexts(id, attachments, w).calls
      ensures unread == if AfterTexts(id, attachments, w).completed then old(unread) - {id} else old(unread)
    {
      var relayed := SendAttachments(id, attachments, w);
      if !relayed {
        return;
      }
      log := log + [MarkRead(id)];
      if MarkRead(id) in w.fails {
        return;
      }
      unread := unread - {id};
    }

    /**
     * The part of verificarEmail after a successful get: send the pieces,
     * relay the attachments, remove the UNREAD label.
     */
    method Deliver(id: MessageId, partes: seq<string>, attachments: seq<AttachmentRef>, w: World)
      modifies this
      ensures log == old(log) + Delivery(id, partes, attachments, w).calls
      ensures unread == if Delivery(id, partes, attachments, w).completed then old(unread) - {id} else old(unread)
    {
      var sent := SendChunks(partes, w);
      if !sent {
        return;
      }
      FinishDelivery(id, attachments, w);
    }

    /** `verificarEmail`: one poll cycle against the answers of `w`. */
    method VerifyEmail(w: World, decode: string -> string)
      modifies this
      ensures log == old(log) + RunCycle(w, decode).calls
      ensures unread == if RunCycle(w, decode).markedRead.Some? then old(unread) - {RunCycle(w, decode).markedRead.value} else old(unread)
    {
      if w.listing.None? {
        return;
      }
      var messages := w.listing.value;
      if |messages| == 0 {
        return;
      }
      FetchAndDeliver(w, decode);
    }

    /** The part of verificarEmail from the get of the first listed message on. */
    method FetchAndDeliver(w: World, decode: string -> string)
      requires w.listing.Some? && w.listing.value != []
      modifies this
      ensures log == old(log) + RunCycle(w, decode).calls
      ensures unread == if RunCycle(w, decode).markedRead.Some? then old(unread) - {RunCycle(w, decode).markedRead.value} else old(unread)
    {
      var id := w.listing.value[0];
      log := log + [GetMessage(id)];
      if GetMessage(id) in w.fails {
        CycleGetFails(w, decode);
        return;
      }
      var payload := w.message(id);
      CycleDelivers(w, decode, MessageChunks(payload, decode), AttachmentRefs(TopParts(payload)));
      ghost var before := log;
      DeliverFetched(id, payload, decode, w);
      assert before == old(log) + [GetMessage(id)];
    }

    /** The part of verificarEmail after a successful get of `payload`. */
    method DeliverFetched(id: MessageId, payload: Part, decode: string -> string, w: World)
      modifies this
      ensures var d := Delivery(id, MessageChunks(payload, decode), AttachmentRefs(TopParts(payload)), w);
        && log == old(log) + d.calls
        && unread == if d.completed then old(unread) - {id} else old(unread)
    {
      var partes, attachments := PrepareMessage(payload, decode);
      Deliver(id, partes, attachments, w);
    }
  }

  /**
   * What verificarEmail computes from a fetched payload before sending
   * anything: the pieces of its cleaned body and its top-level attachments.
   */
  method PrepareMessage(payload: Part, decode: string -> string) returns (partes: seq<string>, attachments: seq<AttachmentRef>)
    ensures partes == MessageChunks(payload, decode)
    ensures attachments == AttachmentRefs(TopParts(payload))
  {
    var extracted := ExtractBody(payload, decode);
    var body := Footer(extracted);
    partes := Chunks(body, ChunkLimit);
    attachments := CollectAttachments(payload);
  }

  /**
   * At-least-once delivery, on the answers alone: when a later cycle lists
   * the same message first and gets the same payload back, it fetches that
   * message again and sends the pieces of its body in the same positions as
   * the earlier cycle did, so every piece the earlier cycle sent is sent
   * again unless the later cycle stops before it.
   */
  lemma Redelivery(w: World, w2: World, decode: string -> string)
    requires w.listing.Some? && w.listing.value != []
    requires w2.listing.Some? && w2.listing.value != [] && w2.listing.value[0] == w.listing.value[0]
    requires w2.message(w.listing.value[0]) == w.message(w.listing.value[0])
    ensures var r2 := RunCycle(w2, decode);
      |r2.calls| > 0 && r2.calls[0] == GetMessage(w.listing.value[0])
    ensures var r1, r2 := RunCycle(w, decode), RunCycle(w2, decode);
      var chunks := MessageChunks(w.message(w.listing.value[0]), decode);
      forall k :: 1 <= k < |r2.calls| && k <= |chunks| ==> r2.calls[k] == SendText(chunks[k - 1])
    ensures var r1, r2 := RunCycle(w, decode), RunCycle(w2, decode);
      forall k :: 1 <= k < |r1.calls| && k < |r2.calls| && r1.calls[k].SendText? ==> r2.calls[k] == r1.calls[k]
  {
    var chunks := MessageChunks(w.message(w.listing.value[0]), decode);
    var r1, r2 := RunCycle(w, decode), RunCycle(w2, decode);
    CycleSendsChunksFirst(w, decode);
    CycleSendsChunksFirst(w2, decode);
    forall k | 1 <= k < |r1.calls| && k < |r2.calls| && r1.calls[k].SendText?
      ensures r2.calls[k] == r1.calls[k]
    {
      assert k <= |chunks|;
    }
  }

  /**
   * At-least-once delivery on the mailbox: a cycle that did not remove the
   * label leaves the message unread; a second cycle whose listing puts it
   * first again gets it again and re-sends its pieces, and the label leaves
   * the message only if that second cycle completes.
   */
  method RedeliveredAfterFailure(m: Mailbox, w: World, w2: World, decode: string -> string)
    requires w.listing.Some? && w.listing.value != [] && w.listing.value[0] in m.unread
    requires RunCycle(w, decode).markedRead.None?
    requires w2.listing.Some? && w2.listing.value != [] && w2.listing.value[0] == w.listing.value[0]
    requires w2.message(w.listing.value[0]) == w.message(w.listing.value[0])
    modifies m
    ensures m.log == old(m.log) + RunCycle(w, decode).calls + RunCycle(w2, decode).calls
    ensures m.unread == if RunCycle(w2, decode).markedRead.Some? then old(m.unread) - {w.listing.value[0]} else old(m.unread)
    ensures w.listing.value[0] in m.unread <==> RunCycle(w2, decode).markedRead.None?
    ensures var r2 := RunCycle(w2, decode);
      var chunks := MessageChunks(w.message(w.listing.value[0]), decode);
      && |r2.calls| > 0 && r2.calls[0] == GetMessage(w.listing.value[0])
      && forall k :: 1 <= k < |r2.calls| && k <= |chunks| ==> r2.calls[k] == SendText(chunks[k - 1])
  {
    m.VerifyEmail(w, decode);
    assert w.listing.value[0] in m.unread;
    m.VerifyEmail(w2, decode);
    Redelivery(w, w2, decode);
    CycleMarksReadOnlyWhenAllSucceeded(w2, decode);
  }
}
