# email-whatsapp relay, modelled in Dafny

index.js polls a Gmail mailbox for unread mail from one sender and relays the first listed message over Twilio. It works in these steps:

1. It extracts a text body from the MIME tree (`extractBody`).
2. It cuts the body at the first case-insensitive `Atenção:` and then at `Warning:`, and trims it.
3. It splits the body into pieces of at most 1000 characters (`.{1,1000}`) and sends each piece as one message.
4. It fetches each top-level attachment, uploads it to Cloudinary and sends a notice carrying the resulting URL.
5. Only then does it remove the message's `UNREAD` label.

At start-up, `validateEnvVars` checks that nine environment variables are set.

The model has six modules:

- `Options`: the `Option` and `Outcome` wrappers.
- `Text`: the JavaScript `trim`, the case-insensitive footer cut, and the removal of `<[^>]+>` runs. Each regular expression is written out as a string function.
- `Chunker`: the greedy split behind `body.match(/.{1,1000}/gs) || []`.
- `Mime`: the payload tree, `extractBody` (a specification function plus a method with the source's early-return loop), the `Subject` lookup and the attachment collector.
- `Config`: `validateEnvVars`.
- `Relay`: one run of `verificarEmail`.

### How `Relay` models the services

The mail, messaging and storage services are abstracted as a `World`:

- what the list call returns (`None` when the credentials or the list call throw);
- what a get returns;
- what URL an upload returns;
- which requests throw.

Each call the cycle issues after the listing is one `Call` value. A `Mailbox` object holds the set of unread message ids and the append-only log of issued calls. `Mailbox.VerifyEmail` updates both and is proved to do exactly what the specification function `RunCycle` says.

`RunCycle` is built from two combinators:

- `Single`: one call, which may throw.
- `Then`: one `try` block sequencing two stages, so that nothing after a throw runs.

The upload is the one call whose failure does not end the cycle. `uploadToCloudinary` catches its own error and returns `null`, and `if (url)` then skips the notice.

JavaScript truthiness decides every presence test in the source:

- An absent string field is modelled as `""`.
- An empty `parts` array is truthy, so the presence of `parts` is kept apart in `hasParts`.

## Model

| member | source | states |
|---|---|---|
| Text.Trim | index.js:136 | the result is the slice of the input between its leading and trailing runs of JavaScript whitespace; it neither starts nor ends with whitespace, and only whitespace is removed |
| Text.TrimKeepsTrimmed | index.js:136 | a string that neither starts nor ends with whitespace is returned unchanged |
| Text.FindCI | index.js:135-136 | returns the first position from `from` on where the sentinel matches case-insensitively, or none when there is no match |
| Text.CutAt | index.js:135-136 | the result is a prefix of the input that ends exactly at the first case-insensitive match (or is the whole input when there is none) and contains no match |
| Text.Footer | index.js:134-136 | the cleaned body is never longer than the extracted text |
| Text.FooterIsSlice | index.js:134-136 | the cleaned body is a contiguous slice of the extracted text |
| Text.FooterHasNoSentinel | index.js:135-136 | the cleaned body contains neither `Atenção:` nor `Warning:` in any letter case |
| Text.FooterWithoutSentinel | index.js:134-136 | a body that contains neither sentinel is only trimmed |
| Text.FooterDropsNotice | index.js:135 | text that contains neither `Atenção:` nor `Warning:` in any letter case, followed by `Atenção:` in any letter case and then anything, is cut back to that text trimmed |
| Text.TagEnd | index.js:127 | a tag is found at the start exactly when the text starts with `<`, a character other than `>`, and later a `>`; the tag then runs from `<` to the first `>` |
| Text.StripTags | index.js:127 | removing tags never makes the text longer |
| Text.StripTagsPlain | index.js:127 | text without `<` is returned unchanged |
| Text.StripTagsKeepsOnlyInput | index.js:127 | removing tags adds no character that was not in the input |
| Text.StripTagsTagFree | index.js:127 | text that contains no `<[^>]+>` run is returned unchanged |
| Text.StripTagsIsTagFree | index.js:127 | the result contains no `<[^>]+>` run |
| Text.StripTagsIdempotent | index.js:127 | removing tags twice gives the same text as removing them once |
| Chunker.Chunks | index.js:140 | the pieces glue back to the body; each piece is non-empty and at most 1000 long, every piece but the last is exactly 1000 long, and an empty body gives no pieces |
| Chunker.ChunksCount | index.js:140 | the number of pieces is the body length divided by 1000, rounded up |
| Chunker.ChunksUnique | index.js:140 | any split with the properties of `Chunks` is the greedy split |
| Mime.ExtractBody | index.js:118-132 | the early-return loop computes exactly `BodyOf`, the recursive definition of `extractBody` |
| Mime.BodyOfCases | index.js:119-131 | a node's own data is returned decoded and unstripped; otherwise the result is the contribution of the first contributing child; otherwise it is "" |
| Mime.ScanPartsFirstContribution | index.js:120-131 | the result is the contribution of the first contributing child, even an empty one, and "" when no child contributes; a non-empty result comes from some contributing child |
| Mime.ScanPartsNothing | index.js:120-131 | when no child contributes, the loop falls through to "" |
| Mime.TextLeafContribution | index.js:126-127 | a text/plain or text/html leaf with data contributes its decoded data with tags removed, which is the decoded data itself when it has no `<` |
| Mime.FindHeader | index.js:114 | finds the first header with the given name, or none when no header has it |
| Mime.Subject | index.js:114 | the value of the first header named exactly `Subject`, or `(sem assunto)` when there is none or its value is empty |
| Mime.AttachmentRefsAppend | index.js:149-155 | collecting over a concatenation collects each side in turn, so collection keeps the parts' order |
| Mime.AttachmentRefsMembers | index.js:149-155 | a pair is collected exactly when some part has a non-empty filename and attachment id giving that pair |
| Mime.CollectAttachments | index.js:149-155 | the loop over the payload's own parts (none when `parts` is absent) collects exactly `AttachmentRefs` of the top-level parts |
| Config.ValidateEnvVars | index.js:20-38 | passes exactly when all nine variables are set and non-empty; otherwise fails with the error message naming the first missing one in list order |
| Relay.WellStoppedCompletes | index.js:91-187 | a stage completes exactly when no call except an upload threw |
| Relay.ThenWellStopped | index.js:91-187 | under one try/catch, a sequence of stages stops right after its first throwing call that is not an upload, or runs to its end |
| Relay.SendTextsShape | index.js:141-147 | the chunk loop sends piece k as call k, in split order; it sends every piece unless a send throws, and stops at the first send that throws |
| Relay.RelayShape | index.js:157-176 | the attachment loop issues only fetches of this message's attachments, uploads and notices; it stops only at a fetch or notice that throws |
| Relay.RelayFetchesAll | index.js:157-162 | a completed attachment loop fetched every collected attachment, in order, whatever the uploads did |
| Relay.RelayUploadThenNotice | index.js:164-175 | in the attachment loop each upload directly follows its fetch and is directly followed by its notice exactly when the upload did not throw and gave a non-empty URL |
| Relay.DeliveryStops | index.js:141-182 | after a successful get, the delivery runs to the label change exactly when no call except an upload throws |
| Relay.DeliveryOrder | index.js:141-182 | after a successful get, the pieces are sent first and in order, and no text is sent after them; the label change of the fetched message can only be the last call; no message is fetched again |
| Relay.DeliveryFetchesAll | index.js:149-182 | a label change after the get means every collected attachment was fetched, in order, after all the pieces |
| Relay.DeliveryUploadThenNotice | index.js:157-176 | the upload-then-notice order holds over the whole delivery |
| Relay.CycleIdleWithoutMail | index.js:102-106 | the cycle issues no call exactly when the listing failed or was empty, and then it marks nothing read |
| Relay.CycleMarksReadOnlyWhenAllSucceeded | index.js:178-187 | the UNREAD label is removed exactly when no call of the cycle except an upload threw, and only from `messages[0]` |
| Relay.CycleMarksReadLast | index.js:178-182 | the label change, when issued, is the last call of the cycle and concerns `messages[0]` |
| Relay.CycleSendsChunksFirst | index.js:108-147 | the cycle gets `messages[0]` first, then sends piece k as call k+1; calls 1 to the number of pieces are exactly the text sends, before any attachment call or the label change; no other message is fetched |
| Relay.CycleFetchesAllBeforeMarking | index.js:149-182 | when the label change is issued, every top-level attachment was fetched, in order, after all the pieces |
| Relay.CycleUploadThenNotice | index.js:157-176 | every upload of the cycle follows its fetch and is followed by its notice exactly when `uploadToCloudinary` returned a non-empty URL |
| Relay.PrepareMessage | index.js:134-155 | the extraction, footer cut, split and attachment collection run on the fetched payload give exactly the pieces `MessageChunks` and the attachments `AttachmentRefs` of its top-level parts that the cycle specification uses |
| Relay.Mailbox.UploadToCloudinary | index.js:73-88 | issues the upload and returns its URL, or null (None) when the upload throws |
| Relay.Mailbox.SendChunks | index.js:141-147 | appends exactly the calls of `SendTexts` to the log and reports whether no send threw; the unread set is unchanged |
| Relay.Mailbox.SendAttachment | index.js:158-175 | appends exactly one pass of the attachment loop to the log |
| Relay.Mailbox.SendAttachments | index.js:157-176 | appends exactly the calls of `RelayAttachments` to the log and reports whether the loop completed; the unread set is unchanged |
| Relay.Mailbox.FinishDelivery | index.js:157-182 | appends the attachment loop and the label change to the log, and removes the message from the unread set only when the label change completed |
| Relay.Mailbox.Deliver | index.js:141-182 | appends exactly the calls of `Delivery` to the log and removes the message from the unread set only when the whole delivery completed |
| Relay.Mailbox.VerifyEmail | index.js:90-188 | appends exactly the calls of `RunCycle` to the log, and the unread set loses exactly the message `RunCycle` marks read, or nothing |
| Relay.Mailbox.FetchAndDeliver | index.js:108-182 | for a non-empty listing, issues the get of `messages[0]` and, when it succeeds, its delivery: appends exactly the calls of `RunCycle` and removes only the message `RunCycle` marks read |
| Relay.Mailbox.DeliverFetched | index.js:134-182 | after a successful get of a payload, appends exactly the calls of `Delivery` over the payload's pieces and top-level attachments, and removes the message from the unread set exactly when that delivery completes |
| Relay.Redelivery | index.js:102-147 | a later cycle that lists the same message first and gets the same payload fetches it again and sends its pieces in order, re-sending every piece the earlier cycle sent at the same position unless it stops before it |
| Relay.RedeliveredAfterFailure | index.js:102-187 | a message still unread after a cycle that did not remove its label is fetched again by the next cycle that lists it first, and its pieces are sent again in order; it leaves the unread set exactly when that second cycle removes the label |

## Left out

- getToken.js and googleAuth.js (OAuth token acquisition, reading and writing the credential files) are not part of this model.
- The Gmail, Twilio and Cloudinary SDK calls are not modelled. Their answers are fields of `World`, and an exception thrown by any of them is an element of `World.fails`.
- Base64 and UTF-8 decoding via `Buffer` is the parameter `decode`. Its behaviour is not modelled.
- Loading the credentials and the list call are folded into `World.listing = None`. This covers `loadCredentials`, its JSON parsing, and the query with its `maxResults`.
- `dotenv`, `cloudinary.config`, the Twilio client construction and `process.exit(1)` after a failed `validateEnvVars` are start-up plumbing and are not modelled.
- `console` logging is not modelled, and neither are the `from`/`to` phone numbers of the sends.
- The subject found by `Subject` only feeds a log line in index.js, so the cycle does not use it.
- `uploadToCloudinary` writes a temporary file before its `try` and unlinks it only after a successful upload. The file system is not modelled: a failing write, which would throw out of the cycle, is not represented, and the file left behind by a failed upload is not tracked. `Upload(att) in w.fails` stands for any throw inside that `try`, so a failing `fs.unlinkSync` after a successful upload, which also makes `uploadToCloudinary` return null and skips the notice, is covered by it.
- `Buffer.from(attachment.data.data)` on a fetched attachment is not modelled. The fetch either throws or succeeds.
- `setInterval(verificarEmail, 10000)` and the first asynchronous call are not modelled. Cycles are modelled one at a time, and the code has no busy flag or overlap guard to model.
- Relay.RunCycle: whether a call throws is decided per request: two identical requests in one cycle either both throw or neither does. A cycle ends at the first request that throws, uploads apart, so this changes only cycles that repeat a request: sending the same piece or notice twice, or fetching or uploading the same attachment twice. A failed upload does not end the cycle, so a repeated upload of the same attachment fails or succeeds as the first one did.
- A fetched message with no `payload`, or whose payload has no `headers`, makes index.js throw at index.js:113-114, after the get and before any send. `Mime.Part` always carries a header list and the get always returns a payload, so this abort is not represented.
- Chunker.Chunks: the length of a piece is counted in Dafny characters (Unicode scalar values). JavaScript counts UTF-16 code units, and `.` without the `u` flag can split a surrogate pair. Text outside the Basic Multilingual Plane therefore gets longer pieces in the model than in index.js.
- Text.CutAt: case-insensitive matching folds ASCII letters and the Latin-1 letters à–þ onto their upper-case forms. Unicode case folding beyond Latin-1 is not modelled; neither sentinel needs it.
- index.js makes these choices, and the model follows them:
  - `messages[0]`, the first listed id, is taken with no timestamp sort;
  - there is no busy flag and no time-of-day gate;
  - `extractBody` skips neither images nor parts with a Content-ID header, and has no plain-versus-HTML preference;
  - a text/plain or text/html child with data returns its stripped text even when that text is empty, which ends the scan with "".
