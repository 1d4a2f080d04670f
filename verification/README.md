# Encrypted matrix-vector products: a verified model

The repository implements an encrypted matrix-vector product protocol: a client
encrypts a matrix under a masked dual encoding of a cyclic code, uploads it, sends
encrypted queries, and decodes the server's block answers into plaintext products.
Around the protocol stand an answer engine with parallel tiers and a device
budget, a descriptor-table wire codec over reused workspaces, a load-once server
session, and a client that verifies every product.

This project models those parts in Dafny 4.11 and proves:

- **the protocol**: encrypt, query, answer and decode give exactly `M q` over the
  field, through the imperative kernels with their reused and aliased scratch, and
  what each secret contributes (`ProtocolSpec`, `Code`, `Encryption`,
  `QueryGeneration`, `Answering`, `Decoding`, `Blinding`);
- **the engine**: planning, the arena, staged uploads, every interleaving of the
  parallel row tasks and of the budget counter (`Engine`, `ParallelTier`, `Upload`,
  `Budget`);
- **the wire**: reading inverts writing and writing inverts reading, for every
  message, over workspaces with any history, and which payloads are accepted
  (`Layout`, `CodecLaws`, `Frame`, `Codec`, `Messages`, `Views`, `Writer`, `Codes`,
  `ErrorFrames`, `Acknowledgment`, `Delivery`, `Acceptance`);
- **the session**: what the connection loop reads, sends, loads and returns on any
  input, and with which code it refuses (`Requests`, `Handling`, `Session`,
  `Conversation`, `Rejections`), and whole runs of the client against it (`Client`,
  `WholeRun`, `Tampering`);
- **the arithmetic below**: the parameter search and its exact big-integer
  comparison, the field constants, sampling and the bulk kernels (`ExactPower`,
  `ParameterSets`, `PrimeField`, `Inversion`, `Kernels`, `Encoding`, `Prf`).

## How to read it

Code that updates state in place is a class or a method over arrays, proved equal to
a specification function; what that function means is proved by lemmas.
`ProtocolSpec` holds the protocol's formulas, `Layout` and `CodecLaws` the wire's, and
`Handling` says of one frame, and of a whole connection, every outcome with its
reply and its cause. `dafny verify dfyconfig.toml` checks everything.

- Field values are canonical integers below the modulus; proofs work over the
  integers and reduce. A host word is 64 bits wide.
- Sampled vectors are functions of the query identifier, so every theorem holds for
  every outcome of the generators.
- Allocator refusals, diagnostic texts, the tier policy and worker schedules are
  parameters (`Handling.Host`), and so is the check that bytes are UTF-8; parallel
  row and query orders are arbitrary.
- In `WholeRun` the client's bytes are the loop's input and the loop's bytes are the
  client's: what the client reads after its upload is what the loop sends for the
  upload alone, and what it reads after its request is what the loop sends beyond
  that for both.

## Where the code says less than its comments

- `emvp/src/params.rs:76-78` returns true for `lambda = 0` even when the product is
  zero; exactness is stated for 1 to 4096.
- `emvp/src/engine.rs:1273-1287` builds the reservations lazily, so a batch that
  fails at matrix `i` never releases those after `i`; the comment at 1288-1290 claims
  a full release. `Budget.FullReleaseIffLast` gives the exact amount and
  `Budget.FirstOfTwoFailing` a run.
- `emvp/src/engine.rs:1743-1755` refuses against the value it loaded, so a request
  that fits the counter as it stands can be refused; `Budget.ReservesInTwo` says
  exactly when it is not.
- `emvp-network/src/workspace.rs:41-48` asks for room counted from the capacity where
  the vector counts from its length; nothing is claimed of capacities.
- A request frame that fails to decode closes the session
  (`server/src/session.rs:475-482`); only an invalid request is answered in band.
- `server/src/session.rs:414-422` loads the set before it builds the acknowledgment:
  a refused acknowledgment buffer closes a session that is already loaded.
- `ParameterSets.Validate` reports a dimension overflow for a block of the whole
  length whose ceiling overflows, a set that is insecure anyway.
- A writer whose total with the header overflows reports an error after the bytes
  are already written.

## Model

| member | source | states |
|---|---|---|
| `ProtocolSpec.Correctness` | emvp/src/protocol.rs:956-1583 | for every prime modulus above 2, valid secrets, matrix, query and identifier: encrypting, querying, answering and decoding gives exactly the plaintext product |
| `ProtocolSpec.RowCorrect` | emvp/src/protocol.rs:1570-1583 | decoding one row of a served answer gives that row of the plaintext product |
| `ProtocolSpec.Unscaled` | emvp/src/protocol.rs:1249-1263 | undoing the block scalars of a served answer leaves the encoded row against the unpermuted query |
| `ProtocolSpec.SystematicIsProduct` | emvp/src/protocol.rs:1233-1241 | the identity half of the dual encoding meets the padded query in exactly the plaintext product |
| `ProtocolSpec.CodewordVanishes` | emvp/src/protocol.rs:1205-1278 | the sampled codeword contributes nothing to any answer |
| `Blinding.MaskShifts` | emvp/src/protocol.rs:1038-1051 | a ciphertext word less its mask word is the dual encoding's word, both read through the permutation |
| `Blinding.MaskDetermined` | emvp/src/protocol.rs:1038-1051 | canonical masks that encrypt a matrix alike are equal: every mask word reaches the ciphertext |
| `Blinding.EveryMatrixFits` | emvp/src/protocol.rs:1038-1051 | for any other matrix some canonical mask gives the same ciphertext |
| `Blinding.ScalarsUnblind` | emvp/src/protocol.rs:1243-1263 | the key holds the inverses of exactly the sampled scalars, and a query word times its block's inverse is the shifted vector's word through the permutation |
| `Blinding.CodewordShifts` | emvp/src/protocol.rs:1228-1236 | the shifted vector less the padded query is the codeword of the sampled message |
| `Code.DualOrthogonal` | emvp/src/code.rs:228-297 | the dual-encoded row and the reverse-convolve-reverse codeword have dot product zero modulo the field, for every multiplier, row of at most k coefficients and message |
| `Code.CirculantTranspose` | emvp/src/code.rs:272-297 | reverse, convolve, reverse is multiplication by the transposed circulant, over the integers |
| `Code.ConvolveUnit` | emvp/src/code.rs:306-337 | convolving with a unit vector rotates the multiplier |
| `Code.SystematicForm` | emvp/src/code.rs:228-297 | codewords are spanned by the identity beside a circulant of the multiplier, dual rows by its negated transpose beside the identity |
| `Code.FoldIsCyclic` | emvp/src/code.rs:306-337 | folding a long cyclic convolution of padded operands gives the convolution with indices modulo k |
| `Code.CyclicConvolve` | emvp/src/code.rs:306-337 | both plans, of length k and of folded length at least 2k-1, leave the naive index-mod-k convolution in the output |
| `Code.DualEncodeRow` | emvp/src/code.rs:228-260 | refuses bad lengths with the buffers as they were, else writes the dual encoding, whatever the scratch held |
| `Code.SampleCodeword` | emvp/src/code.rs:272-297 | writes the codeword of the sampled message, whatever the scratch held |
| `Encryption.EncodeMaskedRow` | emvp/src/protocol.rs:1038-1051 | turns one mask row into its masked, gathered ciphertext row in place |
| `Encryption.FillEncryptedRows` | emvp/src/protocol.rs:996-1034 | the rows, taken in any order, turn the mask into the ciphertext of the matrix |
| `QueryGeneration.QueryCore` | emvp/src/protocol.rs:1205-1278 | one query and its key are a function of the secrets, vector and identifier: nothing the scratch held matters, including its head reused for the scalars |
| `QueryGeneration.ScaleBlocks` | emvp/src/protocol.rs:1249-1263 | every block is multiplied by its own scalar, and the dead head of the shifted vector then holds exactly the scalars |
| `QueryGeneration.DerivedState.Encrypt` | emvp/src/protocol.rs:956-987 | a state encrypts at most one well-sized matrix; a refusal changes nothing |
| `QueryGeneration.DerivedState.ReserveQueryIds` | emvp/src/protocol.rs:721-734 | reserves one contiguous range of identifiers or leaves the counter as it was |
| `QueryGeneration.DerivedState.Query` | emvp/src/protocol.rs:1066-1127 | the new counter and the result are those of the serial step |
| `QueryGeneration.DerivedState.QueryBatch` | emvp/src/protocol.rs:1148-1199 | validates whole, reserves once, and returns the batch result for any assignment of queries to workers |
| `QueryGeneration.BatchEqualsLoop` | emvp/src/protocol.rs:1148-1199 | an accepted batch is the serial loop: same artifacts, same final counter, every call succeeding |
| `QueryGeneration.LoopAllIssuedIffReserved` | emvp/src/protocol.rs:1148-1199 | every call of the serial loop succeeds exactly when the vectors fit and the whole range can be reserved |
| `QueryGeneration.QueryAccounts` | emvp/src/protocol.rs:1066-1127 | a query uses exactly the next identifier, or fails, for its length or for lack of identifiers, and uses none |
| `QueryGeneration.BatchAccounts` | emvp/src/protocol.rs:1148-1199 | a batch uses exactly the next identifiers in order, or fails, empty, misshapen or out of identifiers, and uses none |
| `QueryGeneration.TraceIncreases` | emvp/src/protocol.rs:721-734 | over any sequence of reservations, queries and batches, failing ones included, issued identifiers strictly increase within the index bound |
| `QueryGeneration.NoRandomnessReuse` | emvp/src/protocol.rs:1066-1199 | no two uses of any generator over such a sequence read the same words of the root stream |
| `Prf.SlotsDisjoint` | emvp/src/prf.rs:91-107 | distinct purpose and index pairs read disjoint eight-word slots |
| `Prf.CheckIsExact` | emvp/src/prf.rs:101-107 | the index check accepts precisely the slots inside their purpose's window |
| `Answering.FillAnswerRow` | emvp/src/protocol.rs:306-338 | writes the block dot products of one row and touches nothing else |
| `Answering.FillAnswerBatch` | emvp/src/protocol.rs:1411-1426 | flat rows, taken in any order, fill a range with the answers of the queries one after the other, and touch nothing outside it |
| `Answering.BatchChunk` | emvp/src/protocol.rs:1411-1426 | the j-th chunk of a batch range is the j-th query's own answer |
| `Answering.AnswerInto` | emvp/src/protocol.rs:1291-1304 | refuses without touching the output, else leaves the answer in it |
| `Decoding.DecodeRow` | emvp/src/protocol.rs:1570-1583 | the accumulated row is the answer row against the scalars' inverses, less the mask share |
| `Decoding.DecodeInto` | emvp/src/protocol.rs:1440-1449 | refuses without touching the output, else decodes into exactly the requested head |
| `Decoding.DecodeBatchInto` | emvp/src/protocol.rs:1467-1511 | a batch is decoded all or not at all, each answer as on its own, in any order |
| `ParallelTier.StepKeepsInvariant` | emvp/src/engine.rs:1958-1980 | every step of every row task keeps what is already written right and moves only its own task on |
| `ParallelTier.AnyScheduleAnswers` | emvp/src/engine.rs:1958-1980 | any interleaving that finishes every row leaves the entry's range equal to the answers in query order, whatever the arena and the pooled rows held |
| `ParallelTier.StepConservesRows` | emvp/src/engine.rs:626-650 | pooled and leased staging rows together change only by newly allocated ones |
| `ParallelTier.WarmPoolServes` | emvp/src/engine.rs:626-650 | a pool with a row for every task in flight never allocates |
| `ParallelTier.RunTasks` | emvp/src/engine.rs:1958-1980 | the tasks, run on the shared arena in any complete schedule, write the entry's answers and nothing else |
| `ParallelTier.OneByOneIsComplete` | emvp/src/engine.rs:1958-1980 | complete schedules exist: one worker taking the rows in order |
| `Engine.PlanJobs` | emvp/src/engine.rs:1785-1831 | a request plans exactly when it is not empty, every entry is acceptable and its words fit; a rejection names the first bad entry and why |
| `Engine.AcceptanceComposes` | emvp/src/engine.rs:1785-1831 | two requests are acceptable together exactly when each is and they share no handle; one job by its engine, its queries' presence, width and instance |
| `Engine.RangesTile` | emvp/src/engine.rs:1785-1831 | planned ranges are consecutive, disjoint and tile the arena |
| `Engine.EngineWorkspace.Reserve` | emvp/src/engine.rs:712-730 | the arena grows to the plan or not at all, never shrinks, and keeps what it held |
| `Engine.EngineWorkspace.Execute` | emvp/src/engine.rs:1580-1684 | refuses a too small arena before any mutation, else every entry's range holds its answers on either tier, whatever was there before |
| `Engine.ViewsAreAnswers` | emvp/src/engine.rs:801-834 | the j-th view of an executed entry is the answer to its j-th query |
| `Upload.PrepareBatch` | emvp/src/engine.rs:1236-1330 | a set is retained whole and in order exactly when it is servable and its bytes can be counted; a refusal names the first bad upload |
| `Upload.PlanPrepare` | emvp/src/engine.rs:1354-1385 | plans exactly the servable sets whose words can be counted |
| `Upload.PrepareWorkspace.Reserve` | emvp/src/engine.rs:1026-1060 | pins every planned slot to its length over any earlier contents; capacities never shrink |
| `Upload.PrepareWorkspace.Copy` | emvp/src/engine.rs:1090-1130 | copies every upload into its slot exactly when plan, uploads and slots match, and writes no slot otherwise |
| `Upload.PrepareCommitted` | emvp/src/engine.rs:1411-1442 | retains what the slots hold as the direct batch would, and names why not |
| `Upload.StagedUpload` | emvp/src/engine.rs:1026-1442 | plan, reserve, copy and commit on a workspace with any history give the direct batch's handles, and fail on a servable set only for a refused slot |
| `Budget.BudgetSafety` | emvp/src/engine.rs:1742-1766 | in every interleaving the counter covers the live handles and stays within the maximum; with no caller under way it is their bytes plus those of matrices whose reservation was never created |
| `Budget.OnlyFailuresLose` | emvp/src/engine.rs:1236-1330 | without a failing upload nothing is lost, so the counter is exact |
| `Budget.ExchangeOutcome` | emvp/src/engine.rs:1742-1766 | an exchange refuses exactly when the value it loaded leaves no room, reserves the whole request exactly when that value still stands, and otherwise retries with the value observed |
| `Budget.ReservesInTwo` | emvp/src/engine.rs:1742-1766 | two undisturbed attempts succeed exactly when the request fits both the value loaded first and the value standing now |
| `Budget.RefusedOnAStaleValue` | emvp/src/engine.rs:1742-1755 | fitting now is not enough: a caller that loaded too full a counter is refused even when the room has been made since |
| `Budget.StaleExample` | emvp/src/engine.rs:1742-1755 | four bytes refused against an empty budget of eight |
| `Budget.WholeBatch` | emvp/src/engine.rs:1236-1330 | a batch that fits and uploads leaves one live handle per matrix and exactly its bytes more on the counter |
| `Budget.DropReturns` | emvp/src/engine.rs:83-96 | only the last clone returns anything, exactly its handle's bytes; a clone and its drop cancel out |
| `Budget.DroppingAllReturnsAll` | emvp/src/engine.rs:83-96 | after any run, with every caller idle, dropping every clone returns everything but the lost bytes, so everything if no upload failed |
| `Budget.FullReleaseIffLast` | emvp/src/engine.rs:1273-1290 | an upload failing at matrix i releases the bytes of matrices 0 to i and keeps the rest, so all of them exactly when i is last: the lazy iterator against the full release its comment claims |
| `Budget.FirstOfTwoFailing` | emvp/src/engine.rs:1288-1290 | two four-byte matrices, the first failing: nothing is live and four bytes stay reserved |
| `CodecLaws.ParseInvertsEncode` | emvp-network/src/encode.rs:31-203 | for all three message layouts, planning and decoding a written payload gives back the parts that were written |
| `CodecLaws.EncodeInvertsParse` | emvp-network/src/decode.rs:35-152 | re-encoding the views of any accepted payload gives that payload byte for byte |
| `CodecLaws.EncodedLength` | emvp-network/src/encode.rs:31-203 | the written bytes are exactly as many as the header declares |
| `Bytes.LittleEndian` | emvp-network/src/frame.rs:328-365 | byte i of a written integer is its digit of weight 256^i |
| `Acceptance.RequestAccepted` | emvp-network/src/plan.rs:293-377 | the accepted request payloads are exactly the encodings of lists whose entries each hold no queries or queries of one positive width, and they decode to those lists |
| `Acceptance.UploadAccepted` | emvp-network/src/plan.rs:168-229 | the accepted upload payloads are exactly the encodings of matrices with positive dimensions and exactly their canonical values |
| `Acceptance.ProductsAccepted` | emvp-network/src/plan.rs:395-481 | the accepted products payloads are exactly the encodings of entries with positive dimensions whose answers have that shape |
| `Acceptance.CutIsTruncated` | emvp-network/src/plan.rs:168-521 | an accepted payload cut anywhere is refused as truncated |
| `Acceptance.MoreIsTrailing` | emvp-network/src/plan.rs:168-521 | an accepted payload with anything after it is refused for exactly that many trailing bytes |
| `Acceptance.AcknowledgmentBounds` | emvp-network/src/plan.rs:242-274 | an accepted acknowledgment cut short is truncated, and run on has that many trailing bytes |
| `Acceptance.ZeroIsRefused` | emvp-network/src/plan.rs:262-272 | an identifier list that names a zero anywhere is refused for that |
| `Acceptance.FrameForm` | emvp-network/src/frame.rs:58-143 | the kind's number, the payload length least significant byte first, the payload |
| `Acceptance.UploadForm` | emvp-network/src/encode.rs:31-55 | where each field of an uploaded matrix stands |
| `Acceptance.RequestForm` | emvp-network/src/encode.rs:70-129 | where each field of a request stands |
| `Acceptance.ProductsForm` | emvp-network/src/encode.rs:147-203 | where each field of an answer stands |
| `Layout.PlanRanges` | emvp-network/src/plan.rs:168-229 | accepted value and item ranges are consecutive, disjoint and tile their tables, and tables and values are the whole payload |
| `Layout.DescriptorSizes` | emvp-network/src/plan.rs:485-503 | the declared descriptor sizes are the widths of the fields they list |
| `Codec.PlanFrame` | emvp-network/src/plan.rs:168-481 | the streaming planner accepts, rejects and lays out exactly as the payload parse does |
| `Codec.Workspace.Reserve` | emvp-network/src/workspace.rs:76-258 | success installs the plan and never shrinks the arena or loses its contents; a refusal is only the allocator's |
| `Codec.Workspace.Decode` | emvp-network/src/decode.rs:35-152 | streams the value region into the arena and yields the parsed parts or the first bad word, and success leaves nothing unread |
| `Codec.DecodePayload` | emvp-network/src/decode.rs:35-152 | on a workspace with any history the outcome is the payload's own parse, or a refused allocation |
| `Frame.Stream.ReadHeader` | emvp-network/src/frame.rs:114-129 | a clean end only before the first byte; a header that starts must complete and name a known kind |
| `Frame.FrameReader.ReadFieldSlice` | emvp-network/src/frame.rs:257-282 | chunked decoding writes exactly its range, equals decoding the region whole, and reports the first non-canonical word |
| `Writer.Sink.WriteMessage` | emvp-network/src/encode.rs:31-203 | one frame with the encoding as its payload, or nothing when the length does not fit |
| `Writer.Sink.WriteFieldSlice` | emvp-network/src/frame.rs:374-386 | chunks leave no trace in the bytes |
| `Writer.Sink.WriteEvaluate` | emvp-network/src/encode.rs:70-129 | written exactly when every entry's queries share one width and the length fits; a width mismatch writes nothing |
| `Writer.Sink.WriteProducts` | emvp-network/src/encode.rs:147-203 | written exactly when every answer has its entry's shape and the length fits |
| `Writer.Sink.WriteError` | emvp-network/src/messages.rs:83-97 | one error frame whose payload is the code's number and the diagnostic text |
| `Codes.FromU32` | emvp-network/src/error.rs:60-95 | the numbers 1 to 21 are known, each as the code that carries it |
| `Codes.CodeReadsBack` | emvp-network/src/error.rs:60-95 | every code reads back as itself |
| `ErrorFrames.ErrorArrives` | emvp-network/src/messages.rs:83-141 | a written rejection reads back as its code and its text, for every code below 2^32 |
| `ErrorFrames.ErrorReturns` | emvp-network/src/messages.rs:125-141 | an accepted rejection re-encodes to its own bytes |
| `ErrorFrames.ErrorFramesDiffer` | emvp-network/src/messages.rs:83-97 | two rejections with the same bytes have the same code and text |
| `ErrorFrames.ReplyNamesItsCode` | emvp-network/src/messages.rs:83-97 | no reply is an error reply of two codes |
| `ErrorFrames.ErrorsStandApart` | emvp-network/src/messages.rs:83-97 | an error reply is no frame of another kind |
| `ErrorFrames.ReadErrorPayload` | emvp-network/src/messages.rs:125-141 | the streaming reader gives the payload's own parse, and success consumes exactly the payload |
| `Acceptance.ErrorForm` | emvp-network/src/messages.rs:83-97 | the code's number in the first of four bytes, the text's length, the text |
| `Acknowledgment.ParseInvertsIds` | emvp-network/src/messages.rs:58-73 | a written identifier list parses back to itself |
| `Acknowledgment.IdsInvertParse` | emvp-network/src/decode.rs:70-82 | an accepted acknowledgment re-encodes to its own bytes |
| `Acknowledgment.ReadIds` | emvp-network/src/plan.rs:242-274 | the streaming reader gives the payload's own parse, and success consumes exactly the payload |
| `Writer.FrameArrives` | emvp-network/src/frame.rs:114-143 | a written frame reads back as its kind, length and payload, and leaves the stream at what follows |
| `Delivery.UploadArrives` | emvp-network/src/encode.rs:31-55 | a sendable upload set decodes to itself and passes session validation |
| `Delivery.RequestArrives` | emvp-network/src/encode.rs:70-129 | a sendable request decodes to itself, entries without queries included |
| `Delivery.ReplyArrives` | emvp-network/src/encode.rs:147-203 | sendable products decode to themselves |
| `Delivery.UploadReturns` | emvp-network/src/decode.rs:35-57 | an accepted upload payload is the encoding of its own typed views |
| `Delivery.RequestReturns` | emvp-network/src/decode.rs:93-115 | an accepted request payload is the encoding of its own typed entries |
| `Delivery.ReplyReturns` | emvp-network/src/decode.rs:126-152 | an accepted products payload is the encoding of its own typed entries |
| `Views.QueryAtIsQuery` | emvp-network/src/views.rs:203-318 | the lazy query accessor over an arena slice yields exactly the entry's queries, and nothing past the last |
| `Views.AnswerAtIsAnswer` | emvp-network/src/views.rs:399-535 | the lazy answer accessor yields exactly the entry's answers, and nothing past the last |
| `Views.QueryIter.Next` | emvp-network/src/views.rs:356-369 | each step yields the first query left and keeps the others, until none is left |
| `Requests.ValidateUploadViews` | server/src/session.rs:668-710 | accepts exactly the non-empty sets that fit their parameters and whose bytes can be counted, totals them, and otherwise names the first bad upload and the first check it fails |
| `Requests.PrepareEvaluate` | server/src/session.rs:740-800 | accepts exactly the valid requests, in entry order, and otherwise names the first bad entry or query and the first check it fails |
| `Requests.RangesTileQueries` | server/src/session.rs:740-800 | the entries' query ranges are consecutive, tile the collected queries, and each holds its own entry's |
| `Requests.QueriesCompose` | server/src/session.rs:740-800 | two lists of queries fit together exactly when each fits and they share no identifier; one query by its width and instance |
| `Requests.RequestsCompose` | server/src/session.rs:740-800 | two requests fit together exactly when each fits and they share no matrix; one entry when its matrix is loaded and it has queries, which fit |
| `Requests.PrevalidationIsComplete` | server/src/session.rs:740-800 | a valid request on a loaded set is acceptable to the engine entry by entry: never empty, repeated, foreign or mismatched |
| `Handling.OnlyOverflowIsLeft` | emvp/src/engine.rs:1785-1885 | the one planning rejection left for such a request is an arena offset at or above 2^64 |
| `Handling.LoadsWhenItCan` | server/src/session.rs:290-427 | an upload handled on an empty session loads and is acknowledged whenever it decodes, is acceptable and nothing is refused |
| `Handling.RepliesWhenItCan` | server/src/session.rs:459-547 | a request handled on a loaded session gets its products whenever it is valid, its sizes fit and nothing is refused |
| `Handling.FrameIsSafe` | server/src/session.rs:242-261 | the phase moves only from empty to loaded on an upload, and a frame that continues consumed exactly its payload |
| `Handling.LoadedForGood` | server/src/session.rs:121-153 | over every frame sequence the loaded set never changes |
| `Handling.LeavesEmptyOnce` | server/src/session.rs:121-153 | over every frame sequence the empty phase is left at most once |
| `Handling.LoadedBeforeEvaluated` | server/src/session.rs:121-153 | every request handled on a loaded session follows the upload that loaded its set |
| `Handling.NoFrameIsSkipped` | server/src/session.rs:121-153 | serving does not stop before a frame that follows frames which continued |
| `Handling.NothingPastTheEnd` | server/src/session.rs:121-153 | once the frames end the input, the connection ends cleanly and nothing more is sent |
| `Session.ServerSession.HandleUpload` | server/src/session.rs:290-392 | either the set is loaded under 1 to n and acknowledged, or one error frame with the code of a decode, validation or slot refusal closes the connection |
| `Session.ServerSession.LoadAndReply` | server/src/session.rs:397-427 | identifiers 1 to n in upload order, loaded even when the acknowledgment's buffer is refused |
| `Session.ServerSession.HandleEvaluate` | server/src/session.rs:459-547 | replies with the products in request order or one in-band rejection, or closes for a decode failure, an overflow, a refused arena or an unwritable reply, with the matching code |
| `Session.ServerSession.AnswerRequest` | server/src/session.rs:510-547 | a valid request is answered, or refused for the size of its answers or a refused arena only |
| `Session.ServerSession.SendProducts` | server/src/session.rs:553-617 | the materialized answers, in entry order, are the served products' frame exactly when it fits |
| `Session.ServerSession.HandleFrame` | server/src/session.rs:242-261 | every frame kind in every phase: what is read, sent, loaded and returned |
| `Session.ServerSession.ServeConnection` | server/src/session.rs:121-153 | the frames of the input are handled one after the other as above until a frame closes, the input ends or no header follows; the bytes sent are the frames' replies in order, then the unknown-kind reply if that is the cause, which the result names |
| `Conversation.UploadAlone` | server/src/session.rs:121-153 | on a loadable upload frame the loop sends exactly the acknowledgment and ends cleanly |
| `Conversation.UploadThenRequest` | server/src/session.rs:121-153 | on an upload frame then a request frame it sends exactly the acknowledgment then the products, and ends cleanly |
| `Rejections.RejectionCode` | server/src/session.rs:459-507 | the reply to a bad request carries the code of the first check its first bad entry fails: unknown, repeated, empty, or its first bad query's |
| `Rejections.QueryRejectionCode` | server/src/session.rs:772-793 | within an entry the first bad query decides: width, then instance, then repetition |
| `Rejections.UploadRejectionCode` | server/src/session.rs:668-710 | a refused upload carries the code of the first check its first bad matrix fails, and closes cleanly |
| `Rejections.WireNumbers` | server/src/failure.rs:60-75 | the number each cause travels under |
| `Rejections.UndecodableCloses` | server/src/session.rs:475-482 | a payload the codec refuses is reported by that refusal's code and closes the connection |
| `Rejections.MisframedRequest` | server/src/session.rs:475-482 | a request cut short is answered with a truncation, one that runs on with trailing bytes |
| `Rejections.ValidRequestOutcome` | server/src/session.rs:510-547 | with nothing refused, a valid request is answered exactly when its answers fit the arena and the wire; otherwise the session ends with an engine failure or an overflow |
| `Rejections.RejectedInBandOnly` | server/src/session.rs:500-507 | a request that decodes but is not valid leaves the session as it was, consumes exactly its payload, and the session goes on |
| `Rejections.EmptyEntryInBand` | server/src/session.rs:763-765 | an entry without queries travels the wire and is rejected in band as an empty request |
| `Rejections.RejectionIsSkipped` | server/src/session.rs:121-153 | after an upload and a bad request the set is still loaded and the next frame is handled |
| `Rejections.RejectedThenServed` | server/src/session.rs:121-153 | an upload, a bad request and a good one: the acknowledgment, one rejection, and exactly the good request's products |
| `Rejections.AskedTooEarly` | server/src/session.rs:464-473 | a request before any upload is refused unread as not loaded, and the connection ends |
| `Rejections.UploadedTwice` | server/src/session.rs:295-306 | a second upload is refused whatever it holds as already loaded, and the set stays |
| `Rejections.WrongDirection` | server/src/session.rs:248-259 | a frame only a server sends is refused unread, and the connection ends abnormally |
| `Rejections.ClientIsTold` | client/src/session.rs:274-300 | a client that reads an error reply learns exactly its code |
| `Client.ValidateUploadReply` | client/src/session.rs:366-386 | passes exactly one distinct nonzero identifier per matrix, and otherwise says which fails |
| `Client.ReadUploadReply` | client/src/session.rs:274-300 | accepts exactly a whole acknowledgment frame of distinct nonzero identifiers, one per matrix, and reports a rejection by what it says |
| `Client.ReadProducts` | client/src/session.rs:218-242 | yields exactly what a whole products frame carries, and reports a rejection by what it says |
| `Client.ClientBuffers.EvaluateEntries` | client/src/session.rs:398-434 | one entry per instance with its own identifier and queries, cut from the refilled scratch |
| `Client.ClientBuffers.VerifyAnswer` | client/src/session.rs:511-537 | passes exactly when the answer is the key's own and decodes to the plaintext product, whatever the buffers held |
| `Client.ClientBuffers.VerifyProducts` | client/src/session.rs:445-503 | passes exactly when every entry answers its own request and every answer verifies, and counts them |
| `Client.PlaintextProductInto` | client/src/session.rs:562-572 | writes the plaintext matrix-vector product |
| `WholeRun.DeriveInstance` | client/src/session.rs:575-622 | the instance is a function of the sampled material, for any row order, worker count and assignment |
| `WholeRun.AnswerCorrect` | client/src/session.rs:511-537 | a served answer passes the key's checks and decodes to its own query's product |
| `Tampering.CorruptionIsCaught` | client/src/session.rs:511-537 | an answer that verifies does not verify with any one word replaced by another field value |
| `Tampering.ServedCorruptionIsCaught` | client/src/session.rs:511-537 | so no served answer survives the change of one word |
| `WholeRun.ReplyReady` | client/src/session.rs:445-503 | every entry a loaded server returns is sendable, of the predicted length, and verifies |
| `WholeRun.Converse` | client/src/session.rs:171-264 | the client reads its identifiers from what the loop sends for its upload, and its products from what the loop sends beyond that for its request; all verify |
| `WholeRun.Run` | client/src/session.rs:316-354 | for every non-empty list of matrices and positive query count whose frames fit the wire: the identifiers are 1 to n, every product verifies, the count is all queries, and the server ends cleanly |
| `Handling.SerialHostServes` | server/src/session.rs:121-153 | hosts that are fair and refuse nothing exist |
| `ExactPower.ScaledPowGePow2` | emvp/src/params.rs:75-137 | the limb loop with both early exits decides factor*base^exp >= 2^lambda exactly for lambda 1 to 4096, in fewer than lambda multiplications; lambda 0 is always true |
| `ExactPower.MultiplyInPlace` | emvp/src/params.rs:112-126 | one in-place multiplication scales the limbs' value by the base and never runs out of limbs |
| `ParameterSets.ValidateDimensions` | emvp/src/params.rs:364-382 | accepts exactly the well-shaped dimensions, and a rejection names a constraint that fails |
| `ParameterSets.Validate` | emvp/src/params.rs:315-353 | accepts exactly the sets that meet every documented constraint, and a rejection names one that fails |
| `ParameterSets.InclusionExclusionLevels` | emvp/src/params.rs:337-350 | a set of s blocks resists exactly the levels below (s - 1) k, and one block resists none |
| `ParameterSets.AlgebraicLevels` | emvp/src/params.rs:325-336 | with blocks of 2^t the algebraic constraint is t bits per degree, and for a lower degree 2^u t bits for all but one factor and u for the last |
| `ParameterSets.BlocksOfTwo` | emvp/src/params.rs:325-336 | with blocks of two the algebraic constraint is that the rank is at least the level |
| `ParameterSets.SmallestAt128` | emvp/src/params.rs:315-353 | rank 128 with blocks of two is sound at level 128; one block is not, nor is rank 127 |
| `ParameterSets.Divisors` | emvp/src/params.rs:428-443 | the square-root loop lists every divisor exactly once, ascending |
| `ParameterSets.Search` | emvp/src/params.rs:413-452 | a found set is sound, of least feasible rank and largest block at that rank; exhaustion means no rank in the budget has a sound divisor |
| `PrimeField.ModularPow` | prime-field-layer/src/prime_field.rs:99-111 | square and multiply gives the power, and no intermediate product wraps |
| `PrimeField.IsPrime` | prime-field-layer/src/prime_field.rs:113-162 | accepts exactly the strong probable primes to bases 2, 7 and 61 past trial division |
| `PrimeField.PrimesAreAccepted` | prime-field-layer/src/prime_field.rs:113-162 | no prime is ever rejected |
| `PrimeField.MontgomeryNegInv` | prime-field-layer/src/prime_field.rs:164-172 | five Newton steps give the negated inverse modulo 2^32 of every odd modulus |
| `PrimeField.MontgomeryMul` | prime-field-layer/src/prime_field/scalar.rs:68-75 | the wrapping reduction with its carry returns the product over 2^32, reduced |
| `PrimeField.MontgomeryMulStoresProduct` | prime-field-layer/src/prime_field/scalar.rs:68-75 | the Montgomery product of two stored elements stores their product |
| `PrimeField.TwoAdicRoot` | prime-field-layer/src/prime_field.rs:174-188 | for every odd prime below 2^32 the search terminates and the root has order exactly 2^two_adicity |
| `PrimeField.RootOfUnity` | prime-field-layer/src/prime_field/scalar.rs:150-160 | an element of exact order length for every power of two dividing the modulus less one, and a refusal for every other length |
| `ProtocolModulus.ProtocolModulusIsPrime` | emvp-network/src/frame.rs:24 | the protocol modulus is prime |
| `Inversion.BatchInvert` | prime-field-layer/src/field_element/bulk.rs:52-80 | rejects lengths that differ and any zero without writing, else each element gets its own inverse |
| `Kernels.DotProduct` | prime-field-layer/src/arithmetic_kernels.rs:88-114 | the four-lane product is the plain sum of products |
| `Kernels.DotPicks` | prime-field-layer/src/arithmetic_kernels.rs:88-114 | against a unit vector the dot product picks one element |
| `Kernels.WeightedScan` | prime-field-layer/src/arithmetic_kernels.rs:149-161 | the in-place scan leaves the weighted prefix sums |
| `Kernels.BatchedWeightedScan` | prime-field-layer/src/arithmetic_kernels.rs:181-206 | every lane of the interleaved scan is an independent weighted prefix sum |
| `Kernels.PrefixLaws` | prime-field-layer/src/arithmetic_kernels.rs:149-206 | a scan starts with the first weighted value and adds one per position; a lane scans as its own vector would |
| `Kernels.SparseAccumulate` | prime-field-layer/src/arithmetic_kernels.rs:220-238 | repeated indices accumulate, and a bad index is reported before any write |
| `Kernels.OneHit` | prime-field-layer/src/arithmetic_kernels.rs:220-238 | one entry lands on its own index and nowhere else |
| `Kernels.HitsConserve` | prime-field-layer/src/arithmetic_kernels.rs:220-238 | over all positions the entries add exactly the sum of their values |
| `Encoding.EveryValueEquallyLikely` | prime-field-layer/src/encoding.rs:158-172 | for every value there are exactly floor(2^32/bound) first words on which the sampler returns it at once: sampling is unbiased |
| `Encoding.SampleBelow` | prime-field-layer/src/encoding.rs:164-172 | the remainder of the first accepted word; every word passed over is rejected, in the upper half and at or above the bound |
| `Encoding.SampleNonzero` | prime-field-layer/src/encoding.rs:119-124 | one more than the remainder of the first word accepted for one value fewer |
| `Encoding.FillBelow` | prime-field-layer/src/encoding.rs:179-195 | the accepted words, reduced, in stream order, as sampling one at a time would give; short only when fewer words are accepted than asked for |

## Left out

- Number-theoretic transforms: a plan is the cyclic convolution of its length (`Code.PlanConvolve`); the transform's own source is not part of this model.
- Permutation sampling and mask constructions (Toeplitz, RAA, Ring-LPN): any permutation and any dense mask.
- Extension fields and the vectorized Montgomery kernels: the scalar reduction is modelled, the bulk ones are not.
- `is_prime` rejecting every composite: that rests on an exhaustive search for bases 2, 7 and 61 done elsewhere.
- The GPU tier, packed flights and device uploads: only the budget counter, with an upload as a step that may fail.
- `emvp/src/answer.rs`: its plan, workspace and pooled batch repeat the engine's single-entry path.
- Handshake, dispatch thresholds, demo seeding, configuration, logging, reports and timing.
- Sockets and threads: streams are byte sequences, and no read or write fails other than by the end of the stream.
- Error display texts: arbitrary byte strings below 2^63 bytes.
- `ValueOutOfRange`: a 64-bit host represents every wire integer.
- ChaCha20 and operating-system entropy: arbitrary word streams.
- Secrecy beyond `Blinding.EveryMatrixFits`, hardness and constant-time behaviour.
- Capacities of the codec workspaces: only lengths and contents.
- Parallel tiers at a finer grain than one row step: a row's fill, copy and pool operations are each one step.
- Concurrent uploads on one engine: the matrix identifiers of one session come from one counter.
- `EngineWorkspace.Execute` refusing a shape mismatch between plan and arena other than too few words: the plan type rules it out.
- ParallelTier.WarmPoolServes: counts rows, not the capacity each pooled row happens to have.
