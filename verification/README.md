# Verification of the embedded HTTP library and the base64 codecs

This project models the parts of the embedded HTTP library (`include/httplib.h`) and of the two base64 headers
(`include/base64.hpp`, `include/Base64.h`) that carry state, protocols and round trips, and proves what they
promise. `dafny verify dfyconfig.toml` checks everything.

A `char` stands for one byte of a `std::string`; `int` and `nat` are unbounded, and machine widths are written out
where they matter (bit-vectors in the base64 encoders, `ULONG_MAX` in `strtoul`, `LLONG_MAX` in `stoll`, the
unsigned in-flight counter). Code that works by updating things in place is modelled by classes and loops, each
proved against a function on plain values; the theorems are then about those functions, for all inputs.

## How it is organised

| files | what they model |
|---|---|
| `Text`, `Wrappers` | substring search, `trim`, `split`, shared by most of the rest |
| `Multipart`, `MultipartParser`, `MultipartFragments`, `MultipartEpilogue` | the push parser for multipart/form-data (RFC 7578), its in-place buffer, and what cutting its input into calls can change |
| `MultipartRoundTrip`, `MultipartNames`, `MultipartFilenames`, `MultipartExactness` | the serializer, and the exact condition under which the parser undoes it |
| `MultipartHeads`, `MultipartRefusals` | parts as other clients write them, and what the parser refuses |
| `ThreadPool`, `ThreadPoolProgress` | the worker pool as a transition system over its mutex and condition variable: safety, draining, and progress before shutdown |
| `ClientSocket`, `ClientSocketUse` | `send`, `send_`, `stop` and the close in `handle_request`, any number of threads |
| `Streams`, `OutStreams` | the socket stream with its read-ahead buffer, the line reader, `write_data` |
| `Chunked`, `ChunkGrammar`, `ChunkedWriter` | chunked transfer coding (section 7.1 of RFC 9112), both directions |
| `Ranges`, `RangeHeader`, `ByteRanges`, `RangeResponse`, `Numerals` | range requests (section 14.2 of RFC 9110) |
| `Base64`, `Base64Decode`, `MacaronDecode`, `Base64Laws` | three encoders and two decoders (sections 4 and 5 of RFC 4648) |
| `Url`, `QueryText`, `UrlLaws` | percent-encoding and query strings |
| `PathParams`, `ValidPath` | the route matcher and the path depth check |

Besides the round trips, each of these functions is pinned down by statements that do not mention its body: a grammar
of the chunked messages that are read, the positions a range asks for, the texts that decode, the header lines that are
accepted, passed over or refused, the outcomes that are possible for each call.

The functions that specify the in-place code, and that the theorems are about, are: `Multipart.Run` and
`Multipart.ParseAll` (the parser), `ThreadPool.Enabled`/`Apply` and `ClientSocket.Enabled`/`Apply`/`Asserts` (one
atomic step each, and the assertions in the source), `Chunked.Chunks` (the chunked reader on a byte sequence),
`ChunkedWriter.Session`/`Wire`, `Ranges.Acceptable`/`NormalizedAll`, `ByteRanges.Body`, `RangeHeader.ReadRanges`,
`Base64.Rfc4648`, `Base64Decode.DecodeFrom`, `MacaronDecode.Decoded`, `Url.Encoded`/`Decoded`,
`QueryText.ReadTokens`, `PathParams.Parts`/`Scanned`/`Bind`, and `ValidPath.StaysInside`.

A socket is a byte sequence delivered in pieces of any size. A `healthy` socket, a `reliable` output stream, a
`willing` receiver and a `patient` provider are ones that never fail; without that, failures happen at arbitrary
points and the contracts say what still holds.

## Where the code does less than one would expect

Each of these comes with a theorem that gives the exact condition; several also with a concrete failing run.

- The multipart parser throws away a chunk that holds only part of the opening boundary line: it gets past the
  opening line if and only if one chunk contains all of it (`OpeningMustBeWhole`).
- What follows the closing delimiter is dropped in the call that brings the delimiter, and looked at again in later
  calls. Those do harm if and only if the bytes kept since the delimiter come to begin with CRLF and the lines behind
  it, as cut by the calls, are too long, empty, or not headers the parser accepts (`LateEpilogueIff`,
  `OneLateCallIff`, from the start of a form `FormThenEpilogueIff`; a failing form is in `EpilogueIsReread`).
- A form survives the round trip if and only if no part name and no filename contains CR, LF, `;` or `=`, other
  things being in order (`RoundTripIff`). No input whatever makes the parser produce such a name
  (`ParsedNamesArePlain`); the first part with such a filename is lost (`FilenameLost`).
- The pool's `enqueue` does not look at the shutdown flag. After the threads are joined all accepted jobs have run
  if and only if the run has not accepted a job when every worker had exited (`JoinedMeansDone`,
  `LateJobIsStranded`).
- `send_` clears the "close when done" flag on entry. After the last `stop` during a request, the end of a send leaves
  the socket closed if and only if no send has begun since, or it closes anyway (no keep-alive, or a failed
  request), or nothing is open any more (`StopTakesEffectIff`); a redirect is such a beginning
  (`RedirectForgetsStop`).
- An empty write ends the chunked writer's loop with success but without the last chunk; what a successful call wrote
  is readable if and only if `done` was called, with no trailer field longer than the reader's limit
  (`ReadableIffDone`, `EndsWithoutDone`).
- `PathParamsMatcher` means to reject a pattern that repeats a parameter name, but never puts a name into the set it
  checks; such patterns are accepted. Every parameter keeps its value if and only if the names are pairwise distinct
  (`EveryValueKeptIff`, `DuplicateNameAccepted`). The comment at
  `include/httplib.h:5767-5768` speaks of the last duplicate being set; `emplace` keeps the first. The matcher
  compares with `strncmp`, so it is exact if and only if no fragment has a NUL before its last character
  (`MatchingIsExact`, `NulHidesTheRest`).
- A suffix range longer than the content is not cut down to it but makes the whole request unsatisfiable
  (`NormalizedIsAsked`); section 14.1.2 of RFC 9110 would select all of the content.
- A multimap loses repeated equal pairs in a query string: with plain keys it survives if and only if it holds no pair
  twice (`QueryRoundTripIff`).
- A list of ranges is read back from its own header if and only if it is nonempty and every range in it has at least
  one end, neither below -1 nor above the machine's range, and does not end before it begins
  (`RangeHeaderRoundTripIff`).
- In the parser's opening phase the branch that returns false when the buffer does not start with the boundary cannot
  be reached; it is an assertion in `OpeningLine`.

## Model

| member | source | states |
|---|---|---|
| MultipartParser.MultipartFormDataParser.Parse | include/httplib.h:4592-4727 | one `parse` call on the in-place buffer is `Run` on the value it stands for: same verdict, next state, files and held-back bytes |
| MultipartParser.MultipartFormDataParser.Turn | include/httplib.h:4597-4724 | one turn of the loop is `Step`, in all five states |
| MultipartParser.MultipartFormDataParser.OpeningLine | include/httplib.h:4599-4606 | state 0; its `return false` is unreachable |
| MultipartParser.MultipartFormDataParser.HeaderLine | include/httplib.h:4615-4679 | one header line: empty line opens a file or is refused, a bad line ends the parse, another updates the file info |
| MultipartParser.MultipartFormDataParser.HeaderLines | include/httplib.h:4612-4682 | state 2: length check on the first line, then header lines until the empty one or until no line is complete |
| MultipartParser.MultipartFormDataParser.BodyBytes | include/httplib.h:4683-4705 | state 3: content up to the delimiter, or all but a delimiter's length of it |
| MultipartParser.MultipartFormDataParser.AfterDelimiter | include/httplib.h:4706-4722 | state 4: CRLF starts an entry, `--` closes and drops the rest, anything else waits |
| MultipartParser.MultipartFormDataParser.BufFind | include/httplib.h:4775-4796 | the hand-written search returns the first occurrence in the pending bytes, or their number |
| MultipartParser.MultipartFormDataParser.StartWith | include/httplib.h:4756-4763 | true exactly when the text occurs at that position |
| MultipartParser.MultipartFormDataParser.BufErase | include/httplib.h:4816 | the pending bytes lose exactly that many in front |
| MultipartParser.MultipartFormDataParser.BufHead | include/httplib.h:4769 | the first pending bytes, and nothing changes |
| MultipartParser.MultipartFormDataParser.Compact | include/httplib.h:4798-4806 | moving the unread bytes to the front in place keeps them |
| MultipartParser.MultipartFormDataParser.BufAppend | include/httplib.h:4798-4814 | pending bytes afterwards are the old ones followed by the new ones, whatever was compacted or grown |
| MultipartParser.MultipartFormDataParser.SetBoundary | include/httplib.h:4584-4588 | the three derived strings belong to the new boundary; nothing else changes |
| MultipartParser.Upload.OnHeader | include/httplib.h:6319-6325 | the server's header callback: refuses at 1024 files, counts in any case |
| MultipartParser.Upload.OnContent | include/httplib.h:6326-6331 | content goes to the end of the file opened last |
| MultipartParser.ReadMultipart | include/httplib.h:6307-6331 | a whole upload: verdict and files are those of `ParseAll` on the chunks |
| MultipartFragments.FragmentationIndependence | include/httplib.h:4592-4727 | once the opening line is in, every way of cutting the rest into calls gives the verdict, validity and files of a single call |
| MultipartFragments.SplitAnywhere | include/httplib.h:4592-4727 | the same from any state inside the body |
| MultipartFragments.RunExtend | include/httplib.h:4592-4727 | running on a prefix and then on the rest is running on all of it; a failure is the same failure |
| MultipartFragments.HoldBack | include/httplib.h:4693-4703 | emitting all but a delimiter's length early neither emits part of a delimiter nor loses content |
| MultipartFragments.HeadersExtend | include/httplib.h:4612-4682 | header lines already complete are read alike with more input behind them |
| MultipartFragments.WithinLimit | include/httplib.h:4614 | on lines under the limit the length check never fires, however little has arrived |
| MultipartFragments.AfterClose | include/httplib.h:4706-4722 | a CRLF after the closing delimiter, in any pieces, changes nothing |
| MultipartFragments.OpeningMustBeWhole | include/httplib.h:4599-4606 | state 0 is left if and only if some chunk contains the whole opening line; otherwise nothing at all has changed |
| MultipartEpilogue.LateEpilogueIff | include/httplib.h:4706-4722 | after the closing delimiter, for every cut of the late bytes: valid with the same files if and only if they are harmless |
| MultipartEpilogue.OneLateCallIff | include/httplib.h:4706-4722 | for one late call: harmless if and only if it does not begin with CRLF, or only short complete header lines follow |
| MultipartEpilogue.FormThenEpilogueIff | include/httplib.h:4592-4727 | from the start of a form: an epilogue in the closing call never matters, later bytes exactly as above |
| MultipartEpilogue.HeadersQuiet | include/httplib.h:4612-4682 | header lines leave the parser waiting if and only if each complete one is nonempty and accepted; otherwise a refusal or a new file |
| MultipartEpilogue.EpilogueIsReread | include/httplib.h:4713-4716 | the same bytes are a valid form in one call and not one in two |
| MultipartRoundTrip.RoundTrip | include/httplib.h:4859-4914 | serialize any admissible form, cut it anywhere after the opening line: the parser ends valid with exactly the items in order |
| MultipartRoundTrip.ReadsTail | include/httplib.h:4592-4727 | the same for a single call from any inbox with room, whatever follows the closing delimiter, and the state it ends in |
| MultipartRoundTrip.ReadsPart | include/httplib.h:4607-4705 | one serialized part ends as one more file in the inbox, the parser right behind its delimiter |
| MultipartRoundTrip.ReadsDisposition | include/httplib.h:4641-4659 | the written Content-Disposition line gives back name and filename |
| MultipartRoundTrip.ReadsType | include/httplib.h:4635-4639 | the written Content-Type line gives back the content type |
| MultipartRoundTrip.ParamsRead | include/httplib.h:4505-4527 | splitting at `;` and `=`, trimming and unquoting undo the parameter syntax |
| MultipartRoundTrip.BoundedTail | include/httplib.h:4889-4914 | what the serializer writes satisfies the hypotheses of fragmentation independence |
| MultipartRoundTrip.SerializeItemBegin | include/httplib.h:4872-4887 | the head of a part: boundary line, disposition, optional type, empty line |
| MultipartRoundTrip.SerializeMultipartFormdata | include/httplib.h:4901-4914 | all parts in order, then the closing delimiter if asked for |
| MultipartRoundTrip.FinishedIs | include/httplib.h:4901-4914 | a finished form is an unfinished one and the closing delimiter |
| MultipartRoundTrip.IsMultipartBoundaryCharsValid | include/httplib.h:4859-4869 | true exactly when every character is alphanumeric, `-` or `_` |
| MultipartNames.ParsedNamesArePlain | include/httplib.h:4505-4527 | from any chunks, no parsed file has CR, LF, `;` or `=` in its name |
| MultipartFilenames.FirstLine | include/httplib.h:4641-4674 | the first line of a head, cut anywhere in its filename, cannot give that filename back unless it is plain |
| MultipartFilenames.ShortLine | include/httplib.h:4641-4674 | nor can any header line not longer than the filename, percent-encoded or not |
| MultipartExactness.Reach | include/httplib.h:4592-4727 | however the bytes are cut, the parser passes the start of an entry in the state a single call up to there leaves |
| MultipartExactness.FilenameLost | include/httplib.h:4859-4914 | the first part whose filename is not plain never comes back with it, under any cut |
| MultipartExactness.RoundTripIff | include/httplib.h:4859-4914 | on items otherwise fine and for every cut, the round trip holds if and only if names and filenames are plain |
| MultipartHeads.FormRead | include/httplib.h:4592-4727 | parts with any other header lines in any place, the known ones in any letter case, spacing, order and number, and filenames in percent-encoding, under every cut: exactly the items in order |
| MultipartHeads.PassedOver | include/httplib.h:4629-4676 | a well-formed header that is neither of the two known ones, in any letter case, is accepted and changes nothing |
| MultipartHeads.WellFormedIff | include/httplib.h:3945-3979 | a line is a header if and only if there is a name before its first colon and something not blank behind it |
| MultipartHeads.StartsIff | include/httplib.h:4736-4743 | names are compared letter by letter, either case |
| MultipartHeads.TypeRead | include/httplib.h:4637-4639 | a Content-Type line in any letter case and with blanks gives its type |
| MultipartHeads.StarredRead | include/httplib.h:4661-4674 | `filename*` overrides `filename` and may hold any bytes |
| MultipartHeads.LastValueCounts | include/httplib.h:4512-4525 | of several values in one parameter the last counts, and one without `=` has none |
| MultipartHeads.FirstNameCounts | include/httplib.h:4505-4527 | of two name parameters the first counts |
| MultipartRefusals.LineRefused | include/httplib.h:4627-4675 | a refused header line ends the upload, not valid and with nothing opened |
| MultipartRefusals.MalformedRefused | include/httplib.h:4629-4633 | a line without colon, name or value is refused |
| MultipartRefusals.NamelessRefused | include/httplib.h:4650-4656 | a disposition without a name is refused |
| MultipartRefusals.ForeignCharsetRefused | include/httplib.h:4661-4674 | a `filename*` that is not UTF-8 or is empty is refused |
| MultipartRefusals.LongLineRefused | include/httplib.h:4613-4614 | a first header line beyond 8192 bytes is refused, complete or not |
| MultipartRefusals.AtMost1024Files | include/httplib.h:6319-6325 | whatever arrives, no upload brings more than 1024 files |
| MultipartEpilogue.Stuck | include/httplib.h:4706-4720 | what follows a delimiter and begins with neither CRLF nor `--` stops the parser for good, without failing it |
| ThreadPool.NoLostWakeup | include/httplib.h:702-752 | in every run, if a worker sleeps, queued jobs are at most pending notifications plus workers about to look again |
| ThreadPool.JobsConserved | include/httplib.h:702-752 | in every run each accepted job is in exactly one of queued, running, finished, and the queue keeps its limit |
| ThreadPool.JobsStartInAcceptanceOrder | include/httplib.h:734-752 | the k-th job started is the k-th accepted |
| ThreadPool.StepKeepsInv | include/httplib.h:702-752 | every atomic step keeps mutex, job accounting, wakeup and shutdown invariants |
| ThreadPool.DrainStep | include/httplib.h:717-752 | after shutdown every step but an enqueue decreases a measure |
| ThreadPool.DrainProgress | include/httplib.h:717-752 | after shutdown somebody can move until all workers have exited: no deadlock |
| ThreadPool.DrainTerminates | include/httplib.h:717-752 | after shutdown a run without enqueue is no longer than a bound known in advance |
| ThreadPool.Drained | include/httplib.h:717-752 | in every run, once shutdown is announced, a continuation without enqueue that cannot go on has no sleeper, no queue, and every accepted job finished |
| ThreadPool.JoinedMeansDone | include/httplib.h:702-752 | when all workers have exited, all accepted jobs have run if and only if the run accepted none after the last exit |
| ThreadPool.LateJobIsStranded | include/httplib.h:702-713 | a run in which an accepted job is never run |
| ThreadPoolProgress.NeverStuck | include/httplib.h:702-752 | in every reachable state of an open pool with unfinished work, the pool can move by itself |
| ThreadPoolProgress.Completes | include/httplib.h:702-752 | left alone, however scheduled, an open pool comes to rest within a bound known in advance, every accepted job finished |
| ThreadPoolProgress.CanComplete | include/httplib.h:702-752 | from every reachable state before shutdown some continuation without shutdown finishes every job |
| ThreadPoolProgress.InternalStep | include/httplib.h:702-752 | each step of an open pool other than a new call decreases a measure |
| ThreadPoolProgress.ShutdownCanComplete | include/httplib.h:715-728 | a shutdown that finds the mutex free, whatever is queued, can be carried through with every job finished |
| ThreadPoolProgress.MutexIsFair | include/httplib.h:702-752 | with the mutex free any producer, a first shutdown and every worker not asleep may enter, otherwise nobody |
| ThreadPoolProgress.EnqueueAcceptsIff | include/httplib.h:702-713 | a job is accepted, at the end of the queue, if and only if there is no limit or the queue is below it |
| ClientSocket.SocketDiscipline | include/httplib.h:7112-7209 | in every interleaving no assertion of the source can fail, the in-flight count is the number of active sends of one thread, and no descriptor is closed twice |
| ClientSocket.AssertsHold | include/httplib.h:7057-7074 | each assertion holds in each state in which it is reached; the counter never wraps |
| ClientSocket.StepKeepsInv | include/httplib.h:7112-7209 | every critical section keeps the ownership invariant |
| ClientSocket.NoForeignClose | include/httplib.h:7057-7074 | whoever closes a descriptor, no other thread has a request in flight |
| ClientSocket.ReaderUndisturbed | include/httplib.h:8358-8379 | while a thread talks over a descriptor, nothing other threads do closes or replaces it |
| ClientSocket.StopTakesEffectIff | include/httplib.h:7183-7198 | after the last stop, the exit guard leaves the socket closed if and only if no send began since, or it closes anyway, or none is open |
| ClientSocket.FlagKept | include/httplib.h:7122-7128 | without a further stop the flag stays set if and only if no send begins |
| ClientSocket.StopTakesEffect | include/httplib.h:7183-7198 | with the flag set and no new send begun, the exit guard leaves the socket closed, keep-alive or not |
| ClientSocket.StopDuringRequest | include/httplib.h:8358-8379 | a stop during a request leaves the socket alone and the request's end closes it |
| ClientSocket.RedirectForgetsStop | include/httplib.h:7122-7128 | a run in which a stop before a redirect is forgotten and the socket stays open |
| ClientSocketUse.StopClosesIffIdle | include/httplib.h:8358-8379 | a stop closes the socket at once if and only if no thread has a request in flight, otherwise it only marks it |
| ClientSocketUse.BeginUses | include/httplib.h:7122-7172 | a live connection is used again, a dead one closed and replaced, and a failed connection leaves nothing in flight |
| ClientSocketUse.EndKeepsIff | include/httplib.h:7183-7198 | the socket is kept if and only if keep-alive is on, the request succeeded and nobody has stopped it |
| ClientSocketUse.RespondCloses | include/httplib.h:7247-7260 | a response that announces the end closes the connection it was read from, another leaves it |
| ClientSocketUse.KeepAliveReuses | include/httplib.h:7112-7209 | a whole request over a live idle keep-alive connection uses it and leaves it open |
| ClientSocketUse.AcquireIff | include/httplib.h:7112-7120 | with nobody inside any thread may send, otherwise only the sender itself, once it has its response |
| ClientSocketUse.EveryOutcome | include/httplib.h:7122-7209 | inside a send every outcome of each phase can occur |
| ClientSocketUse.SendsCanFinish | include/httplib.h:7112-7209 | from every reachable state the sender can finish by itself, and then any thread may send |
| Streams.SocketStream.Read | include/httplib.h:5661-5705 | bytes handed out, buffered and still in the socket always make up the original stream, through the buffer or around it; a short read leaves the buffer empty |
| Streams.SocketStream.TakeBuffered | include/httplib.h:5670-5681 | read-ahead bytes are handed out first, as many as asked for or as there are |
| Streams.SocketStream.ReadThroughBuffer | include/httplib.h:5688-5701 | a small read keeps the surplus in the buffer |
| Streams.SocketStream.ReadAround | include/httplib.h:5702-5704 | a large read leaves the buffer empty |
| Streams.StreamLineReader.GetLine | include/httplib.h:2797-2821 | for every buffer size from 2 and every line length, `ptr()`/`size()` denote the next line including LF, or the rest at end of stream |
| Streams.StreamLineReader.Append | include/httplib.h:2823-2834 | one byte more, in the fixed buffer or spilled; the terminator assertion at the spill holds |
| OutStreams.WriteData | include/httplib.h:4223-4231 | success means every byte was sent, failure that a prefix was |
| Chunked.ReadContentChunked | include/httplib.h:4068-4121 | over any delivery of the bytes, verdict, content and bytes left are those of `Chunks` on the byte sequence |
| Chunked.ReadContentWithLength | include/httplib.h:4020-4040 | success means exactly the next `len` bytes; on a sound connection failure means there were fewer |
| Chunked.ReadTrailer | include/httplib.h:4102-4118 | the trailer is read up to the empty line, over-long lines are an error |
| Chunked.FromIToHex | include/httplib.h:2464-2472 | the hexadecimal numeral of a number |
| Chunked.HexRoundTrip | include/httplib.h:2464-2472 | reading a printed number gives the number back, whatever non-digit follows |
| Chunked.SizeLineRead | include/httplib.h:4078-4087 | `strtoul` on a printed size line returns the size |
| ChunkGrammar.MessageReadIff | include/httplib.h:4068-4121 | the reader succeeds if and only if the bytes are a sentence of the grammar, with exactly its data and the rest behind it |
| ChunkGrammar.MessageRead | include/httplib.h:4068-4121 | every message of the grammar is read: chunk extensions and trailer fields are passed over |
| ChunkGrammar.FieldsRead | include/httplib.h:4102-4118 | any number of trailer fields within the limit is read past |
| ChunkGrammar.LongFieldFails | include/httplib.h:4105-4106 | the first field beyond the limit fails the message right behind it |
| ChunkGrammar.BrokenChunk | include/httplib.h:4082-4095 | an unreadable size, too few bytes or bytes not followed by CRLF: failure, with what was there delivered |
| ChunkGrammar.StrtoulReads | include/httplib.h:4078-4087 | a size with white space, sign or prefix before it and anything behind it, saturating and wrapping as `strtoul` does |
| ChunkGrammar.StrtoulRefuses | include/httplib.h:4082-4084 | text that does not begin with a digit is no size |
| ChunkedWriter.WriteContentChunked | include/httplib.h:4314-4417 | what is sent and how the call ends are those of `Session`, over any short writes |
| ChunkedWriter.ChunkedSink.Write | include/httplib.h:4323-4348 | a nonempty piece is one chunk, an empty one nothing but the end of the data |
| ChunkedWriter.ChunkedSink.Done | include/httplib.h:4352-4396 | the last chunk, the trailer fields and the empty line |
| ChunkedWriter.SessionSucceedsIff | include/httplib.h:4402-4416 | the writer succeeds if and only if a call ends the data before one fails, having performed all calls up to it |
| ChunkedWriter.SessionRead | include/httplib.h:4068-4121 | what a reader makes of any sequence of sink calls, with or without `done` and its trailer, with anything behind it |
| ChunkedWriter.ChunkedRoundTrip | include/httplib.h:4314-4417 | nonempty writes and `done`, with any short trailer, are read back as exactly the data, stopping at the byte after the final CRLF |
| ChunkedWriter.ReadableIffDone | include/httplib.h:4402-4416 | what a successful writer has sent is readable if and only if `done` was called and its trailer fields are within the limit |
| ChunkedWriter.EndsWithoutDone | include/httplib.h:4402-4416 | a session that succeeds and cannot be read |
| ChunkedWriter.Transfer | include/httplib.h:4314-4417 | writer, connection and reader together deliver the data before `done` and leave what follows unread |
| Ranges.RangeError | include/httplib.h:4916-4969 | true exactly when the normalised ranges are not acceptable; the ranges are rewritten in place |
| Ranges.NormalizeAt | include/httplib.h:4933-4946 | the three adjustments of one range, written back |
| Ranges.OverlapTest | include/httplib.h:4957-4964 | comparing with the highest position so far decides whether a range overlaps any earlier one |
| Ranges.AcceptedRangesBounded | include/httplib.h:4916-4979 | accepted ranges meet the slicing function's assertions, strictly ascend, and select at most three times the content |
| Ranges.TotalBounded | include/httplib.h:4948-4964 | the total length is at most the highest position plus one content length per overlap |
| RangeResponse.NormalizedIsAsked | include/httplib.h:4933-4952 | the normalised range covers exactly the positions asked for, and is inside the content if and only if the range is satisfiable |
| RangeResponse.AcceptableIff | include/httplib.h:4929-4965 | accepted means at most 1024 ranges inside the content, strictly ascending, no three of them reaching back into earlier ones |
| RangeHeader.MakeRangeHeader | include/httplib.h:5432-5444 | `bytes=` and the ranges joined by comma and blank, whatever integers they are made of |
| RangeHeader.ParseRangeHeader | include/httplib.h:4532-4577 | the list of ranges, or failure, that the tokens between commas stand for |
| RangeHeader.RangeHeaderRoundTrip | include/httplib.h:4532-4577 | every nonempty list of requestable ranges is read back unchanged and in order |
| RangeHeader.RangeHeaderRoundTripIff | include/httplib.h:4532-4577 | a list is read back from its own header if and only if it is nonempty and every range is requestable |
| RangeHeader.SpecReadIff | include/httplib.h:4546-4572 | one range is read if and only if it is two positions around a hyphen, not both left out and not reversed |
| RangeHeader.RangesReadIff | include/httplib.h:4539-4577 | a header is read if and only if it has the unit, a token, and no bad token |
| RangeHeader.HeaderExample | include/httplib.h:5432-5444 | the value written for the first 500 and the last 20 bytes |
| Numerals.DecimalRoundTrip | include/httplib.h:4532-4577 | reading a printed decimal gives the number back |
| ByteRanges.MakeMultipartRangesData | include/httplib.h:5032-5046 | the body built in memory |
| ByteRanges.GetMultipartRangesDataLength | include/httplib.h:5048-5064 | the length computed beforehand is the length of the body, for every content of that size |
| ByteRanges.WriteMultipartRangesData | include/httplib.h:5066-5080 | the streamed body is the same body |
| ByteRanges.WriteContent | include/httplib.h:4233-4269 | success means exactly the slice asked for, in however many pieces the provider writes it, failure that a prefix of it was sent |
| ByteRanges.WritePieces | include/httplib.h:4241-4250 | the sink sends piece after piece; a failure leaves a prefix sent |
| ByteRanges.PayloadIsSlice | include/httplib.h:4995-5030 | each part's payload in the body is the requested slice of the content |
| ByteRanges.ResponseBounded | include/httplib.h:4995-5030 | the parts of a response take at most three times the content plus a fixed overhead for each |
| RangeResponse.Respond | include/httplib.h:6666-6769 | status, Content-Range and body for a complete response body: 200, 416, one slice, or the multipart body |
| RangeResponse.Serve | include/httplib.h:6910-6924 | a 206 response carries exactly what each range asked for, a suffix its last bytes; one range gets one if and only if it is satisfiable |
| RangeResponse.ContentRangeNames | include/httplib.h:4981-4993 | the Content-Range text names the first and last position and the length |
| RangeResponse.PartHeadText | include/httplib.h:5001-5017 | the text before a part's payload |
| RangeResponse.BodyFrame | include/httplib.h:5022-5027 | what ends a part and the body |
| Base64.Encode | include/base64.hpp:80-144 | the iterator encoder with three exits is RFC 4648 in the given alphabet |
| Base64.MacaronEncode | include/Base64.h:35-71 | the index-driven encoder into a preallocated string is RFC 4648 |
| Base64.HttplibEncode | include/httplib.h:2508-2534 | the encoder with a wrapping accumulator is RFC 4648 |
| Base64.EncodeThreeWays | include/base64.hpp:80-144 | the three encoders agree on every byte string |
| Base64.EncodedSize | include/base64.hpp:338-341 | output length is `required_encode_size` |
| Base64Decode.Decode | include/base64.hpp:200-244 | the decoding loop is `DecodeFrom`, with alphabet detection and padding check |
| Base64Decode.DecodeInplace | include/base64.hpp:294-313 | decoding into the input's own memory gives what decoding elsewhere gives: writes never overtake reads |
| Base64Decode.DecodeInvertsEncode | include/base64.hpp:200-244 | decoding undoes encoding for both alphabets, named or detected, strict or loose |
| Base64Decode.DecodedFits | include/base64.hpp:324-327 | decoded length never exceeds `max_decode_size` |
| Base64Laws.DecodesIff | include/base64.hpp:200-244 | a text decodes if and only if all before the first `=` is in one admissible alphabet and, unless lenient, only `=` follows |
| Base64Laws.DecodersAgree | include/Base64.h:73-129 | on all whole groups of the standard alphabet, canonical or not, both decoders deliver the same bytes |
| MacaronDecode.MacaronDecode | include/Base64.h:73-129 | the table-driven decoder is `Decoded` on ASCII input |
| MacaronDecode.MacaronRoundTrip | include/Base64.h:35-129 | `Decode(Encode(x))` is x for every byte string |
| Url.EncodeQueryParam | include/httplib.h:2592-2611 | unreserved bytes as they are, others as `%XX` |
| Url.DecodeUrl | include/httplib.h:2645-2680 | escapes replaced, malformed ones left as they are |
| Url.FromHexToI | include/httplib.h:2447-2462 | the value of exactly that many hex digits, or failure |
| Url.DecodeInvertsEncode | include/httplib.h:2592-2680 | decoding undoes encoding for every byte string and both flags |
| UrlLaws.EncodedByte | include/httplib.h:2592-2611 | which bytes are kept, and the two capital hex digits of the others |
| UrlLaws.DecodedEscape | include/httplib.h:2663-2671 | `%XX` in either case is its byte, anything else after `%` is left |
| UrlLaws.DecodedUnicode | include/httplib.h:2651-2662 | `%uXXXX` is its code point in UTF-8, otherwise left |
| UrlLaws.DecodedOrdinary | include/httplib.h:2672-2676 | a plus is a space exactly when asked for |
| UrlLaws.Utf8Is | include/httplib.h:2474-2504 | every code point outside the surrogates gets its UTF-8 sequence, a surrogate none |
| QueryText.ParamsToQueryStr | include/httplib.h:4455-4465 | pairs joined by `&`, values encoded |
| QueryText.ParseQueryText | include/httplib.h:4467-4488 | the multimap that the distinct tokens stand for |
| QueryText.QueryRoundTrip | include/httplib.h:4455-4488 | a multimap without duplicate pairs and with plain keys is read back, entry order included |
| UrlLaws.TokenRead | include/httplib.h:2723-2735 | key before the first `=`, value behind it or empty, nothing without a key |
| UrlLaws.EmplaceKeeps | include/httplib.h:4470-4487 | a new entry keeps the order and everything else, and comes behind its equals |
| UrlLaws.QueryRoundTripIff | include/httplib.h:4455-4488 | with plain keys the round trip holds if and only if no pair occurs twice |
| Text.Split | include/httplib.h:2749-2769 | one pass delivers the segments between delimiters, trimmed, empty ones dropped, in order |
| Text.TrimBounds | include/httplib.h:2700-2709 | the two cursors stop at the outermost non-blanks and may cross |
| Text.TokenOf | include/httplib.h:2757-2758 | crossed cursors mean an all-blank segment, others delimit its trimmed text |
| Text.FindDelimited | include/httplib.h:4775-4796 | a pattern that cannot overlap itself delimits a text without it exactly |
| PathParams.PathParamsMatcher.constructor | include/httplib.h:5760-5803 | fragments and names are those of `Parts`; the duplicate check never fires |
| PathParams.PathParamsMatcher.Match | include/httplib.h:5805-5846 | verdict and bindings are those of `Scanned` and `Bind`; the path is not touched |
| PathParams.MatchingIsExact | include/httplib.h:5805-5846 | a path matches with given values if and only if it spells the fragments interleaved with those slash-free values, a final `/` allowed after a final parameter |
| PathParams.NulHidesTheRest | include/httplib.h:5819-5824 | with a NUL before the end of a fragment some other path matches too |
| PathParams.PatternSpellsItself | include/httplib.h:5760-5803 | a pattern is its fragments interleaved with its `:name` markers |
| PathParams.PartsAreTight | include/httplib.h:5760-5803 | no fragment holds a marker, no name a separator, a last fragment is not empty |
| PathParams.InstantiateThenMatch | include/httplib.h:5760-5846 | filling a pattern in and matching it gives the values back under their names |
| PathParams.FirstBindingWins | include/httplib.h:5836-5839 | a name is bound to the value of its first occurrence |
| PathParams.EveryValueKeptIff | include/httplib.h:5836-5839 | every parameter keeps its value if and only if the names are pairwise distinct |
| PathParams.DuplicateNameAccepted | include/httplib.h:5787-5795 | a pattern that repeats a name is accepted and the later value lost |
| ValidPath.IsValidPath | include/httplib.h:2550-2590 | true exactly when no byte is NUL or backslash and the walk over the components stays inside; components are never empty and the loops end |
| ValidPath.StaysInsideIff | include/httplib.h:2572-2581 | the walk stays inside if and only if no prefix of the components is above the root |

## Left out

- RangeResponse.Respond: the body is in memory and not compressed; header fields other than Content-Range are left out.
- Operating-system I/O: sockets, select and poll, timeouts, name resolution, memory-mapped files, the keep-alive clock.
- OpenSSL, zlib and brotli: only plain sockets and the identity compressor; `send`'s second attempt after an SSL error, digest authentication and TLS proxies are not part of the model.
- The `std::regex` engine: the two patterns in the multipart parser are modelled by what they match (case-insensitive prefix, white space, rest of the line); redirect location parsing and `RegexMatcher` are not modelled.
- Storing header fields: `parse_header` is modelled as accept or reject.
- Chunked.ReadContentChunked: reads past trailer fields and does not store them, because storing would only add the percent-decoding of header values.
- Chunked.ReadTrailer: the same.
- ChunkedWriter.WriteContentChunked: the server is not shutting down; a provider that is asked once more than it has calls for counts as cancelled.
- The form of the multipart content provider that streams items.
- MultipartParser.Upload.OnContent: without the `max_size` check of `std::string`.
- MultipartParser.Upload.OnHeader: keeps files in order of arrival; the server's multimap orders them by name.
- MultipartFragments.FragmentationIndependence: compares the files and verdicts, not the number of content callbacks, which does depend on the cutting.
- MultipartRoundTrip.ParamsRead: where a parameter key is repeated in one header line, `find` on the multimap is taken to return the first one put in, as the usual library implementations do.
- Base64Decode.DecodeInplace: does not say what is left in the memory when an invalid character is found.
- MacaronDecode.MacaronDecode: asks for ASCII input, because the source indexes a 256-entry table with a possibly negative `char` otherwise.
- ByteRanges.WriteContent: the server is not shutting down, and a provider writes no more than asked for and nothing at all only finitely often; one that stays idle for ever keeps the source's loop going for ever.
- ByteRanges.WriteMultipartRangesData: says nothing when the stream fails or writes a token only in part, because the source does not look at the result of those writes.
- Text.Split: the limit on the number of pieces and the variant without an end pointer, which nothing modelled here uses.
- The Get, Post, Put, Patch and Delete overloads, setters, status messages and the MIME table: forwarding and constant tables.
- `include/ollama.hpp`, `include/wavfile.hpp`, `include/common.h` and the declarations in `src/`: wrappers and declarations that would only add easy members.
