# Verified model of the `jmap-base-client` streaming core

This project models the parts of `crate-jmap-base-client` that turn byte streams into results. It proves that
each of them meets a simple whole-input specification for every way its input can arrive or, where the code
does not, exactly for which inputs it does.

| part | files | specification it refines |
|---|---|---|
| event-stream receive loop (`client.rs`, `sse.rs`) | `Utf8`, `Delimiters`, `Newlines`, `Sse`, `SseStream`, `StreamTheorems`, `NonEmptyChunks`, `StreamCaps`, `BlankLines`, `StandardFields`, `SseRoundTrip`, `WireText` | decode the whole stream, cut it at each earliest delimiter, parse each piece |
| reconnecting stream (`client.rs`) | `Backoff`, `Reconnect`, `ReconnectTheorems`, `PushDelivery` | concatenate what the attempts deliver, up to the attempt that stops the run |
| length-exact and capped bodies (`blob.rs`, `client.rs`) | `Bodies`, `Hex` | buffer everything, then check |
| URI templates (`blob.rs`) and PEM bundles (`auth.rs`) | `UriTemplate`, `Pem`, `PemText` | an inverse: decoding, parsing and rendering |

`Common` holds byte strings, options and Rust's substring search; `Characters` the alphabets; `Errors` holds
`ClientError`.

What is a constant or a table in the code is also stated without it: field names, delimiters, braces, PEM markers
and digits by string literals (`WireText`, `PemText`, `EncodingOfOneByte`, `HexOfOneByte`), white space by code points
(`WhitespaceCodes`), retryable errors by what a run does after them (`RefusalEndsRunIff`, `BreakEndsRunIff`), and the
length of an invalid UTF-8 run by what could still become well-formed (`RunLengthMeaning`).

A Rust `String` is the sequence of its UTF-8 bytes. Code that slices a string by an index goes through `Utf8.StrFrom`
and `Utf8.StrTo`, which require a character boundary, so a slice that could panic would not verify; the PEM
scanner works on the decoded scalar values, where every position is a boundary. Code that updates state in
place is a class; each of its methods is tied to a pure function of the old state (`PollSpec`, `Step`,
`ExactPoll`, `DownloadPoll`), the theorems iterate that function over whole runs (`RunFrom`, `ExactOutput`,
`DownloadOutput`, `Tally`), and for each class a consumer that drives it to the end is proved to get exactly
that run (`CollectItems`, `CollectRun`, `CollectExact`, `CollectDownload`, `InspectAll`). The network is a script: chunks ending in a
close or an error for one connection, and outcomes of connect attempts for the reconnect loop. Theorems hold
for every script. The StateChange JSON parse, SHA-256 and base64 are parameters; the hash and base64 come with
the laws stated in `Bodies.Lawful` and `Pem.Base64Pair`, the parse has no law.

## Where the code differs from its documentation or standard

The model follows the code. For each difference a lemma says exactly when the two agree.

- `decode_utf8_chunk` removes one invalid run per call, so on malformed input valid text can wait in
  `raw_buf` and be lost at the end. `ChunkingIndependentIff` gives the exact streams on which the loop yields
  the frames of the decoded stream; they are also exactly the streams on which all chunkings agree, where a
  chunking may hold empty chunks. `IndependentByPartsIff` says when all chunkings into non-empty chunks agree.
  On `InvalidRunLosesFrame` a frame is lost.
- The frame cap is described as per frame (`client.rs:596-598`), but it bounds what is buffered after each
  read. `NoCapIff` and, on the bytes themselves, `NoCapOnCleanIff` say exactly when it stays silent;
  `SizesAreEnoughIff` says which frame and chunk sizes alone guarantee that; `SmallFramesCanHitCap` is a
  stream of small frames that exceeds it.
- The comment at `client.rs:712-713` says three bytes back is always a character boundary. It is one exactly
  when the string ends in characters that take three bytes together (`ThreeBytesBackIff`), which
  `ThreeBytesBackCanSplitCharacter` does not, and the loop walks back. That three bytes are needed and enough
  (`client.rs:703-711`) is `OverlapIsExactIff`.
- The four delimiters do not end an event at every blank line. The frames hold the blocks of lines that
  section 9.2 of the WHATWG HTML Standard dispatches exactly when no blank line is a lone CR after a non-empty
  line ended by LF or CRLF, with text or the end after it (`BlankLinesEndEventsIff`);
  `UnseenBlankMergesBlocks` is a stream whose two blocks arrive as one frame. Blocks are compared without empty
  ones: a frame of terminators is an event of its own for the loop (`LinelessFrame`).
- Within a block, `parse_sse_block` reads the fields as the same section does exactly when no line is a bare
  `event`, `data` or `id` without a colon (`FrameFieldsAgreeIff`).
- The documented backoff `min(initial_delay * 2^(n-1), max_delay)` holds until the 32-bit factor saturates
  below `max_delay` (`DocumentedDelayIff`); `SaturationShortensDelay` is an instance.
- The jitter is documented as uniform in `[d/2, d]` (`client.rs:1051`). `JitterRangeIff` gives the delays that
  are drawn; `d` itself is one of them exactly when it is even and its half is below 2^64 - 1
  nanoseconds (`FullDelayDrawnIff`); `OddDelayIsShortened` is one that is not.
- The stream is documented to stop after `max_retries` consecutive failures (`client.rs:940`); it takes one
  more (`OutageEndsIff`).
- `max_retries = Some(u32::MAX)` never gives up, because the failure count saturates
  (`GivingUpIsPossibleIff`).
- The read-ahead of `exact_length_body` protects a consumer that stops at the declared length only when
  that length is not 0 (`StoppingIsSafeIff`).
- `parse_all_pem_certs` skips frames that do not decode; `parse_first_pem_cert` does not, although the
  comment of the former calls the two alike. `FirstAgreesIff` says when they agree; on
  `FirstFrameUndecodable` they do not.

## Model

| member | source | states |
|---|---|---|
| Utf8.VerdictMeaning | crate-jmap-base-client/src/client.rs:1288-1326 | `valid_up_to` ends a well-formed prefix, and what follows is an incomplete character or an invalid run of exactly `error_len` bytes |
| Utf8.ValidLengthIsMaximal | crate-jmap-base-client/src/client.rs:1295-1296 | no longer prefix than `valid_up_to` is well-formed |
| Utf8.IncompleteIffCompletable | crate-jmap-base-client/src/client.rs:1273-1276 | `error_len` is `None` if and only if some continuation makes the bytes well-formed |
| Utf8.RunLengthMeaning | crate-jmap-base-client/src/client.rs:1309-1315 | an invalid run is as long as the longest prefix of the rest that some bytes could complete, or one byte if there is none |
| Utf8.OneByteRun | crate-jmap-base-client/src/client.rs:1309-1315 | of `E9 21 0A 0A` one byte is drained and the other three are kept |
| Utf8.WellFormedIffEncoding | crate-jmap-base-client/src/client.rs:1289-1293 | the validator accepts exactly the section 3 of RFC 3629 encodings of scalar value sequences |
| Utf8.EncodeThenDecode | crate-jmap-base-client/src/client.rs:1289-1293 | decoding the encoding of scalar values returns them |
| Utf8.BoundaryCuts | crate-jmap-base-client/src/client.rs:817-819 | on a string, `is_char_boundary(i)` holds if and only if the first `i` bytes are a string, and then so are the rest |
| Utf8.DecodeConserves | crate-jmap-base-client/src/client.rs:1288-1326 | for every `raw` and every future, the reference decoding of the whole is the pushed text followed by that of the kept bytes and the future |
| Utf8.DecodeKeepsResidue | crate-jmap-base-client/src/client.rs:1309-1323 | without an invalid run nothing is lost and at most three bytes of one character are kept; with one, the call shrinks `raw` |
| Utf8.InvalidStays | crate-jmap-base-client/src/client.rs:1309-1315 | once an invalid run is reached, later bytes change neither its place nor its length |
| Delimiters.FirstDelimStable | crate-jmap-base-client/src/client.rs:702-711 | an earliest delimiter, once found, is unchanged by any text appended later |
| Delimiters.FirstDelimNew | crate-jmap-base-client/src/client.rs:702-711 | a delimiter that appears only after an append reaches into the appended text |
| Delimiters.FramesAppend | crate-jmap-base-client/src/client.rs:768-778 | cutting text in two parts cuts the first part and then its tail followed by the second part |
| Delimiters.DelimIsBlankLine | crate-jmap-base-client/src/client.rs:747-766 | every delimiter is a blank line of section 9.2 of the WHATWG HTML Standard |
| Newlines.NormalizeIsFaithful | crate-jmap-base-client/src/client.rs:769-776 | normalised frames hold no CR, and their LF pieces are the lines of the original under any mixture of terminators |
| Newlines.LinesWithoutCr | crate-jmap-base-client/src/sse.rs:75 | on CR-free text `lines()` is the LF pieces without an empty last one |
| Sse.ParseSseBlock | crate-jmap-base-client/src/sse.rs:70-112 | the last `event:` and `id:` values and all `data:` values of the lines make up the frame; a bare id is no id |
| Sse.EventOf | crate-jmap-base-client/src/sse.rs:92-109 | the event type, the joined data and the StateChange parse decide the event |
| Sse.OtherLinesAreIgnored | crate-jmap-base-client/src/sse.rs:75-90 | a comment or unknown field changes nothing, wherever it stands |
| Sse.LineEndingsDoNotMatter | crate-jmap-base-client/src/sse.rs:75-90 | parsing the normalised frame reads exactly the lines of the original, whatever ends them |
| SseStream.OnePatternPerPosition | crate-jmap-base-client/src/client.rs:747-766 | the four patterns are told apart by position: at most one matches at any offset |
| SseStream.FrameEnd | crate-jmap-base-client/src/client.rs:702-766 | the minimum of four searches from `scan_from` is the earliest delimiter of the whole buffer |
| SseStream.OverlapSuffices | crate-jmap-base-client/src/client.rs:812-819 | after an append, no delimiter starts before a `scan_from` at least three bytes back |
| SseStream.DelimiterIsOnBoundaries | crate-jmap-base-client/src/client.rs:768-778 | both ends of a delimiter are character boundaries of the buffer |
| SseStream.ThreeBytesBackIff | crate-jmap-base-client/src/client.rs:712-713 | three bytes before the end of a string is a character boundary if and only if the string ends in characters that take three bytes together |
| SseStream.ThreeBytesBackCanSplitCharacter | crate-jmap-base-client/src/client.rs:712-713 | a buffer on which three bytes back is not a character boundary |
| SseStream.OverlapIsExactIff | crate-jmap-base-client/src/client.rs:703-711 | searching again from k bytes back finds what a full search would, for every string and append, if and only if k is at least 3 |
| Utf8.FloorIsNear | crate-jmap-base-client/src/client.rs:817-819 | the walk back to a character boundary takes at most three steps |
| Utf8.StrFrom | crate-jmap-base-client/src/client.rs:748-763 | slicing at a character boundary keeps text well-formed |
| Utf8.AsciiCuts | crate-jmap-base-client/src/client.rs:748-778 | both ends of an ASCII byte of a string are character boundaries |
| SseStream.SseStreamState.constructor | crate-jmap-base-client/src/client.rs:686-692 | the initial state satisfies the invariant and holds empty buffers |
| SseStream.SseStreamState.DecodeUtf8Chunk | crate-jmap-base-client/src/client.rs:1288-1326 | `buf` grows by the decodable prefix and stays a string; `raw` keeps the rest minus at most one invalid run |
| SseStream.SseStreamState.TakeFrame | crate-jmap-base-client/src/client.rs:768-790 | the frame before the delimiter is normalised and parsed, and `buf` starts after the delimiter |
| SseStream.SseStreamState.Receive | crate-jmap-base-client/src/client.rs:796-829 | both caps, the decoding, and the overlap at the last character boundary at or before three bytes back; on success the invariant holds again |
| SseStream.SseStreamState.Next | crate-jmap-base-client/src/client.rs:693-832 | each poll keeps the invariant and does what the whole-buffer specification does, in result and in state |
| StreamTheorems.AbsorbKeepsText | crate-jmap-base-client/src/client.rs:801-813 | reading a chunk never changes the text that is still to be cut |
| StreamTheorems.PollMeaning | crate-jmap-base-client/src/client.rs:700-832 | a yielded frame is the first frame of the whole remaining text, and the next state holds exactly the rest |
| StreamTheorems.RunMeaning | crate-jmap-base-client/src/client.rs:693-832 | for arbitrary bytes and chunks the frames are a prefix of those of the fully decoded stream; without a cap error the missing ones are those of the dropped buffers |
| StreamTheorems.CleanStreamIsCut | crate-jmap-base-client/src/client.rs:693-832 | on streams without invalid runs the loop yields exactly the frames of the decoded stream |
| StreamTheorems.ChunkingDoesNotMatter | crate-jmap-base-client/src/client.rs:693-832 | two chunkings of one well-formed stream that hit no cap yield the same frames |
| StreamTheorems.ChunkingIndependentIff | crate-jmap-base-client/src/client.rs:1309-1315 | all chunkings of a stream yield the frames of its decoding, and equally all chunkings agree, if and only if no delimiter completes after the first invalid run |
| StreamTheorems.InvalidRunLosesFrame | crate-jmap-base-client/src/client.rs:1309-1315 | a four-byte stream whose only frame is lost |
| NonEmptyChunks.BytesDecodeMost | crate-jmap-base-client/src/client.rs:801-813 | no chunking into non-empty chunks decodes more of a stream than receiving its bytes one by one |
| NonEmptyChunks.IndependentByPartsIff | crate-jmap-base-client/src/client.rs:1309-1315 | chunkings into non-empty chunks all agree if and only if receiving the bytes one by one completes no frame after the first invalid run; they all yield the frames of the decoding under the same condition as before |
| StreamTheorems.RunEndsAsConnection | crate-jmap-base-client/src/client.rs:791-795 | unless a cap is hit, the stream ends cleanly or with the connection's own transport error |
| StreamTheorems.CollectItems | crate-jmap-base-client/src/client.rs:685-835 | polling the loop to its end yields exactly the items of the run |
| StreamCaps.CapsHold | crate-jmap-base-client/src/client.rs:802-829 | between polls both buffers are within the limit, and a yielded frame, the delimiter found and the text still buffered fit it together |
| StreamCaps.RunOfReads | crate-jmap-base-client/src/client.rs:796-829 | for all bytes and chunks: the frames of what the fitting reads decode, then the cap error at the first read that does not fit, or the connection's own ending |
| StreamCaps.NoCapIff | crate-jmap-base-client/src/client.rs:802-829 | for all bytes and chunks: no cap error if and only if every chunk fits beside the undecoded bytes, and its text beside the unfinished frame |
| StreamCaps.NoCapOnCleanIff | crate-jmap-base-client/src/client.rs:802-829 | without invalid runs, the same condition on the bytes received before each read |
| StreamCaps.NoFalseCap | crate-jmap-base-client/src/client.rs:802-829 | no cap error when the largest piece plus the largest chunk exceed the limit by at most one byte |
| StreamCaps.SizesAreEnoughIff | crate-jmap-base-client/src/client.rs:802-829 | that bound is exact: any larger sizes admit a stream that hits the cap |
| StreamCaps.SmallFramesCanHitCap | crate-jmap-base-client/src/client.rs:596-598 | two three-byte frames in one chunk exceed a limit of four |
| BlankLines.BlankLinesEndEventsIff | crate-jmap-base-client/src/client.rs:747-766 | the frames of a text hold exactly the blocks of lines the standard dispatches, in order, if and only if no blank line goes unseen |
| BlankLines.StreamFollowsStandardIff | crate-jmap-base-client/src/client.rs:693-832 | the same for the frames the loop yields, for every chunking of a stream without invalid runs |
| BlankLines.UnseenBlankMergesBlocks | crate-jmap-base-client/src/client.rs:747-766 | six bytes that the standard reads as two blocks and the loop as one frame |
| BlankLines.EventOfBlock | crate-jmap-base-client/src/sse.rs:70-112 | the parsed frame depends on nothing but its block of non-empty lines |
| StandardFields.FieldAgreesIff | crate-jmap-base-client/src/sse.rs:75-90 | the values of a field are those the standard reads if and only if no line is the bare field name; each such line is one more value for the standard |
| StandardFields.FrameFieldsAgreeIff | crate-jmap-base-client/src/sse.rs:75-90 | the same for the fields `event`, `data` and `id` of a frame |
| StandardFields.NoLineIff | crate-jmap-base-client/src/client.rs:768-776 | a frame has no line if and only if it holds nothing but terminators |
| StandardFields.LinelessFrame | crate-jmap-base-client/src/sse.rs:92-112 | such a frame still becomes an event, without type, data and id |
| SseRoundTrip.FieldsRoundTrip | crate-jmap-base-client/src/sse.rs:70-112 | parsing the field lines of an event gives its type, data and id back |
| SseRoundTrip.ReceivedEventMeaning | crate-jmap-base-client/src/sse.rs:92-132 | a StateChange exactly for type `state` with data that parses; otherwise the type and every data line can be read back from the event |
| SseRoundTrip.BlockIsFirstFrame | crate-jmap-base-client/src/client.rs:747-766 | a rendered event is cut exactly at its blank line, whatever follows |
| SseRoundTrip.EventsRoundTrip | crate-jmap-base-client/src/client.rs:686-835 | any events, rendered with LF, CRLF or CR and split at arbitrary bytes, with or without a space after the colon, arrive as exactly those events in order; a cut-off last one is dropped |
| SseRoundTrip.EventsRoundTripWithinLimit | crate-jmap-base-client/src/client.rs:686-835 | the same without assuming that no cap is hit, from sizes alone |
| WireText.LinesMeaning | crate-jmap-base-client/src/sse.rs:70-112 | lines that begin with the texts `event:`, `data:`, `id:` or `:`, in any order and number: the last type, all data joined by newlines, and the last id unless it is empty |
| WireText.ThreeFields | crate-jmap-base-client/src/sse.rs:75-109 | one `event:`, `data:` and `id:` line: a StateChange if and only if the type is `state` and the data parses, otherwise Unknown with both; and the id |
| WireText.BlockIsReceived | crate-jmap-base-client/src/client.rs:747-790 | a block of such lines, each ended by `\n`, `\r\n` or `\r`, and an empty line is the first frame received, with that meaning |
| WireText.WrittenStreamArrives | crate-jmap-base-client/src/client.rs:686-835 | any list of such blocks arrives as what they mean, however the bytes are cut into chunks, unless a cap is hit |
| Common.ControlCodes | crate-jmap-base-client/src/client.rs:747-766 | the terminators and the space are the characters the patterns are written with |
| Backoff.DelayInRange | crate-jmap-base-client/src/client.rs:1052-1065 | for every hash value the delay lies in `[floor(d/2), d]`, without overflow |
| Backoff.JitterRangeIff | crate-jmap-base-client/src/client.rs:1059-1064 | some hash draws a delay if and only if it lies between the half and the half plus `min(half, 2^64 - 2)` nanoseconds |
| Backoff.BackoffMonotone | crate-jmap-base-client/src/client.rs:1054-1058 | the delay before jitter never decreases with the failure count |
| Backoff.FullDelayDrawnIff | crate-jmap-base-client/src/client.rs:1051 | some hash draws the full delay if and only if it is even and its half is below 2^64 - 1 nanoseconds |
| Backoff.OddDelayIsShortened | crate-jmap-base-client/src/client.rs:1051 | a delay of three nanoseconds is never waited in full |
| Backoff.DocumentedDelayIff | crate-jmap-base-client/src/client.rs:1049-1058 | the documented formula is the code's exactly until the factor saturates below `max_delay` |
| Backoff.SaturationShortensDelay | crate-jmap-base-client/src/client.rs:1049-1058 | a policy and failure count on which the two differ |
| Backoff.TotalWait | crate-jmap-base-client/src/client.rs:985-987 | m waits add up to at most `initial * (2^m - 1)`, at most `m * max_delay`, and at least the sum of the halves |
| Backoff.Widths | crate-jmap-base-client/src/client.rs:1060-1064 | the bounds of the 64-bit jitter span and of `Duration` |
| Reconnect.PollOnTrack | crate-jmap-base-client/src/client.rs:960-1009 | every poll keeps: frames handed out are those the attempts delivered, the remembered id is the latest, each request carried the latest id before it |
| Reconnect.SseReconnectState.constructor | crate-jmap-base-client/src/client.rs:951-959 | the initial state satisfies the invariant |
| Reconnect.SseReconnectState.Next | crate-jmap-base-client/src/client.rs:960-1009 | each poll keeps the invariant and does what the specification does, in result, state and requests |
| Reconnect.SseReconnectState.Iterate | crate-jmap-base-client/src/client.rs:962-1008 | one turn of the loop, including the failure count and giving up |
| Reconnect.SseReconnectState.Connect | crate-jmap-base-client/src/client.rs:985-991 | the request carries the remembered id, after a delay in the backoff range of its failure count |
| ReconnectTheorems.CollectRun | crate-jmap-base-client/src/client.rs:960-1009 | polling the stream until it ends or waits yields exactly the items of the run, and makes its requests |
| ReconnectTheorems.RunIsByAttempts | crate-jmap-base-client/src/client.rs:962-1008 | the item-by-item loop is the run by whole attempts |
| ReconnectTheorems.GivesUpIff | crate-jmap-base-client/src/client.rs:1004-1007 | a barren attempt ends the run if and only if it completes `max_retries + 1` consecutive barren attempts and `max_retries` is below `u32::MAX` |
| ReconnectTheorems.ReconnectRefines | crate-jmap-base-client/src/client.rs:960-1009 | for every script, all delivered frames in order, none lost or repeated, up to the first stopping attempt and its error, which is last; later outcomes are not used |
| ReconnectTheorems.FirstStop | crate-jmap-base-client/src/client.rs:1004-1007 | every script has a first stopping attempt or none at all |
| ReconnectTheorems.GivingUpIsPossibleIff | crate-jmap-base-client/src/client.rs:1004-1007 | some run of retryable failures ends if and only if `max_retries < u32::MAX` |
| ReconnectTheorems.OutageEndsIff | crate-jmap-base-client/src/client.rs:940-942 | n refusals in a row end the stream, with the last error, if and only if n exceeds `max_retries` and that is below `u32::MAX` |
| ReconnectTheorems.RefusalEndsRunIff | crate-jmap-base-client/src/client.rs:1081-1092 | over runs: a refused request ends the stream if and only if it could not be built or has a status below 500 other than 408 and 429; otherwise the run goes on with the next attempt |
| ReconnectTheorems.BreakEndsRunIff | crate-jmap-base-client/src/client.rs:974-981 | the same for an error inside a connection, after the frames before it |
| ReconnectTheorems.OtherErrorsEndRun | crate-jmap-base-client/src/client.rs:1085-1092 | every error other than `Http` ends the stream at once, refused or inside a connection, whatever `max_retries` is |
| ReconnectTheorems.PollIsBounded | crate-jmap-base-client/src/client.rs:962-1008 | a poll makes at most `max_retries + 1` attempts, the k-th of them delayed for k failures |
| ReconnectTheorems.PollWaitIsBounded | crate-jmap-base-client/src/client.rs:985-987 | the waits of one poll are bounded by the geometric sum and by `max_retries * max_delay` |
| ReconnectTheorems.ResumesFromLatest | crate-jmap-base-client/src/client.rs:988-991 | one request for each attempt made, and the id sent is that of the latest frame carrying one, or the initial value |
| ReconnectTheorems.NeverRevertsToOlderId | crate-jmap-base-client/src/client.rs:968-971 | the frame that supplies the id never moves back as more frames arrive |
| PushDelivery.EventsAcrossConnections | crate-jmap-base-client/src/client.rs:945-1012 | for every script of refusals and connections: each completed event once and in order up to the first attempt that stops the stream, then its error; one request per attempt, with the latest event id |
| PushDelivery.CapErrorIsFatal | crate-jmap-base-client/src/client.rs:1085-1092 | whatever the bytes, a connection that exceeds a cap ends the stream: its finished frames and then the cap error are the last items |
| Bodies.ExactLengthBody.Next | crate-jmap-base-client/src/blob.rs:211-252 | each poll, with its read-ahead loop, does what the specification does |
| Bodies.CollectExact | crate-jmap-base-client/src/blob.rs:211-252 | polling the wrapped body to its end yields exactly its specified output |
| Bodies.ExactLengthRefines | crate-jmap-base-client/src/blob.rs:211-252 | buffering the wrapped body gives the whole-buffer verdict: the bytes unchanged, or the source error, too long, or too short with the count |
| Bodies.DeclaredBytesProveEnd | crate-jmap-base-client/src/blob.rs:205-210 | a consumer that has received the declared bytes knows the source ended there |
| Bodies.StoppingIsSafeIff | crate-jmap-base-client/src/blob.rs:205-210 | that protection holds if and only if the declared length is not 0 |
| Bodies.UploadTally.Inspect | crate-jmap-base-client/src/blob.rs:691-697 | the tally takes in each Ok chunk and ignores errors |
| Bodies.InspectAll | crate-jmap-base-client/src/blob.rs:691-697 | passing every item through the tally gives the tally of the items |
| Bodies.TallyMeaning | crate-jmap-base-client/src/blob.rs:687-704 | the tally holds the length and the hash of exactly the forwarded bytes |
| Bodies.StreamedUploadRefines | crate-jmap-base-client/src/blob.rs:667-705 | wherever the client stops pulling after the declared length: streaming accepts exactly the right size and digest of the bytes sent, which are the whole source unless the declared length is 0; a wrong size is reported before a wrong digest |
| Bodies.ReadCappedBody | crate-jmap-base-client/src/client.rs:412-436 | the loop computes the capped body |
| Bodies.CappedMeaning | crate-jmap-base-client/src/client.rs:420-436 | the chunk loop accepts a body if and only if it ends without error within the limit; a transport error only when it comes first; otherwise the running total at the chunk that crosses the limit |
| Bodies.CappedBodyMeaning | crate-jmap-base-client/src/client.rs:412-436 | the whole check: an advertised length beyond the limit is reported as it is, otherwise the chunk loop decides |
| Bodies.DownloadState.Next | crate-jmap-base-client/src/blob.rs:363-394 | each poll does what the specification does, in result and in state |
| Bodies.CollectDownload | crate-jmap-base-client/src/blob.rs:363-394 | polling the download to its end yields exactly its specified output |
| Bodies.StreamingDownloadRefines | crate-jmap-base-client/src/blob.rs:807-833 | for every chunking, length, limit and digest, the streaming download collects to the buffered result: same bytes or same error |
| Bodies.DownloadBlobMeaning | crate-jmap-base-client/src/blob.rs:763-788 | the buffered download succeeds exactly within the limit, without transport error and with a matching digest; each error carries its own numbers or digests: the advertised length, or the total at the chunk that crosses the limit |
| Hex.HexLower | crate-jmap-base-client/src/blob.rs:934-941 | the push loop writes two lowercase digits per byte |
| Hex.HexShape | crate-jmap-base-client/src/blob.rs:934-941 | twice as long, lowercase hex only |
| Hex.HexOfOneByte | crate-jmap-base-client/src/blob.rs:612-618 | the two digits of a byte, taken from `0123456789abcdef` |
| Hex.HexAt | crate-jmap-base-client/src/blob.rs:612-618 | each byte is read back from its own two digits, high one first |
| Hex.HexInjective | crate-jmap-base-client/src/blob.rs:1032-1034 | comparing hex strings compares digests |
| UriTemplate.PercentEncode | crate-jmap-base-client/src/blob.rs:570-593 | the borrow path and the prefix-plus-loop path both equal the per-byte definition |
| UriTemplate.PercentRoundTrip | crate-jmap-base-client/src/blob.rs:570-608 | a standard percent-decoder returns the original bytes, for every value |
| UriTemplate.EncodingOfOneByte | crate-jmap-base-client/src/blob.rs:583-608 | a byte stands for itself if and only if it is one of the 66 unreserved characters of section 2.3 of RFC 3986, listed; otherwise it is `%` and two digits of `0123456789ABCDEF` |
| UriTemplate.EncodingShape | crate-jmap-base-client/src/blob.rs:570-608 | only unreserved bytes and uppercase escapes of other bytes |
| UriTemplate.EncodedStringIff | crate-jmap-base-client/src/blob.rs:570-608 | a text is the encoding of a string if and only if it has that shape and its bytes are well-formed UTF-8 |
| UriTemplate.ParseUnparse | crate-jmap-base-client/src/blob.rs:543-550 | parsing a template written from slots gives the slots back |
| UriTemplate.ExpandVariable | crate-jmap-base-client/src/blob.rs:543-556 | text up to the first `{name}` is kept, the variable is replaced by its encoded value, and the lack of one is an error whatever follows |
| UriTemplate.ExpandEnd | crate-jmap-base-client/src/blob.rs:543-560 | text without `{` is its own expansion; a `{` without `}` is an error |
| UriTemplate.FirstEntryCounts | crate-jmap-base-client/src/blob.rs:551 | of several entries with the same name the first counts |
| UriTemplate.FillNext | crate-jmap-base-client/src/blob.rs:544-556 | one turn: the literal and the encoded value, or the error; every slice is at a character boundary |
| UriTemplate.ExpandUrlTemplate | crate-jmap-base-client/src/blob.rs:540-561 | the loop fills the parsed slots from the left; the first missing variable or the unclosed brace is the error |
| UriTemplate.ExpansionIsIdempotent | crate-jmap-base-client/src/blob.rs:540-561 | an expansion holds no `{`, and expanding it again is the identity |
| UriTemplate.SeparatedNeverSpills | crate-jmap-base-client/src/blob.rs:540-608 | equal expansions of strings come from equal strings when no literal between variables starts the encoding of any bytes |
| UriTemplate.NeverTradesIff | crate-jmap-base-client/src/blob.rs:540-608 | in every template with distinct variables, the two variables around a literal cannot trade text if and only if the literal is not part of an encoded string |
| UriTemplate.NeverSpillsIff | crate-jmap-base-client/src/blob.rs:540-608 | no value spills only if no literal between variables is part of an encoded string, and this is exact unless a literal leaves a multi-byte character open that the next literal can go on with |
| UriTemplate.OpenCharacterIsSafe | crate-jmap-base-client/src/blob.rs:540-608 | on `{a}%C3{b}` no value spills |
| UriTemplate.ContinuedCharacterSpills | crate-jmap-base-client/src/blob.rs:540-608 | on `{a}%C3{b}%A9{c}` no two adjacent variables can trade text, but `a` and `c` can |
| UriTemplate.ReservedByteSeparates | crate-jmap-base-client/src/blob.rs:596-598 | a literal holding any byte that is neither unreserved nor `%` satisfies it |
| Pem.ParseAllPemCerts | crate-jmap-base-client/src/auth.rs:265-292 | the loop returns the decodable frames in order, nothing for malformed UTF-8, and terminates |
| Pem.NextFrame | crate-jmap-base-client/src/auth.rs:272-284 | the three searches of one turn find the next frame |
| Pem.FirstIsHead | crate-jmap-base-client/src/auth.rs:235-255 | a certificate from the first parser is the head of the list of the second |
| Pem.AllPemCertsAreDecodable | crate-jmap-base-client/src/auth.rs:265-292 | of all frames scanned, decodable or not, the result is those bodies that decode, in order |
| Pem.FirstAgreesIff | crate-jmap-base-client/src/auth.rs:235-292 | the two parsers agree on the first certificate if and only if the first frame decodes or no frame does |
| Pem.FirstFrameUndecodable | crate-jmap-base-client/src/auth.rs:250-254 | two frames on which they differ |
| Pem.LabelOfLine | crate-jmap-base-client/src/auth.rs:277 | the label is found whatever whitespace stands around it, however many dashes follow it, and with whitespace after those |
| Pem.RenderedIsScanned | crate-jmap-base-client/src/auth.rs:272-289 | a rendered frame is found with exactly its body, and the scan resumes right after it |
| Pem.BundleScan | crate-jmap-base-client/src/auth.rs:265-292 | a rendered bundle is scanned into exactly its bodies, in order |
| Pem.BundleRoundTrip | crate-jmap-base-client/src/auth.rs:235-292 | any list of certificates, wrapped, labelled and interleaved with prose, is read back in order |
| PemText.WhitespaceCodes | crate-jmap-base-client/src/auth.rs:284 | white space is exactly 25 code points |
| PemText.LayoutIsRemoved | crate-jmap-base-client/src/auth.rs:284 | from base64 text with blanks, tabs, CR and LF anywhere the parser removes those and nothing else |
| PemText.WrapIsUndone | crate-jmap-base-client/src/auth.rs:281-284 | wrapping base64 text at any width, with LF or CRLF, adds only such layout |
| PemText.FileRoundTrip | crate-jmap-base-client/src/auth.rs:235-292 | files with LF or CRLF line ends, `-----BEGIN ` and `-----END ` lines with printable labels, and layout anywhere in the base64 text: every certificate is read back, in order |

## Left out

- NeverSpillsIff: for templates where a literal leaves a multi-byte character open and the next literal can go on with it (`…%C3{b}%A9…`), only the necessary half; whether values spill there depends on all literals together.
- HTTP, TLS, timers, task scheduling and stream cancellation: replaced by scripts of chunks, errors and attempt outcomes.
- The connect phase of `subscribe_events` (URL check, status, Content-Type): an attempt is refused with an arbitrary error or opens.
- JSON, SHA-256, base64 and the constant-time comparison: parameters with the laws stated above, and equality.
- Aborting an upload whose body faults: the fault is the model's last item, and the digest comparison is stated for requests that were fully sent.
- Error message texts: errors keep their variants and numbers.
- Capacity hints, borrowing and copying: values only; the in-place drains are assignments of the rest.
- Overflow of 64-bit byte counters (`sent`, `received`, `body.len()`): counts are unbounded; wrapping needs a body of about 2^64 bytes.
- Polling a plain `unfold` stream again after it returned `None`: modelled as returning `None`, where the library panics.
- `QueryParams`, `extract_response`, `method_error_details`, URL and configuration checks, authentication types: short lookups and single-branch checks.
- The rest of the event-stream standard: a leading byte order mark, NUL in ids, the default event type, and blocks without data.
- WebSocket transport, the extension crates and the server crates.
