# Verification of jrpxy's body forwarding

jrpxy is an HTTP/1.1 proxy built from poll-style state machines: a body reader and a body writer for
each framing, a forwarder that pumps one into the other, and the message heads that announce the
framing. Its central promise is that body framing survives partial reads, partial writes, `Pending` at
any point and cancelled futures. This project models those machines in Dafny and proves the promise.

`dafny verify dfyconfig.toml` checks everything.

## What is modelled

**The environment.** A `Source` and a `Sink` are adversaries. Polled, they may be not ready, may fail,
or may move as few bytes as they like; nothing is assumed about when. `patience`, an arbitrary number
at the start, bounds how often an endpoint will still stall (or a sink take nothing), which is all that
termination needs. Whether an endpoint is `reliable`, and a sink `eager`, is fixed when it is made and
out of reach of the code: a reliable one never fails, and an eager one, when ready, never takes
nothing. Endpoints that are all of that are called sound. Cancelling a future means not polling again
for a while, so whatever a method promises of `Pending` it promises of a cancelled call.

**Body codecs.** `ReaderBuffer` and `BytesReader` (`IoBuffer.dfy`) are a byte queue in front of a source.
`ChunkedBodyReader`, `ContentLengthBodyReader` and `EofBodyReader` read over it; each has a `View`, the
outcome a one-shot decoder gives over everything still to come, and every read is proved to take its
bytes off the front of that view. `ChunkedCoding.dfy` holds the one-shot chunked decoder and the
encoder; `ChunkLine.dfy` and `FieldSection.dfy` hold the size line and the trailer section, both
parsed from a buffer that may not hold all of them yet. `BodyWriter` is the writer typestate, Ready to
Open to Write to Close and back, ending in Finish or Abort, for all four encodings; its invariant says
what is on the wire at every cursor position.

**Forwarders.** `BodyForwarder` is the request and the response forwarder, which are the same machine:
it takes the writer's phase out, steps it, and puts it back, at any chunk size. Its invariant carries the conservation law
(source bytes are on the wire, pending, or still to be read, in that order) through every step, and its
`Finish` concludes that the body was delivered. `Exchanger.Finish` drives both directions and pairs up
the connections that may be reused. `FarEnd.dfy` closes the loop: it puts this repository's readers on
the wire the forwarder wrote.

**Heads.** `Headers.dfy` decides framing from a list of fields, `ConnectionTokens.dfy` parses connection
options, `HeadWriter.dfy` writes heads with their framing replaced, `RequestTarget.dfy` and
`ProxyRequest.dfy` rewrite a request before it is forwarded.

**Messages.** `Messages.dfy` puts a head, a writer and a forwarder on one sink, for requests and for
responses, and concludes about everything that sink was given.

## Main results

1. *Delivery.* In every run in which `finish` succeeds, whatever the interleaving, the wire carries the
   source body and its permitted trailers in the writer's encoding, flushed, and the source stream stands
   at the first byte after the body (`Forwarder.BodyForwarder.Finish`). It is the whole source body if
   and only if the chunk size is not zero, or the source is not close-delimited, or its body is empty: at
   chunk size zero a close-delimited body is forwarded as a complete, empty one
   (`FarEnd.ForwardAtZero`). The readers of this repository get exactly back what was delivered, and not
   one byte of what follows (`FarEnd.ReadBack`); and so does whoever reads the whole message, head first
   (`Messages.ForwardRequest`, `Messages.ForwardResponse`).
2. *No false completion.* A source that is cut short or broken never succeeds, and whatever comes of a
   run, success or any failure at any point, nobody takes a chunked or length-delimited wire for a
   complete body other than the one there was to forward. Nor does any prefix of a chunked body, nor an
   aborted one, read as complete.
3. *Success.* A complete source that fits the limits, over reliable endpoints and an eager sink, is forwarded if and only if the chunk size is not zero, or
   the source is close-delimited with no byte buffered, or is not close-delimited and its body is empty.
   Short of that, `forward` gets nowhere for ever. Otherwise the pump terminates, and no overflow, incomplete-body or incomplete-chunk error of the writer can
   occur inside it.
4. *Refinement.* The incremental readers agree with the one-shot decoder on every stream, however the
   bytes arrive; each error they report is one the stream, the limits or the transport explains. The
   decoder in turn accepts exactly the grammar of section 7.1 of RFC 9112, and calls a stream broken
   exactly when nothing could follow that would mend it (`ChunkedGrammar`).
5. *Framing.* Each of the three decisions of `framing` has its exact condition; what it decides does not depend on the order or the folding of fields, and a head
   written with a framing parses back to it from any list of fields.

## What the code does that its comments do not say

* `EofBodyReader` asked for zero bytes over an empty buffer reports the end of the body, whatever is still
  unread, and `ProxyOptions` does not refuse a body chunk size of zero. `EofBodyReader.PollRead` gives
  the exact condition at the reader, `BodyForwarder.Finish` at the forwarder, and `FarEnd.ForwardAtZero`
  any instance. Once a byte of the body is buffered, whatever its framing, a chunk size of zero makes
  `forward` return `false` for ever, and `finish` never return. So it is that a close-delimited body
  with a byte buffered at the call, and any other body that is not empty, never gets through at chunk
  size zero, buffered or not (`BodyForwarder.GetsThrough`).
* `TokenParser` refuses a value whose first option is preceded by whitespace. `IterateMeaningExactly`
  gives the exact condition. Values from the head parser are trimmed, so it takes a value put together
  some other way.
* A request whose connection options name `Host` is forwarded without any Host, even one that
  normalization has just put in. `ForwardedHost` gives the exact condition and `HostNamedAsOption` an
  instance.
* The Write phase retries when a ready sink accepts nothing, while Open, Close and Finish report an
  error. Termination therefore needs a sink that does not do so forever.

## Model

| member | source | states |
|---|---|---|
| Bytes.TrimOwsCore | util/src/parse.rs:114-127 | Trimming recovers a value from any SP and HTAB put around it, and strips nothing else. |
| Spelling.HeaderBytes | util/src/parse.rs:1-83 | The byte tables for names and values hold exactly what RFC 9110 lists. |
| Spelling.TargetBytes | util/src/parse.rs:129-172 | The byte tables for targets hold exactly what RFC 3986 lists. |
| Spelling.Numerals | body/src/writer/chunked.rs:91 | The sixteen digits are printed in lower case, read in either, and each is worth its place. |
| Spelling.Cases | http-message/src/header.rs:117-121 | Two bytes match if they are equal or the two cases of one letter, and not otherwise. |
| Spelling.MixedCase | http-message/src/header.rs:214 | `Content-Length` is a content-length. |
| Spelling.FramingNames | http-message/src/framing.rs:56 | The framing names, and the coding, are the ones the standard gives. |
| Spelling.WireConstants | body/src/writer/chunked.rs:294-303 | The last chunk, the abort mark, line ends and version are the ones the standard gives. |
| Spelling.TargetNames | proxy/src/request_target.rs:81-174 | So are Host, the scheme separator and the methods that are told apart. |
| Spelling.NeverForwarded | proxy/src/lib.rs:1037-1062 | CONNECT, TRACE and OPTIONS are never forwarded, and any other method is not refused for itself. |
| Spelling.ConnectionNames | http-message/src/header.rs:303-310 | The connection options are the ones the standard gives. |
| Spelling.HopByHopNames | proxy/src/lib.rs:809-830 | The seven hop-by-hop names, and no other. |
| IoBuffer.ReaderBuffer.SplitTo | util/src/io_buffer.rs:28-34 | Takes exactly the first bytes off the queue; the rest stays, in order. |
| IoBuffer.ReaderBuffer.GetU8 | util/src/io_buffer.rs:73-78 | Takes the first byte off the queue. |
| IoBuffer.ReaderBuffer.Reserve | util/src/io_buffer.rs:50-60 | Makes room without showing any of it: the queue is unchanged. |
| IoBuffer.ReaderBuffer.Advance | util/src/io_buffer.rs:64-71 | Moves the valid prefix over bytes that are there, and changes no byte. |
| IoBuffer.BytesReader.DoFill | util/src/io_buffer.rs:256-275 | Ready, failed or pending, filling keeps buffered ++ unread; it only appends to the queue, and zero bytes means none were asked for or the peer has closed. |
| IoBuffer.BytesReader.PollEnsure | util/src/io_buffer.rs:194-223 | Success means a byte is buffered; a non-empty buffer needs no read; the end is reported only with nothing left at all. |
| IoBuffer.BytesReader.PollExtend | util/src/io_buffer.rs:227-254 | Success means the buffer grew; the end is reported only when nothing is unread, and keeps what is buffered. |
| ChunkLine.SizeLines | body/src/reader/chunked.rs:413-439 | The scan accepts exactly the size lines of section 7.1 of RFC 9112, one to sixteen digits of either case, and reads the number off them. |
| ChunkLine.SizeStable | body/src/reader/chunked.rs:413-427 | A verdict on the buffered prefix stands however the stream goes on. |
| ChunkLine.SizeLineParses | body/src/reader/chunked.rs:413-439 | Every line of digits, whitespace, an extension and CRLF is read, to its end, as its digits say. |
| ChunkLine.SizeCaseless | body/src/reader/chunked.rs:413-439 | The case of the digits changes nothing about any line. |
| ChunkLine.HexNumberPadded | body/src/reader/chunked.rs:413-439 | Nor do leading zeros change the number. |
| ChunkLine.HexIsShortest | body/src/writer/chunked.rs:91 | A size is written without leading zeros, in lower case. |
| ChunkLine.SizeOpen | body/src/reader/chunked.rs:416-426 | As long as the verdict is partial, some continuation completes the line. |
| ChunkLine.SizeRoundTrip | body/src/writer/chunked.rs:83-94 | The header written for a chunk parses back to its length, whatever follows. |
| ChunkLine.SizeLineFitsHeader | body/src/writer/chunked.rs:21-22 | No 64-bit length overflows the 18-byte header buffer. |
| FieldSection.LineParses | http-message/src/message.rs:240-256 | Every field line, with any whitespace around its value and either line end, is accepted whole and yields name and bare value. |
| FieldSection.LineHasParts | http-message/src/message.rs:240-256 | Nothing else is accepted: an accepted line is such a line. |
| FieldSection.SectionStable | body/src/reader/chunked.rs:447-472 | A verdict on a buffered prefix of a trailer section stands however the stream goes on. |
| FieldSection.SectionTooMany | http-message/src/message.rs:240-256 | More fields than slots are refused for that. |
| FieldSection.SectionCut | http-message/src/message.rs:247-253 | A section is accepted from its own bytes alone. |
| FieldSection.SectionOpen | body/src/reader/chunked.rs:452-462 | As long as the verdict is partial, some continuation completes the section. |
| FieldSection.SectionWellFormed | http-message/src/message.rs:240-256 | Parsed fields survive being printed. |
| FieldSection.SectionRoundTrip | body/src/writer/chunked.rs:294-303 | A printed section parses back to the same fields in order and stops where it ends. |
| FieldSection.CutSectionIsPartial | body/src/writer/chunked.rs:340-352 | No strict prefix of a printed section parses as a section. |
| ChunkedCoding.TakeData | body/src/reader/chunked.rs:258-263 | Bytes taken off a chunk's data come off the front of the body, and nothing else about it changes. |
| ChunkedCoding.DecodeStable | body/src/reader/chunked.rs:125-170 | More input never changes what a stream has been decoded to: it lengthens the rest of a complete body, leaves a broken one alone, and only extends a cut one. |
| ChunkedCoding.RestIsSuffix | body/src/reader/chunked.rs:485-521 | What follows a complete body is a suffix of the stream. |
| ChunkedCoding.TrailersWellFormed | body/src/reader/chunked.rs:464-470 | Trailers of a complete body survive being printed again. |
| ChunkedCoding.CutIsTruncated | body/src/reader/chunked.rs:120-171 | No strict prefix of a complete chunked body decodes as complete; it decodes as truncated, to a prefix of the payload. |
| ChunkedCoding.ChunksDecode | body/src/writer/chunked.rs:4-5 | A run of written chunks decodes to their concatenation followed by whatever the rest decodes to. |
| ChunkedCoding.RoundTrip | body/src/writer/chunked.rs:83-366 | Any chunking of any payload, with any trailers, followed by any bytes, decodes to the payload, the trailers and exactly those bytes. |
| ChunkedCoding.CutLastChunkDecodes | body/src/writer/chunked.rs:340-352 | The end of a body cut anywhere decodes as truncated, with nothing added to the payload. |
| ChunkedCoding.AbortIsMalformed | body/src/writer/chunked.rs:59-64 | Chunks, then the abort mark, then anything at all, never decode as complete. |
| ChunkedCoding.CutHeaderDecodes | body/src/writer/chunked.rs:132-146 | A size line cut anywhere decodes as truncated with no payload. |
| ChunkedCoding.CutDataDecodes | body/src/writer/chunked.rs:188-196 | A chunk cut in its data decodes as truncated, to the data so far. |
| ChunkedCoding.CutFooterDecodes | body/src/writer/chunked.rs:260-274 | A chunk cut in or just after its footer decodes as truncated, to all of its data. |
| ChunkedReader.ChunkedBodyReader.PollFooter | body/src/reader/chunked.rs:265-294 | Takes one footer byte, or explains why the footer is not one. |
| ChunkedGrammar.TextDecodes | body/src/reader/chunked.rs:120-171 | Every text of the grammar of section 7.1 of RFC 9112 decodes to its data and trailers and stops where it ends. |
| ChunkedGrammar.DecodedIsText | body/src/reader/chunked.rs:120-171 | Nothing else decodes as complete. |
| ChunkedGrammar.TruncatedCanEnd | body/src/reader/chunked.rs:265-294 | What decodes as truncated can still end, from any position; so the coding is called broken only when nothing could mend it. |
| ChunkedReader.ChunkedBodyReader.PollReadData | body/src/reader/chunked.rs:243-298 | A chunk's bytes come off the front of the body, never more than asked for nor none at all; it is over only past its CRLF. |
| ChunkedReader.ChunkedBodyReader.PollSize | body/src/reader/chunked.rs:408-440 | Reads a size line as the decoder does, however it arrives; fails only for a reason the stream gives, at once when one is too long, and never waits with more than the limit buffered. |
| ChunkedReader.ChunkedBodyReader.PollTrailers | body/src/reader/chunked.rs:441-473 | Reads the trailer section as the decoder does, however it arrives; fails at once when it is too long, and never waits with more than the limit buffered. |
| ChunkedReader.ChunkedBodyReader.PollReadChunk | body/src/reader/chunked.rs:405-477 | Pending anywhere, the next poll resumes at the same place in the body. |
| ChunkedReader.ChunkedBodyReader.StepInChunk | body/src/reader/chunked.rs:133-151 | A data reader taken out to be polled is put back where it stopped, and left out only after an error; a read of no bytes over a buffered one changes nothing. |
| ChunkedReader.ChunkedBodyReader.StepBetween | body/src/reader/chunked.rs:152-164 | A head reader taken out to be polled is put back, or replaced by the reader of what comes next, at the same place in the body. |
| ChunkedReader.ChunkedBodyReader.PollRead | body/src/reader/chunked.rs:120-171 | Every outcome agrees with the one-shot decoder; the end means the trailers are parsed and the stream is at the first byte after the body; an error is explained by the body and latches. |
| ChunkedReader.ChunkedBodyReader.Drain | body/src/reader/chunked.rs:173-186 | From any position, success leaves the stream at the first byte after the body and returns its trailers. |
| BodyReaders.LengthAdvances | body/src/reader/content_length.rs:91-99 | Bytes taken off the stream come off the front of a length-delimited body. |
| BodyReaders.ContentLengthBodyReader.PollRead | body/src/reader/content_length.rs:77-100 | Delivers the declared bytes in order and no other; the offset neither overflows nor passes the length; an early close is an error. |
| BodyReaders.ContentLengthBodyReader.Drain | body/src/reader/content_length.rs:104-117 | From any offset, success leaves the stream at the first byte after the body. |
| BodyReaders.EofBodyReader.PollRead | body/src/reader/eof.rs:62-87 | The body is the rest of the stream; reporting its end loses some of it exactly when no bytes are asked for, over an empty buffer, with some yet to come; over a non-empty one such a read gives none and changes nothing; neither Pending nor an error changes anything. |
| BodyReaders.BodyReader.PollRead | frontend/src/reader.rs:354-360 | One contract for every framing and every read size: bytes come off the front of the source body; the end loses none of it exactly unless a close-delimited body with bytes left is read zero bytes at a time. |
| BodyReaders.BodyReader.Drain | frontend/src/reader.rs:373-382 | Hands back a connection only if it may be reused, aligned to the byte after the body; never a close-delimited one. |
| BodyWriters.BodyWriter.OpenChunk | body/src/writer/content_length.rs:43-62 | Fails exactly when the cycle would pass the declared total, without overflowing; writes nothing. |
| BodyWriters.BodyWriter.PollWriteRest | body/src/writer/chunked.rs:341-352 | The wire grows by exactly the bytes the cursor passes, whatever the sink accepts; a short write is no error, and on a sound sink nothing is. |
| BodyWriters.BodyWriter.PollOpen | body/src/writer/chunked.rs:132-146 | Keeps the wire equal to the closed cycles plus the part of the size line already written. |
| BodyWriters.BodyWriter.IntoWrite | body/src/writer/chunked.rs:106-125 | Moves on exactly when the whole size line is on the wire. |
| BodyWriters.BodyWriter.PollOpenToWrite | proxy/src/body/request.rs:79-93 | An incomplete header can not surface from the Open step. |
| BodyWriters.BodyWriter.PollWriteBounded | body/src/writer.rs:15-43 | Refuses exactly the buffers that do not fit the bound, without overflowing; writes a prefix of the others. |
| BodyWriters.BodyWriter.PollWrite | body/src/writer/chunked.rs:188-196 | The payload on the wire grows by the prefix accepted, and the cursor with it. |
| BodyWriters.BodyWriter.IntoClose | body/src/writer/content_length.rs:155-174 | Moves on exactly when the cycle's budget is spent, which then counts toward the total. |
| BodyWriters.BodyWriter.PollClose | body/src/writer/chunked.rs:260-274 | Keeps the wire equal to the closed cycles, this one, and the part of its footer already written. |
| BodyWriters.BodyWriter.IntoReady | body/src/writer/chunked.rs:240-253 | Moves on exactly when the footer is out; the payload sent is unchanged. |
| BodyWriters.BodyWriter.CloseCycle | body/src/writer/chunked.rs:212-222 | A closed cycle is one chunk of the encoding, and none at all when it was empty. |
| BodyWriters.BodyWriter.IntoFinish | body/src/writer/content_length.rs:64-83 | Fails exactly when a declared length is not used up. |
| BodyWriters.BodyWriter.PollFinish | body/src/writer/chunked.rs:340-360 | Done means the terminator is wholly written and flushed. |
| BodyWriters.BodyWriter.IntoWriter | body/src/writer/chunked.rs:316-333 | Gives the connection back exactly when the end is flushed, and never a close-delimited one. |
| BodyWriters.BodyWriter.PollAbort | body/src/writer/chunked.rs:406-425 | Done means a chunked stream carries the abort mark and is flushed. |
| BodyWriters.BodyWriter.LengthKept | body/src/writer/content_length.rs:43-83 | The declared length is never passed, nor promised away by a cycle; the wire carries the payload alone; `finish` is possible exactly when it is as long as declared. |
| BodyWriters.BodyWriter.WireDecodes | body/src/writer/chunked.rs:1-8 | At every cursor position before the terminator, a receiver has exactly the payload sent and knows that more must come. |
| BodyWriters.BodyWriter.FinishDecodes | body/src/writer/chunked.rs:340-352 | While the end is being written a receiver has the payload and knows that more must come; from its last byte on, the body reads back. |
| BodyWriters.BodyWriter.AbortedWireDecodes | body/src/writer/chunked.rs:6-8 | Once the abort mark is out, no continuation makes the body complete. |
| FieldSelect.WithoutConcat | http-message/src/header.rs:321-329 | Fields are kept or dropped each for its own name, and the kept ones stay in order. |
| FieldSelect.NamedWithout | http-message/src/header.rs:321-329 | Dropping names takes all of their values and none of any other name's. |
| FieldSelect.WithoutInOrder | http-message/src/header.rs:321-329 | What is kept stays in its order. |
| FieldSelect.WithoutTwice | http-message/src/header.rs:321-329 | Dropping twice is dropping the union. |
| FieldSelect.WithoutCommutes | http-message/src/header.rs:321-329 | The order in which names are dropped does not matter, and dropping them again changes nothing. |
| FieldSelect.Retain | proxy/src/lib.rs:937-941 | Keeps exactly the fields that are not listed, in order. |
| Forwarder.RequestCodec | proxy/src/lib.rs:1202-1215 | The request side chooses a writer the forwarder's laws hold for, and never a close-delimited one. |
| Forwarder.ResponseCodec | proxy/src/lib.rs:670-711 | So does the response side: never chunked for a client that cannot chunk, and never close-delimited for one that can. |
| Forwarder.DeliveredReadsBack | proxy/src/body/request.rs:243-276 | A delivered body decodes to that body, those trailers, and the bytes of the next message, in every encoding. |
| Forwarder.TrailersKept | proxy/src/lib.rs:937-941 | From chunked to chunked, every value of every permitted name is sent, in order, and none of a forbidden one; otherwise no trailers are. |
| Forwarder.DeliveredOnce | proxy/src/body/request.rs:246-276 | One wire delivers one body. |
| Forwarder.DeliveredIsNothingElse | proxy/src/body/request.rs:246-276 | A delivered body is taken for no other. |
| Forwarder.BodyForwarder.StepWrite | proxy/src/body/request.rs:94-113 | Bytes leave pending exactly as they reach the wire; the last of them closes the cycle, which can not fail. |
| Forwarder.BodyForwarder.PendingFits | proxy/src/body/request.rs:71-78 | The writer's budget always has room for what is pending, so opening a cycle never overflows. |
| Forwarder.BodyForwarder.StepOnce | proxy/src/body/request.rs:53-130 | Keeps the wire invariant and conserves the bytes; restores the phase unless it failed; fails only because the sink did; asks for input only when idle. |
| Forwarder.BodyForwarder.Refill | proxy/src/body/request.rs:192-198 | Nothing changes until the read resolves, also while a cycle is still closing; the bytes read become pending. |
| Forwarder.BodyForwarder.Drive | proxy/src/body/request.rs:200-214 | Reports completion only with the reader done, nothing pending and the writer idle. |
| Forwarder.BodyForwarder.ForwardInner | proxy/src/body/request.rs:186-215 | Keeps conservation through any outcome; makes a lexicographic measure smaller unless it completes, fails, or is stuck at chunk size zero, where it stays. |
| Forwarder.BodyForwarder.PollForward | proxy/src/body/request.rs:175-184 | Keeps the invariant; after an error, every call fails and changes neither the wire nor any byte still to be read, buffered or not. |
| Forwarder.BodyForwarder.WireSoFar | proxy/src/body/request.rs:186-215 | In every reachable state the receiver has the bytes sent, and those, the pending ones and the unread ones are the source body. |
| Forwarder.BodyForwarder.StillHonest | proxy/src/body/request.rs:246-249 | In every reachable state, nobody takes the wire for a complete body other than the one to be forwarded. |
| Forwarder.BodyForwarder.EndingHonest | proxy/src/body/request.rs:265-273 | Nor while the end of the body is being written. |
| Forwarder.BodyForwarder.EndBody | proxy/src/body/request.rs:265-273 | Drives the terminator until it is written and flushed. |
| Forwarder.BodyForwarder.Terminate | proxy/src/body/request.rs:259-275 | Ends the body with the permitted trailers in order and aligns the source to the next message. |
| Forwarder.BodyForwarder.Finish | proxy/src/body/request.rs:246-276 | At any chunk size: success means delivery, of the whole source body exactly unless a close-delimited one was read zero bytes at a time, and hands back aligned, flushed connections; a cut or broken source never succeeds; whatever comes of it, the wire is taken for no other body; a complete source on sound endpoints succeeds if and only if it gets through; on an errored forwarder it fails at once and touches nothing. |
| Exchanger.FinishOne | proxy/src/lib.rs:794-797 | What one direction hands back is whole, flushed and aligned. |
| Exchanger.Finish | proxy/src/lib.rs:782-806 | A connection comes back only at a message boundary of both its halves, never a close-delimited one; both directions complete or the exchange fails, for a reason one of them gives. |
| FarEnd.ReadAll | body/src/reader/chunked.rs:116-118 | Reading in pieces of any positive size yields the whole body and nothing else. |
| FarEnd.Receive | body/src/reader/chunked.rs:173-176 | The readers return what the stream decodes to, down to the first byte after the body, or an error that it explains. |
| FarEnd.ReadBack | proxy/src/body/response.rs:230-260 | What a forwarder delivered is read back under any fragmentation; only the transport can prevent it. |
| FarEnd.ForwardAtZero | proxy/src/options.rs:125-143 | At chunk size zero, which is not refused, any close-delimited response that is not buffered yet is forwarded as a complete, empty one. |
| FarEnd.ReadCutShort | proxy/src/body/response.rs:230-233 | What a forwarder left cut short is never read as complete. |
| Lists.PiecesJoin | http-message/src/header.rs:223-224 | Splitting at commas undoes joining with one. |
| Lists.ElementsJoin | http-message/src/header.rs:216-224 | Folding two values into one comma list joins their elements. |
| Lists.ElementsTrim | http-message/src/header.rs:215-224 | Whitespace around a whole list does not matter. |
| Lists.DecimalRoundTrip | frontend/src/writer.rs:225-229 | A printed length parses back. |
| Headers.Headers.Framing | http-message/src/header.rs:208-279 | Succeeds exactly when the fields say one thing, with that thing, and each error names a fault the fields really have. |
| Lists.U64Accepted | http-message/src/header.rs:225-239 | Every 64-bit number is read from its decimal form with any leading zeros, and no larger one is. |
| Lists.U64HasParts | http-message/src/header.rs:225-239 | Nothing else is read as a number. |
| Headers.Headers.Scan | http-message/src/header.rs:213-255 | Finds the one number all content-length elements denote, and the transfer-encodings, or an element at fault. |
| Headers.CheckLengths | http-message/src/header.rs:215-246 | Accepts exactly what agrees with the number already seen; a conflict is between two numbers really listed. |
| Headers.EnsureSoleChunkedCoding | http-message/src/header.rs:374-395 | Accepts exactly one chunked coding among any number of empty elements. |
| FramingLaws.LengthDecided | http-message/src/header.rs:208-279 | A length is decided if and only if there is a content-length, all it lists denotes that one 64-bit number, and there is no transfer-encoding. |
| FramingLaws.NamedPermuted | http-message/src/header.rs:200-205 | Permuting fields permutes the values found under a name. |
| FramingLaws.ChunkedDecided | http-message/src/header.rs:257-278 | Chunked is decided if and only if there is one transfer-encoding, it names the chunked coding alone, and there is no content-length. |
| FramingLaws.NoFramingDecided | http-message/src/header.rs:273-278 | No framing is decided if and only if neither field is there. |
| FramingLaws.SoleChunkedMeans | http-message/src/header.rs:369-395 | The chunked coding alone: one element is it, in any case, and all others are empty. |
| FramingLaws.FramingPermuted | http-message/src/header.rs:208-279 | The order of fields changes neither whether framing succeeds nor its value. |
| FramingLaws.FramingFolded | http-message/src/header.rs:216-222 | One line listing two lengths means the same as two lines, wherever they stand. |
| ConnectionTokens.TokenParser.TakeElement | http-message/src/header.rs:421-443 | Splits off a token run and the comma after it, or finds the byte that is neither. |
| ConnectionTokens.TokenParser.Next | http-message/src/header.rs:405-454 | Terminates, yields the next option of the iteration, and is fused after an error. |
| ConnectionTokens.IterateMeaning | http-message/src/header.rs:397-455 | Without leading whitespace, iterating yields exactly the non-empty trimmed list elements in order, and one error at the first that is not a token. |
| ConnectionTokens.IterateMeaningExactly | http-message/src/header.rs:397-455 | Iterating agrees with the list on every value, if and only if whitespace does not precede a first option. |
| ConnectionTokens.LateCloseIsRefused | http-message/src/header.rs:430-440 | An instance of that exception. |
| ConnectionTokens.LegalMeaning | http-message/src/header.rs:397-455 | A list is legal if and only if each element is a token or empty, and its options are those that are not empty. |
| ConnectionTokens.GetConnectionTokens | proxy/src/lib.rs:838-840 | The options of every line in order, or the first illegal byte. |
| ConnectionTokens.ConnectionIsPersistent | http-message/src/header.rs:297-319 | `close` settles it; otherwise HTTP/1.1 stays open and HTTP/1.0 must be asked to. |
| ConnectionTokens.CollectedHolds | http-message/src/header.rs:281-290 | All lines are legal if and only if each is, and together they hold the options of each. |
| ConnectionTokens.PersistenceRules | http-message/src/header.rs:311-318 | Without options HTTP/1.1 stays open and HTTP/1.0 does not; `close` closes either; short of that `keep-alive` keeps either. |
| ConnectionTokens.NamesCaseless | http-message/src/header.rs:305-309 | The case of an option does not matter. |
| ConnectionTokens.PersistenceIgnoresOrder | http-message/src/header.rs:297-319 | The order of the lines matters neither to legality nor to persistence. |
| HeadWriter.WriteKept | frontend/src/writer.rs:209-220 | The wire gets the kept fields in order, or a start of them. |
| HeadWriter.WriteFields | frontend/src/writer.rs:207-241 | The wire gets the kept fields in order, the framing field, the empty line, and is flushed; whatever fails, it gets a start of that. |
| HeadWriter.WriteResponseTo | frontend/src/writer.rs:188-244 | Success puts the status line and the emitted section on the wire, flushed; failure, a start of them. |
| HeadWriter.WriteRequestTo | backend/src/writer.rs:74-135 | Success puts the request line and the emitted section on the wire, flushed; failure, a start of them. |
| HeadWriter.HeadFraming | http-message/src/framing.rs:56-61 | From any list of fields, the emitted head announces exactly the framing it was written with; a preserved one is emitted as it was. |
| HeadWriter.EmittedNamed | frontend/src/writer.rs:209-233 | The emitted head holds no framing field but the writer's own. |
| HeadWriter.HeadReadsBack | frontend/src/writer.rs:207-236 | The emitted section parses back to the emitted fields, and those to the framing. |
| HeadWriter.OthersEmitted | frontend/src/writer.rs:209-220 | The emitted head holds every value of every name but the framing ones, in order. |
| HeadWriter.RequestLineReadsBack | backend/src/writer.rs:93-101 | A request line taken apart at its spaces gives the method and the target back. |
| HeadWriter.StatusLineReadsBack | frontend/src/writer.rs:198-205 | A status line gives the code and the reason back. |
| HeadWriter.MessageReadsBack | proxy/src/lib.rs:657-721 | A receiver who parses the head and frames the body by it gets the source body, its permitted trailers, and the bytes after the message. |
| HeadWriter.HeadAnnounces | proxy/src/lib.rs:1202-1215 | Whatever follows an emitted head is framed the way its writer frames it. |
| Messages.ForwardBody | proxy/src/lib.rs:713-714 | Behind a head that is out, a writer and a forwarder on its sink deliver the body, or leave nothing that is taken for another. |
| Messages.ResponseFramed | proxy/src/lib.rs:686-697 | A bodiless answer to HEAD, or a 304, goes out with its own fields, any other without framing, and one with a body with that of its writer. |
| Messages.DeliveredCarries | proxy/src/lib.rs:657-721 | A delivered body behind its head is a message that reads back, up to the first byte after it. |
| Messages.OnlyAsCarriesOnly | proxy/src/lib.rs:657-721 | A wire that is taken for no other body is, behind its head, taken for no other message. |
| Messages.CutHeadCarriesOnly | backend/src/writer.rs:74-135 | A head cut anywhere, or with nothing behind it, is taken for no other message. |
| Messages.ForwardRequest | proxy/src/lib.rs:1193-1227 | From head to end of body on one sink: success means that whoever reads what it was given gets the source body, trailers and the next message; short of it, wherever the head or the body failed, nobody gets another complete message; on sound endpoints a complete source succeeds if and only if it gets through. |
| Messages.ForwardResponse | proxy/src/lib.rs:657-721 | The same for a response to either kind of client; one without a body is exactly its head, or a start of it. |
| RequestTarget.ValidateOriginForm | util/src/parse.rs:190-214 | Accepts exactly origin-form, and otherwise says where and why the well-formed part ends. |
| RequestTarget.AbsoluteRecognized | proxy/src/request_target.rs:66-142 | Every target put together from the parts of an absolute-form is recognized and taken apart where it was put together. |
| RequestTarget.OriginFormMeans | util/src/parse.rs:188-214 | Origin-form byte by byte: a slash, then path and query characters and percent signs with two hexadecimal digits behind them. |
| RequestTarget.AbsoluteHasParts | proxy/src/request_target.rs:66-142 | Nothing else is recognized as one. |
| RequestTarget.Request.SetOriginFormPath | http-message/src/message.rs:438-442 | Sets the path exactly when it is origin-form, and otherwise leaves it. |
| RequestTarget.Request.Normalize | proxy/src/request_target.rs:149-183 | Any failure leaves the request unchanged; success makes it what the target asks for. |
| RequestTarget.RewrittenFields | proxy/src/request_target.rs:170-173 | Exactly one Host, the authority, and every other field as it was. |
| RequestTarget.AbsoluteNormal | proxy/src/request_target.rs:144-183 | Normalizing scheme, authority, path and query, and fragment yields the origin-form path, `/` for an empty one, no fragment, and the authority as Host. |
| RequestTarget.NormalIdempotent | proxy/src/request_target.rs:144-183 | Normalizing again changes nothing. |
| RequestTarget.PathKept | proxy/src/request_target.rs:107-136 | A target with a path is sent with that path and query. |
| RequestTarget.PathSupplied | proxy/src/request_target.rs:116-133 | One without is sent with a slash and its query. |
| RequestTarget.OtherForms | proxy/src/request_target.rs:44-89 | Paths pass, an asterisk does for OPTIONS, a bare name with or without a port is refused, and so is nothing. |
| ProxyRequest.FromRequest | proxy/src/lib.rs:1012-1091 | Takes on exactly the acceptable requests; a refused one is left as it was, for the reason given. |
| ProxyRequest.ForwardedPath | proxy/src/lib.rs:984-1003 | Every forwarded request has an absolute path for its target. |
| ProxyRequest.Refused | proxy/src/lib.rs:1026-1088 | An illegal connection option on any line, two Hosts, or none in HTTP/1.1 keep a request from being forwarded. |
| ProxyRequest.PlainRequestForwarded | proxy/src/lib.rs:1012-1091 | Any other with an absolute path is forwarded, with that path and its fields in order. |
| ProxyRequest.OneHostAtMost | proxy/src/lib.rs:1064-1082 | No request goes out with two Hosts. |
| ProxyRequest.ForwardedFields | proxy/src/lib.rs:842-853 | Nothing hop-by-hop, standing or named by the request, is forwarded, and every other value is, except that Host follows an absolute-form target. |
| ProxyRequest.ForwardedHost | proxy/src/lib.rs:990-997 | An accepted HTTP/1.1 request goes out with exactly one Host if and only if its options do not name Host. |
| ProxyRequest.HostNamedAsOption | proxy/src/lib.rs:990-997 | A request that does name it, and goes out with none. |

## Left out

- httparse is not part of this model. The size line and the field section are written from sections 7.1
  and 7.1.2 of RFC 9112: at least one hexadecimal digit and at most sixteen, CRLF after a size line, CRLF
  or a bare LF after a field line, an extension opaque up to its CR.
- tokio, wakers, `Pin`, sockets and TLS: replaced by the endpoints above. No fairness is assumed beyond the
  finite but arbitrary `patience`.
- `forward_while`: it polls `forward` and may drop it between polls, which `PollForward` allows anywhere.
- The frontend and backend newtypes and the enum unifiers: pure delegation, collapsed into one tagged
  `BodyReader` and one `BodyWriter` with a phase. The typestate structs that consume `self` become moves
  of that phase; the `Poisoned` placeholder becomes a flag, and the phase it stands for stays readable in
  specifications only.
- `usize` saturation and allocation limits in `reserve` and `advance`: lengths there are unbounded; the
  64-bit counts of the codecs are bounded and proved not to overflow.
- Exchanger.Finish: the two forwarders are driven one after the other where the code joins them; they share
  no object, so the outcome of each is the same.
- HeadWriter.MessageReadsBack: the start line is not parsed back, nor are responses without a body by status
  or method (HEAD, 1xx, 204, 304), whose body is not decided by the head alone.
- Forwarder.BodyForwarder.Finish: at chunk size zero the call may never return; `turns` bounds how many
  reads of zero bytes the caller sits through before it drops the call, which is then Pending.
- The forbidden-trailer list: a parameter, a list of names compared in any case, so every list is covered.
- Chunk extension bytes: skipped, not kept for a caller to inspect.
- Validating `push`, `merge`, builders, `Via` and `Date` insertion, status tables and `ProxyOptions`: easy,
  or dependent on the clock.
- Abort after an error: the forwarder drops the connection; `PollAbort` is proved on its own.
