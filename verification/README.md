# Verified model of the zephyr-common link layer and buffers

This Dafny project models the byte-stuffing link layer of zephyr-common as one
stack, and four smaller cores beside it, and proves what they promise:

- the software FIFO (`Ring`, `BoundedQueue`, `SwFifo`) and the overwriting ring buffer (`Window`, `CircBuffer`);
- the COBS codec and framer (`CobsBlocks`, `Cobs`), its Python twin (`PyCobs`), and the resumable COBS deframer
  (`CobsLink`, `CobsFrame`);
- SLIP framing and the resumable SLIP deframer (`SlipCodec`, `SlipLink`, `Slip`);
- what both deframers share: streams cut at arbitrary places (`ByteStream`) and runs of calls with the FIFO between
  them (`Deframing`);
- the intrusive circular list (`CList`);
- the fixed-point HSV gradient (`Gradient`);
- the RPC sequence numbers (`RpcServer`, `RpcClient`, `RpcProtocol`).

Code that updates buffers, fields or pointers in place is modelled by classes and
methods on arrays, each proved against a function on values; the properties over
all inputs, chunkings and runs are lemmas about those functions. COBS is the
encoding of Cheshire and Baker, "Consistent Overhead Byte Stuffing", IEEE/ACM
Transactions on Networking 7(2), 1999; SLIP is the PROTOCOL section of RFC 1055.

`dafny verify dfyconfig.toml` checks the whole project.

## Where the code differs from its own documentation

The model follows the code.

- `Cobs_deframer` is documented to return -1 on error; every error returns 0 (modules/Cobs/src/Cobs_frame.c:67, 90, 210).
- The COBS encoder takes a zero that arrives as the 255th count of a block as data. The round trip still holds, but
  the frame then has a zero inside: `CobsBlocks.ZeroFree` and `CobsLink.FrameDelivered` give the exact condition.
- `Cobs_framer` fails when the frame would fill the buffer exactly (modules/Cobs/src/Cobs_frame.c:45).
- The SLIP deframer needs one byte of output space more than the message (modules/slip/src/slip.c:171).
- The SLIP deframer pairs ENDs and never drops an empty frame. After a stray END or a lost one it takes every frame for
  the gap between two frames, without a fault: a frame gets through if and only if an even number of ENDs has been read
  since the last reset and a byte of output space is left over (`SlipLink.NextFrame`, `SlipLink.FrameAfterInChunks`);
  `SlipLink.UnclosedFrameLosesFrames` gives the runs that lose all frames.
- The COBS deframer pairs zeros in the same way (`CobsLink.FrameAfterInChunks`). A stray zero before a frame makes it
  decode an empty body, and the decoder then reads behind the body: `CobsLink.StrayZeroIsUndefined`. The decoder stays
  inside its input if and only if the chain of code bytes ends with it or the output is full first: `Cobs.StaysInside`.
- A second RPC request sent while one is pending, or a reply that cannot be parsed, drops the pending request without
  a mark, and `send_sync` waits forever: `RpcProtocol.EndedUnlessDropped`, `RpcProtocol.DroppedNeverEnds`. It happens
  in exactly the runs with such a step: `RpcProtocol.AllEndWithoutDrops`.
- The Python encoder raises IndexError on the empty message, and only there: `PyCobs.AllocatedSuffices`.
- CircBuffer's header speaks of item boundaries (modules/CircBuffer/src/CircBuffer.c:4-7); the code keeps and drops single
  bytes. `Window.BoundariesKept` says exactly when whole items are left, and `Window.CutsAnItem` is a write that cuts one.
- `blend` replaces the colour of the last step by the start colour before it is shown (modules/WS2812Led/src/WS2812Led.c:986-997).

## Model

| member | source | states |
|---|---|---|
| Ring.PutAppends | modules/SwFifo/src/SwFifo.c:81-102 | a wrap-split copy into free slots followed by the index macro appends to the stored bytes, wherever the indices stand |
| Ring.PutFills | modules/CircBuffer/src/CircBuffer.c:62-87 | a copy of depth + 1 bytes over any contents leaves the last depth of them stored |
| Ring.AdvanceStaysInRing | modules/CircBuffer/src/CircBuffer.c:16-23 | the one conditional subtraction of the index macro keeps every index in the ring if and only if at most depth + 1 bytes are written |
| Ring.AdvanceDrops | modules/SwFifo/src/SwFifo.c:24-30 | advancing the read index drops exactly the oldest bytes |
| Ring.TakeIsPrefix | modules/SwFifo/src/SwFifo.c:108-130 | a wrap-split copy out yields the oldest bytes in order |
| BoundedQueue.RunConserves | modules/SwFifo/src/SwFifo.c:138-302 | over every run of write, peek, ack, read and flush, bytes accepted since the last flush are the bytes removed followed by the bytes stored, and never more than depth are stored |
| BoundedQueue.WhatGoesInComesOut | modules/SwFifo/src/SwFifo.c:190-302 | the same in terms of return values, for every run of writes, reads, peeks and acks: what was stored and the accepted writes make one stream, every read and peek returns the part of it that follows the bytes taken before, and the rest of it is what is stored |
| SwFifo.Fifo.constructor | modules/SwFifo/src/SwFifo.c:350-391 | a fresh, valid, empty FIFO of the given depth |
| SwFifo.Fifo.Count | modules/SwFifo/src/SwFifo.c:36-39 | the count macro is the number of stored bytes, wrapped or not |
| SwFifo.Fifo.Avail | modules/SwFifo/src/SwFifo.c:41-42 | the avail macro is the depth less the number of stored bytes |
| SwFifo.Fifo.IsEmpty | modules/SwFifo/src/SwFifo.c:44-45 | equal indices mean that nothing is stored |
| SwFifo.Fifo.IsFull | modules/SwFifo/src/SwFifo.c:47-48 | full means depth bytes stored |
| SwFifo.Fifo.Flush | modules/SwFifo/src/SwFifo.c:138-145 | nothing is stored afterwards |
| SwFifo.Fifo.Write | modules/SwFifo/src/SwFifo.c:190-223 | all or nothing: appends and returns 0 exactly when there is room, else returns -1 and keeps the contents |
| SwFifo.Fifo.Peek | modules/SwFifo/src/SwFifo.c:235-252 | copies the first min(num, count) bytes to the target, touches nothing else, and removes nothing |
| SwFifo.Fifo.Ack | modules/SwFifo/src/SwFifo.c:262-268 | drops the oldest num bytes when there are that many; with more, up to the depth, the read index passes the write index and depth + 1 - num bytes are added to the count |
| SwFifo.Fifo.Read | modules/SwFifo/src/SwFifo.c:280-302 | copies out and removes the first min(num, count) bytes |
| SwFifo.Replay | modules/SwFifo/src/SwFifo.c:138-302 | every return value and every byte copied out, over any run of calls on the real FIFO, is that of the bounded queue |
| Window.WriteKeepsNewest | modules/CircBuffer/src/CircBuffer.c:141-165 | moving the window's start by the overflow is the same as keeping the newest depth bytes of contents and data |
| Window.WritesKeepNewest | modules/CircBuffer/src/CircBuffer.c:141-165 | after any run of writes the contents are the last depth bytes of all that was written |
| Window.BoundariesKept | modules/CircBuffer/src/CircBuffer.c:4-7 | after any writes the contents are whole items, the newest ones, if and only if all of them fit or some of the newest fill the buffer to the byte |
| Window.CutsAnItem | modules/CircBuffer/src/CircBuffer.c:4-7 | two writes of three and two bytes to a buffer of four leave part of the first item and no whole items |
| Window.ReadsInOrder | modules/CircBuffer/src/CircBuffer.c:141-226 | over every run between flushes, the reads are successive slices of the log of writes and the contents are its suffix behind them: no byte twice, none out of order, none invented |
| CircBuffer.Buffer.constructor | modules/CircBuffer/src/CircBuffer.c:261-296 | a fresh, valid, empty buffer |
| CircBuffer.Buffer.Count | modules/CircBuffer/src/CircBuffer.c:38-41 | the count macro is the number of stored bytes |
| CircBuffer.Buffer.Flush | modules/CircBuffer/src/CircBuffer.c:123-130 | nothing is stored afterwards |
| CircBuffer.Buffer.Write | modules/CircBuffer/src/CircBuffer.c:141-165 | the contents become the last min(depth, count + size) bytes of old contents followed by data, for every size up to depth + 1 |
| CircBuffer.Buffer.Read | modules/CircBuffer/src/CircBuffer.c:193-226 | copies out and removes min(req_size, count) bytes from the oldest end |
| CircBuffer.Replay | modules/CircBuffer/src/CircBuffer.c:123-226 | over any run of calls the real buffer holds and hands out what the window on the log of writes holds |
| CobsBlocks.ParseInvertsSerialize | modules/Cobs/src/Cobs.c:110-135 | walking the chain of code bytes recovers every list of blocks, so every COBS encoder's output is well formed and readable |
| CobsBlocks.RoundTrip | modules/Cobs/src/Cobs.c:34-138 | decoding the encoding of any byte string gives it back, empty, longer than 254, or with a zero as the 255th count |
| CobsBlocks.TextbookRoundTrip | modules/Cobs/src/Cobs.c:97-138 | the decoder also inverts the encoder of the 1999 paper, whose cut into blocks is a different one |
| CobsBlocks.EncodeShort | modules/Cobs/src/Cobs.c:46-84 | at most 254 bytes without a zero are encoded as their length plus one and the bytes themselves |
| CobsBlocks.EncodeToZero | modules/Cobs/src/Cobs.c:51-70 | a zero behind fewer than 254 other bytes: their length plus one, the bytes, and the encoding of what follows the zero |
| CobsBlocks.EncodeFull | modules/Cobs/src/Cobs.c:51-66 | 254 bytes without a zero before a byte that is none: 255, the bytes, and the encoding of what follows them |
| CobsBlocks.EncodeFullThenZero | modules/Cobs/src/Cobs.c:51-66 | 254 bytes without a zero before a zero: 255, the bytes, and the encoding that any other byte in place of the zero would have, with a zero as its first data byte |
| CobsBlocks.DecodeBlock | modules/Cobs/src/Cobs.c:110-125 | a code byte c and the c - 1 bytes behind it, none for c = 0, decode to these bytes |
| CobsBlocks.DecodeBefore | modules/Cobs/src/Cobs.c:110-135 | the same before other blocks: the bytes, a zero unless c is 255, and the meaning of the rest; the chain is whole exactly when the rest of it is |
| CobsBlocks.DecodeCutOff | modules/Cobs/src/Cobs.c:110-125 | a chain without a code byte, or with one that announces more bytes than there are, is not whole |
| CobsBlocks.TextbookZeroFree | modules/Cobs/src/Cobs.c:51-66 | the paper's encoder never emits a zero, unlike the code's |
| CobsBlocks.ZeroFree | modules/Cobs/src/Cobs.c:46-84 | the encoding contains a zero if and only if some zero of the message ends a zero-free run of 254, 508, ... bytes |
| CobsBlocks.EncodedLength | modules/Cobs/src/Cobs.c:46-84 | the encoding has n + 1 + splits bytes, at most n + max(1, ceil(n / 254)) |
| CobsBlocks.SerializedLength | modules/Cobs/src/Cobs.c:97-138 | for every block list, encoded length is decoded length plus one plus the number of full blocks before another |
| Cobs.EncodeByte | modules/Cobs/src/Cobs.c:48-78 | one turn of the loop: the finished bytes, the slot left open for the code byte, and the open block stand in the buffer as specified and nothing else is touched |
| Cobs.CobsEncode | modules/Cobs/src/Cobs.c:34-85 | writes exactly the encoding at the given offset and nothing outside it; fails exactly when the limit is the index of a data byte, and then writes nothing outside offset and limit; memory is asked for only as far as the call writes |
| Cobs.DecodedStep | modules/Cobs/src/Cobs.c:112-134 | one turn of the decoder's loop: the block's data, a zero unless it is full or last, then the meaning of the rest |
| Cobs.StaysInside | modules/Cobs/src/Cobs.c:110-135 | followed byte by byte, decoding never reads behind its input if and only if the chain of code bytes ends with the input or the output is full before the input is used up |
| Cobs.EmittedBlocks | modules/Cobs/src/Cobs.c:110-135 | what the decoder yields up to the end of a chain that is cut off: the bytes there are, and before that whole blocks as usual |
| Cobs.CobsDecode | modules/Cobs/src/Cobs.c:97-138 | on every input that it does not read past: writes what the chain yields as far as it fits, leaves the rest of the buffer alone, and returns the length of the message, or -1 exactly when the chain misses its end or the message is longer than the output |
| Cobs.CobsFramer | modules/Cobs/src/Cobs_frame.c:35-53 | writes zero, encoding, zero, and fails exactly when fewer than three bytes of the limit are left beside the encoding; then the buffer holds zero and encoding, or, when the encoder failed, nothing outside its limit has changed |
| Cobs.DataSlots | modules/Cobs/src/Cobs.c:62-77 | the indices that make the encoder fail are those inside the encoding at which no code byte stands |
| Cobs.FrameShort | modules/Cobs/src/Cobs_frame.c:42-52 | the frame of at most 254 bytes without a zero, byte by byte |
| Cobs.FrameDelimiters | modules/Cobs/src/Cobs_frame.c:42-52 | first and last byte are the frame's only zeros if and only if the message has no such run |
| PyCobs.AllocatedSuffices | tools/protorpc/protorpc/connection/cobs.py:16-17 | the preallocated list, with its round half to even, is long enough if and only if the message is not empty |
| PyCobs.PyEncode | tools/protorpc/protorpc/connection/cobs.py:13-47 | the same encoding as the C end, and IndexError exactly on the empty message |
| PyCobs.PyDecode | tools/protorpc/protorpc/connection/cobs.py:50-86 | on every byte string: the message of a well-formed chain, and IndexError on every other input |
| ByteStream.StreamConcat | modules/Cobs/src/Cobs_frame.c:96-215 | reading a stream in two parts gives the messages and the state of reading it whole |
| ByteStream.ScanResume | modules/slip/src/slip.c:156-227 | a call that stops inside a frame can be resumed at that byte with the same outcome |
| ByteStream.FeedAccounts | modules/Cobs/src/Cobs_frame.c:83-205 | over every run of calls on a stream without faults, the bytes fed are the bytes read followed by the FIFO, and the bytes read fix messages and state |
| ByteStream.ChunkingDoesNotMatter | modules/Cobs/src/Cobs_frame.c:83-205 | any two ways of cutting a stream into calls, followed by draining calls, hand out the same messages in the same order |
| Deframing.MessageInChunks | modules/slip/src/slip.c:102-227 | for every deframer that keeps its FIFO between calls: bytes that end with one message, in any chunks that fit, are returned as that message by the last call and by no other, and leave it idle and empty |
| Deframing.MessagesInChunks | modules/Cobs/src/Cobs_frame.c:83-205 | for every such deframer: frames with junk between them, in any chunks that fit, and enough draining calls hand out the non-empty messages in order |
| Deframing.RunReadsStream | modules/slip/src/slip.c:102-227 | for every such deframer: calls on chunks that fit, with enough draining calls, meet no fault, hand out these messages and end in this state if and only if the whole stream read at once does |
| CobsLink.FrameDelivered | modules/Cobs/src/Cobs_frame.c:96-215 | a frame is received as its message with nothing left over if and only if the encoding is zero-free and shorter than the work buffer and the message fits the output |
| CobsLink.FrameInChunks | modules/Cobs/src/Cobs_frame.c:69-219 | for every deliverable message and every split of its frame into chunks that fit the FIFO, all calls return 0 but the last, which returns the message and leaves the deframer idle and its FIFO empty |
| CobsLink.FramesInChunks | modules/Cobs/src/Cobs_frame.c:83-205 | several frames with junk between them, cut anywhere: positive returns and draining calls give exactly the non-empty messages in order |
| CobsLink.FrameAfterInChunks | modules/Cobs/src/Cobs_frame.c:112-205 | a frame of a message without a full run, behind any bytes without a fault and cut anywhere, gets through if and only if an even number of zeros was read before it and the message is deliverable |
| CobsLink.StrayZeroIsUndefined | modules/Cobs/src/Cobs_frame.c:112-205 | a stray zero before a frame sends the decoder an empty body, whatever the chunks |
| CobsLink.Recovery | modules/Cobs/src/Cobs_frame.c:84-91 | from every state, after a FIFO or output overflow the next frame is delivered intact in any chunks, and no call of that run reaches the decoder with a malformed body |
| CobsLink.RecoveryAfterWorkOverflow | modules/Cobs/src/Cobs_frame.c:160-210 | after a work buffer overflow one more call is thrown away, and the frame after that is delivered intact, with the decoder always defined |
| CobsLink.WorkOverflowKeepsFifo | modules/Cobs/src/Cobs_frame.c:160-192 | a call that overflows the work buffer returns 0 and leaves the byte it stopped at and all behind it in the FIFO |
| CobsLink.OutputOverflowFlushes | modules/Cobs/src/Cobs_frame.c:194-210 | a call on a frame whose message is too long for the output returns 0 and leaves an idle deframer and an empty FIFO |
| CobsFrame.Deframer.constructor | modules/Cobs/src/Cobs_frame.c:230-253 | idle with an empty FIFO |
| CobsFrame.Deframer.FindSof | modules/Cobs/src/Cobs_frame.c:112-142 | drops bytes up to the framing byte without changing what the rest of the stream means |
| CobsFrame.Deframer.FindEof | modules/Cobs/src/Cobs_frame.c:144-192 | fills the work buffer up to the framing byte, or stops as the receiver does |
| CobsFrame.Deframer.Decode | modules/Cobs/src/Cobs_frame.c:194-205 | the decoder on the work buffer: a message and idle, or the error state when the output is full |
| CobsFrame.Deframer.RunStates | modules/Cobs/src/Cobs_frame.c:96-215 | from any state between calls, the state machine ends as the receiver does on what is in the FIFO, or throws the FIFO away when the call before failed |
| CobsFrame.Deframer.CobsDeframer | modules/Cobs/src/Cobs_frame.c:69-219 | state, FIFO, work buffer, return value and output of a call are those of the receiver on FIFO and chunk |
| CobsFrame.ReceiveFrames | modules/Cobs/src/Cobs_frame.c:69-219 | on real buffers: frames with junk between them in any pieces, and a receive loop over them and draining calls returns all messages in order and leaves the deframer idle and empty |
| CobsFrame.ReceiveAfterFault | modules/Cobs/src/Cobs_frame.c:69-219 | on real buffers, from every state: a call that overflows the FIFO or the output, then a frame in any pieces: 0 from every call but the last, and its message comes out |
| CobsFrame.ReceiveAfterWorkOverflow | modules/Cobs/src/Cobs_frame.c:69-219 | the same after a call that overflows the work buffer and one more call, whatever that brings |
| CobsFrame.FrameAndDeframe | modules/Cobs/src/Cobs_frame.c:35-219 | both ends together on real buffers: any deliverable message, any chunk sizes, 0 from every call but the last, then the message |
| SlipCodec.FrameGrammar | modules/slip/src/slip.c:43-73 | n + 2 + (number of END and ESC in the message) bytes, END only first and last, every ESC followed by one of its codes |
| SlipCodec.EscapeEnd | modules/slip/src/slip.c:59-62 | a byte C0 anywhere in a message goes out as DB DC |
| SlipCodec.EscapeEsc | modules/slip/src/slip.c:63-66 | a byte DB anywhere in a message goes out as DB DD |
| SlipCodec.FramePlain | modules/slip/src/slip.c:43-73 | a message without these bytes goes out as it is, between two bytes C0 |
| SlipCodec.BadEscape | modules/slip/src/slip.c:208-215 | behind any part of a message, DB before a byte other than C0, DB, DC and DD stops the receiver at that byte |
| SlipCodec.RepeatedEscape | modules/slip/src/slip.c:190-196 | behind any part of a message, DB DB is read as one DB |
| SlipCodec.EscapeBeforeEnd | modules/slip/src/slip.c:184-189 | behind any message, DB C0 ends the frame and the message is received without the DB |
| SlipCodec.FullOutput | modules/slip/src/slip.c:170-178 | a frame whose message leaves no byte of output space stops the receiver with exactly the bytes that fit |
| SlipCodec.FrameInjective | modules/slip/src/slip.c:36-74 | two messages never share a frame |
| SlipCodec.UnescapeEscape | modules/slip/src/slip.c:57-69 | unescaping inverts escaping |
| SlipCodec.FrameDelivered | modules/slip/src/slip.c:111-227 | a frame is received as its message if and only if one byte of output space is left over |
| SlipCodec.StatePairing | modules/slip/src/slip.c:117-227 | on every fault-free stream: inside a frame exactly after an odd number of ENDs, with output and escape flag unescaping the bytes after the last END |
| SlipCodec.FrameAfter | modules/slip/src/slip.c:117-227 | behind any bytes without a fault a frame is read as its message if and only if they hold an even number of ENDs and a byte of output space is left over |
| SlipLink.FrameInChunks | modules/slip/src/slip.c:90-239 | for every message shorter than buf_out_max and every split of its frame, inside escape pairs too, all calls return 0 but the last, which returns the message |
| SlipLink.FramesInChunks | modules/slip/src/slip.c:102-227 | several frames with junk between them, cut anywhere: positive returns and draining calls give exactly the non-empty messages in order |
| SlipLink.Recovery | modules/slip/src/slip.c:102-215 | from every state, after a FIFO overflow, an output overflow or a bad escape the next frame is delivered intact in any chunks |
| SlipLink.BadEscapeIsInvalid | modules/slip/src/slip.c:208-215 | a call that meets a bad escape behind any part of a message returns -EINVAL and leaves an idle deframer and an empty FIFO |
| SlipLink.FullOutputIsOverflow | modules/slip/src/slip.c:170-178 | a call on a frame whose message leaves no byte of output space returns -EOVERFLOW and leaves the same |
| SlipLink.FullFifoIsSilent | modules/slip/src/slip.c:102-109 | a call whose chunk does not fit the FIFO returns 0 and leaves the same, in every state |
| SlipLink.FrameAfterInChunks | modules/slip/src/slip.c:102-227 | the same for runs of calls: behind any bytes without a fault, cut anywhere, the frame's message is handed out behind the earlier ones if and only if that number is even and a byte of output space is left over |
| SlipLink.NextFrame | modules/slip/src/slip.c:90-239 | after every run of calls, faulty ones included, that leaves the FIFO empty: the next frame is delivered in any chunks if and only if an even number of ENDs was read since the last reset and a byte of output space is left over |
| SlipLink.UnclosedFrameLosesFrames | modules/slip/src/slip.c:126-188 | a stray END, or a frame that lost its closing END, before any number of frames back to back, in any chunks that fit: no fault, and no call returns any message but the cut-off one |
| SlipLink.DelimiterPairing | modules/slip/src/slip.c:117-227 | over every run of calls, faulty ones included, the pairing holds with the bytes read since the last reset |
| Slip.SlipFramer | modules/slip/src/slip.c:36-74 | overflows exactly when the escaping of some prefix of the message fills the limit to the byte, and then the buffer holds the first bytes of the frame up to the limit; otherwise exactly the frame; nothing else is touched |
| Slip.PlainFills | modules/slip/src/slip.c:46-56 | without a byte C0 or DB in the message the framer fails exactly for limits from 1 to the length of the message |
| Slip.Deframer.constructor | modules/slip/src/slip.c:249-269 | idle with an empty FIFO of twice the MTU |
| Slip.Deframer.FindSof | modules/slip/src/slip.c:126-154 | drops bytes up to END without changing what the rest of the stream means |
| Slip.Deframer.Collect | modules/slip/src/slip.c:190-219 | one byte inside a frame, escaped or not, takes the receiver's step |
| Slip.Deframer.FindEof | modules/slip/src/slip.c:156-227 | collects a body until END, a fault or an empty FIFO, as the receiver does |
| Slip.Deframer.SlipDeframer | modules/slip/src/slip.c:90-239 | state, FIFO, index, escape flag, output buffer and return value of a call are those of the receiver on FIFO and chunk |
| Slip.ReceiveFrames | modules/slip/src/slip.c:90-239 | on real buffers: frames with junk between them in any pieces, and a receive loop over them and draining calls returns all messages in order and leaves the FIFO empty |
| Slip.ReceiveAfterFault | modules/slip/src/slip.c:90-239 | on real buffers, from every state: a call that meets any fault, then a frame in any pieces: 0 from every later call but the last, and its message comes out |
| Slip.FrameAndDeframe | tests/slip/src/main.c:58-136 | the loop of the deframer test for all messages and all chunk sizes: 0 from every call but the last, then the original message |
| CList.PrevIsBefore | modules/CList/include/CList.h:26-29 | on a ring, next and prev are inverse all the way round |
| CList.Init | modules/CList/include/CList.h:89-94 | a node linked to itself is a ring of one |
| CList.InsertBefore | modules/CList/include/CList.h:105-114 | the ring with the node put in before the target, all other order kept |
| CList.InsertAfter | modules/CList/include/CList.h:124-133 | the ring with the node put in behind the target, all other order kept |
| CList.Remove | modules/CList/include/CList.h:143-151 | the ring without the target, which keeps its own links |
| CList.InsertRemove | modules/CList/include/CList.h:105-151 | linking a node in on either side of any node and removing it again gives the old ring back |
| CList.Prepend | modules/CList/include/CList.h:161-162 | the node becomes the first element |
| CList.Append | modules/CList/include/CList.h:172-173 | the node becomes the last element |
| CList.IsEmpty | modules/CList/include/CList.h:38 | the head follows itself exactly when there are no elements |
| CList.Head | modules/CList/include/CList.h:181-182 | the first element, or null when there is none |
| CList.Tail | modules/CList/include/CList.h:190-191 | the last element, or null when there is none |
| CList.Iter | modules/CList/include/CList.h:44-45 | terminates and visits the elements in order |
| CList.IterSafe | modules/CList/include/CList.h:54-57 | visits each original element once, in order, although the body unlinks any of them, and leaves a ring of the others |
| CList.KeepAppend | modules/CList/include/CList.h:54-57 | what stays is decided node by node, and the others keep their order |
| CList.FlushAll | modules/CList/include/CList.h:61-67 | terminates and leaves head and every former element linked to itself, although it destroys links while it walks |
| Gradient.ChannelBounds | modules/WS2812Led/src/WS2812Led.c:297-352 | saturation and value never wrap and stay between start and end after every k <= n steps |
| Gradient.ChannelError | modules/WS2812Led/src/WS2812Led.c:297-352 | after n steps they are within 2 (n - 1) units of 1/256 of the end |
| Gradient.LastChannelError | modules/WS2812Led/src/WS2812Led.c:541-549 | at the last step shown, n - 1, their accumulators miss the end by at most 2 (n - 1) units and one truncated step more, and the bytes shown by up to 255 units more than that from below |
| Gradient.ColoursInOrder | modules/WS2812Led/src/WS2812Led.c:541-549 | shown saturation and value lie between start and end and move toward the end only |
| Gradient.ShownBytes | modules/WS2812Led/src/WS2812Led.c:541-546 | hue, saturation and value shown are the whole parts of their accumulators, at every step of every gradient |
| Gradient.HueInOrder | modules/WS2812Led/src/WS2812Led.c:541-549 | the hue shown moves one way round the circle, the way of the direction: how far it is from the start never shrinks and never exceeds the way to the end |
| Gradient.HueError | modules/WS2812Led/src/WS2812Led.c:300-342 | modulo 2^16 the hue ends within 2 (n - 1) units of the end hue, in every direction |
| Gradient.LastHueError | modules/WS2812Led/src/WS2812Led.c:541-549 | at the last step shown, n - 1, the hue misses the end hue by at most 2 (n - 1) units and one truncated step more, modulo 2^16 |
| Gradient.LastHueShown | modules/WS2812Led/src/WS2812Led.c:541-549 | the last hue shown misses the end hue, modulo 2^16, by at most the bound of its accumulator, and 255 units more from below |
| Gradient.HueDistRange | modules/WS2812Led/src/WS2812Led.c:300-332 | shortest goes at most 128 hue units, longest at least 128 unless the hues are equal, forward never goes back and backward never forward |
| Gradient.HueTravel | modules/WS2812Led/src/WS2812Led.c:300-342 | at every step the hue is between its start and its full travel, never behind it or past it |
| Gradient.AccumStep | modules/WS2812Led/src/WS2812Led.c:547-549 | adding the wrapped delta to the wrapped accumulator is one exact step modulo 2^16 |
| Gradient.Iter.Init | modules/WS2812Led/src/WS2812Led.c:284-353 | start, deltas and accumulators of the gradient; every distance fits 16 signed bits |
| Gradient.Iter.Advance | modules/WS2812Led/src/WS2812Led.c:973-975 | one step further along the same gradient |
| Gradient.Segment.FillGradient | modules/WS2812Led/src/WS2812Led.c:528-564 | pixel i shows the gradient after i steps; the other pixels stay |
| Gradient.Segment.BlendInit | modules/WS2812Led/src/WS2812Led.c:957-967 | every pixel shows step 0, the start colour |
| Gradient.Segment.Blend | modules/WS2812Led/src/WS2812Led.c:969-998 | every pixel shows the next step when the timer has expired, step 0 again after the last |
| Gradient.Segment.BlendRun | modules/WS2812Led/src/WS2812Led.c:944-999 | over any run, restarts included, the pixels show the step given by the number of expiries modulo n |
| RpcServer.CallsetLookup | modules/ProtoRpc/src/ProtoRpc.c:19-40 | not NULL exactly when there is an entry with the id, none before it has the id, and it has a resolver |
| RpcServer.ResolvesFirst | modules/ProtoRpc/src/ProtoRpc.c:29-37 | the first entry decides if it has the id, the others if not, and no entry means NULL |
| RpcServer.ProtoRpcExec | modules/ProtoRpc/src/ProtoRpc.c:79-214 | a request that wants a reply gets one whenever the header fits its buffer, one that wants none gets one exactly if its handler is not reached, and every reply has the request's sequence number and the status of its path |
| RpcServer.AnswerOnFields | modules/ProtoRpc/src/ProtoRpc.c:79-214 | path by path: the whole reply header, or nothing; a header that does not fit is sent torn behind a handler and not at all elsewhere |
| RpcClient.Connection.GetNextSeqn | tools/protorpc/protorpc/connection/__init__.py:52-56 | the counter goes up by one and is returned |
| RpcClient.Connection.Send | tools/protorpc/protorpc/api.py:162-190 | the request gets the next number, which goes into its header, and no other request changes |
| RpcClient.Connection.AddPending | tools/protorpc/protorpc/connection/__init__.py:81-84 | this request, and no other, awaits its reply |
| RpcClient.Connection.RunOnce | tools/protorpc/protorpc/connection/__init__.py:101-142 | one turn of the loop, field by field: a matching reply that parses answers the pending request, an exception drops it, and otherwise it times out exactly if its time is over; nothing else changes |
| RpcProtocol.NoStaleAnswersEver | tools/protorpc/protorpc/connection/__init__.py:101-140 | in every run with delayed, repeated, reordered or lost messages an answered request was answered by a reply produced for it, and it did not also time out |
| RpcProtocol.TimeoutEnds | tools/protorpc/protorpc/connection/__init__.py:136-140 | after any run a timeout leaves nothing pending and ends the request that was, and no other |
| RpcProtocol.AnswerEnds | tools/protorpc/protorpc/connection/__init__.py:115-122 | after any run a reply to the pending request that parses answers it, and no other |
| RpcProtocol.ServeAnswers | modules/ProtoRpc/src/ProtoRpc.c:141-213 | serving a call that wants a reply, with a header that fits, adds exactly a reply for this call, with the status of the handler if that is reached |
| RpcProtocol.CallCompletes | tools/protorpc/protorpc/api.py:162-209 | from every reachable world a request can be sent, queued, served and answered, whatever is still on its way |
| RpcProtocol.EndedUnlessDropped | tools/protorpc/protorpc/connection/__init__.py:81-140 | in every run a queued request that is no longer pending was answered or timed out if and only if it was not dropped, that is, not replaced while pending and not pending when parsing raised |
| RpcProtocol.AllEndWithoutDrops | tools/protorpc/protorpc/connection/__init__.py:81-140 | after a run every queued request is pending, answered or timed out if and only if no step of the run queued a request while one was pending or received bytes that raise |
| RpcProtocol.DroppedNeverEnds | tools/protorpc/protorpc/api.py:197-209 | a dropped request is neither answered nor timed out after any continuation of the run |
| RpcProtocol.SecondRequestDropsFirst | tools/protorpc/protorpc/connection/__init__.py:81-84 | the shortest run that drops a request: two sent in a row |
| RpcProtocol.RepliesFindTheirRequest | tools/protorpc/protorpc/connection/__init__.py:115-127 | in every run a reply that parses is taken if and only if it was produced for the pending request |
| RpcProtocol.SeqnsIncrease | tools/protorpc/protorpc/connection/__init__.py:52-56 | sequence numbers strictly increase in sending order |

## Left out

- Cobs.CobsDecode: requires an input that it does not read past, which `Cobs.StaysInside` characterizes; what stands behind the input is not modelled.
- CobsFrame.Deframer.CobsDeframer: requires that no call makes the decoder read behind the body, for the same reason; the requirement is stated on the stream (`CobsLink.Defined`).
- CobsLink.FrameDelivered: for a message that is not deliverable it says that the frame is not received as that message; what the C decoder does there may be outside the model, because the body can be malformed.
- Cobs.CobsEncode: requires the memory that the call writes, which is the limit when it fails and the whole encoding otherwise, because the code's own capacity check does not cover code bytes.
- Cobs.CobsFramer: requires the same behind a leading delimiter, because its own check comes after the encoder has written.
- Slip.SlipFramer: requires the memory that the call writes, which is the limit when it fails and the whole frame otherwise, because the code looks at its limit once per input byte only.
- Slip.Deframer.SlipDeframer: takes `buf_out_max` up to 65535, the range of the 16-bit index, and the same or a larger output buffer while a frame is being received.
- SwFifo.Fifo.Ack: for more than the depth it gives the new read index only, which can lie outside the memory.
- SwFifo.Fifo.Write: items are one byte long, as in both users; with larger items the wrapped copies offset the data by items instead of bytes.
- SwFifo.Fifo.constructor: depth is at most 2^31 - 1, so that no 32-bit index sum wraps; both users stay below 2^17.
- CircBuffer.Buffer.constructor: depth is at most 2^30 - 1, so that no signed index sum overflows.
- CircBuffer.Buffer.Write: takes at most depth + 1 bytes; `Ring.AdvanceStaysInRing` says why no more. Calls are atomic: the code reads the free space before it takes the lock.
- PyCobs.AllocatedSuffices: exact arithmetic in place of Python floats.
- Gradient.Segment.FillGradient: fewer than 65536 steps, the range of its 16-bit step count; the model has no segment mode field.
- RpcProtocol.NoStaleAnswersEver: sequence numbers are unbounded as in Python; the 32-bit header field is not modelled. Each turn of the receive loop is atomic.
- RpcClient.Connection.Send: a request object is sent once; sending it again would give it a new number in place of its old one.
- RpcServer.ProtoRpcExec: protobuf unpacking, the resolver and the handler are parameters; payloads and the callset info of a query are not modelled. How much of a torn reply goes out is decided by nanopb, which is not part of this model; on the client it is bytes whose header does not parse.
- Faults inside a stream and the chunking: a fault flushes what happens to be in the FIFO, so which bytes are lost depends on the chunks; only what follows a fault is proved.
- The Python Deframer, which drops a partial frame when its queue runs empty and so depends on the chunks.
- Buffer lengths of 2^31 and more, and overlapping input and output buffers.
- Logging, malloc failure, mutexes, threads, timers and random numbers; chunk sizes and timer tests are parameters.
- Sockets, WiFi, MQTT, settings, the UART driver, code generation, and all LED effects but the gradient.
