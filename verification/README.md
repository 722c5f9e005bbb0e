# ShipNet, modelled and proved in Dafny

This project models the part of ShipNet that every byte of a connection passes through: the segmented byte
buffer, the typed fields written to it, the frames cut out of it, the pipes between buffers, the drain into the
socket, and beside them the tables that number packets by protocol version and the task queue of an event loop.

Each layer has a value-level description of what the code does, written branch by branch, theorems about that
description, and classes or methods in the code's own imperative form that are proved to do exactly what it says.

| module | what it is |
|---|---|
| `Words` | machine words, outcomes, bitwise or |
| `ChunkedQueue`, `QueueTheorems` | the value of a segmented buffer, its operations, and what whole runs of them keep |
| `ByteBuffers` | `ByteBufferImpl` on real arrays, proved against `ChunkedQueue` |
| `VarInts`, `Codec` | variable-length numbers, typed fields, schemas |
| `ByteCounters`, `Schemas` | messages: their size, writing them, and reading them back over chunks |
| `Draining`, `ReadWriteClosers` | writing a segmented buffer to a kernel that takes part of each request |
| `Framing`, `KeepingReaders` | length-prefixed frames in a stream cut anywhere, by the source's reader and by a repaired one |
| `Pipes`, `FramedPipes` | pipes, packet pipes and pipelines |
| `Calls`, `Sessions` | runs of one call per page, without pipes and through pipelines of any length |
| `Flushes`, `SharedBuffers` | sessions of packets flushed one by one through the writer buffer, and the buffer all packets start in |
| `Connections` | a connection's incoming and outgoing passes |
| `Registries`, `VersionedRegistries` | packet ids and ordinals, for each protocol version |
| `EventLoops` | immediate and delayed tasks |

The code is modelled as written, except in `KeepingReaders`, which says so. Where it differs from what it is
evidently for, the model keeps the code, and a theorem says exactly, for every input, when the code still does
its job:

| code as written | exact condition | a failing input |
|---|---|---|
| `SkipReadBytes` assigns the reader offset instead of advancing it, and refreshes eagerly | `QueueTheorems.SkipExact` | |
| `SkipWriteBytes` takes whole capacities off and assigns the writer offset | `QueueTheorems.SkipWriteExact` | |
| an empty `ReadBytes` may drop the only chunk | `QueueTheorems.EmptyReadExact` | `QueueTheorems.EmptyReadRuins` |
| `ResetWriterIndex` looks at one chunk only | `QueueTheorems.ResetWriterExact`, `ResetBothExact`; over a run of packets `SharedBuffers.SharedStartsExact` | `SharedBuffers.StaleBytesComeFirst` |
| `WriteBytesAndDelete` swaps a chunk in without counting it | `ByteBuffers.ByteBufferImpl.WriteBytesAndDelete` | |
| the drain skips with `SkipReadBytes` | `Draining.DrainExact`, `WholeWritesExact`; over a session of flushes `Flushes.SessionOrderExact`, `PlainSessionExact` | `Draining.PartialWritesLoseOrder`, `Flushes.ThirdFlushGoesWrong` |
| `ReadUUIDIntArray` does not shift its first word | `Codec.UUIDIntsExact` | |
| `ReadString` builds a string without its length | `Codec.CStringExact` | |
| `ReadByteArray` returns a buffer in which nothing is readable | `ByteBuffers.ByteBufferImpl.ReadByteArray`, `Codec.FieldRoundTrip` | |
| a frame reader loses a length prefix that arrives in two pieces | `Framing.ChunkingExact`, `Calls.RunCallsExact` | `Framing.LostPrefix` |
| frame writer and packet reader compare the length with a count taken before the prefix was read | `Pipes.ShortWriteExact`, `Calls.CallExact`, `RunCallsExact` | `Pipes.StaleCount` |
| the constructor from a list leaves the next id at 0, and padding answers 0 | `Registries.FromListForgetsCount`, `OrdinalByIDExact` | `Registries.ListThenRegister` |
| the first key of a version table is not skipped, so ranges count from 1 | `VersionedRegistries.VersionedRegistry.constructor` | |
| due times are kept in 32 bits | `EventLoops.DueExact` | |

## Model

| member | source | states |
|---|---|---|
| ChunkedQueue.Accounting | ShipNet/protocol/ByteBuffer.cpp:339-345 | the buffer is a queue exactly when readable count plus reader offset equals the full chunks before the last plus the writer offset |
| ChunkedQueue.PutAllAppends | ShipNet/protocol/ByteBuffer.cpp:370-374 | byte-wise writing keeps a queue and appends exactly its input, however many chunks it crosses, at any capacity |
| ChunkedQueue.PutBulkAppends | ShipNet/protocol/ByteBuffer.cpp:376-402 | bulk writing appends exactly its input; an empty write opens a chunk but queues nothing |
| ChunkedQueue.PutBulkFlat | ShipNet/protocol/ByteBuffer.cpp:376-402 | writing to a buffer whose reader has lost its place still puts its input behind all bytes in the chunks, and moves nothing else |
| ChunkedQueue.DropByteKeepsQueue | ShipNet/protocol/ByteBuffer.cpp:364-368 | with a byte readable, the byte at the refreshed reader is the front of the queue and reading removes just it; the last chunk is never popped |
| ChunkedQueue.DropAllRemoves | ShipNet/protocol/ByteBuffer.cpp:364-368 | any number of single-byte reads removes exactly that many front bytes and keeps a queue |
| ChunkedQueue.BulkReadStep | ShipNet/protocol/ByteBuffer.cpp:419-450 | each chunk copied by a bulk read holds the next bytes of the queue, passing it is reading them one by one, and a chunk used up early has a successor |
| ChunkedQueue.SkipReadStaysCovered | ShipNet/protocol/ByteBuffer.cpp:310-325 | even a skip that loses its place never pops beyond the last chunk inside its loop and leaves the readable bytes inside the chunks |
| QueueTheorems.SkipExact | ShipNet/protocol/ByteBuffer.cpp:310-325 | skipping `count` readable bytes leaves a queue if and only if the reader was at a chunk start or the count crosses its chunk, and the skip does not empty a buffer whose last chunk is full; then it equals reading `count` bytes and discarding them |
| QueueTheorems.SkipWriteExact | ShipNet/protocol/ByteBuffer.cpp:327-337 | a forward skip leaves a queue if and only if the writer was at a chunk start; then what was queued still comes first |
| QueueTheorems.EmptyReadExact | ShipNet/protocol/ByteBuffer.cpp:424-425 | an empty bulk read keeps the queue if and only if the reader is inside its chunk or another chunk follows |
| QueueTheorems.EmptyReadRuins | ShipNet/protocol/ByteBuffer.cpp:425 | a chunk written and read to its end: reading no bytes leaves no chunk |
| QueueTheorems.UsedUpExact | ShipNet/protocol/ByteBuffer.cpp:477-481 | a queue is at the end of its only chunk if and only if nothing is left and the last chunk is full |
| QueueTheorems.DropAllEnd | ShipNet/protocol/ByteBuffer.cpp:419-450 | reading leaves the last chunk as it is |
| QueueTheorems.BulkReadExact | ShipNet/protocol/ByteBuffer.cpp:419-450 | a bulk read keeps the queue unless it is an empty one on a used-up only chunk; it removes the bytes asked for, or nothing if too few are readable |
| QueueTheorems.ResetReaderRewinds | ShipNet/protocol/ByteBuffer.cpp:463-466 | resetting the reader puts the consumed bytes of the first chunk back in front of the queue |
| QueueTheorems.ResetWriterExact | ShipNet/protocol/ByteBuffer.cpp:468-471 | resetting the writer leaves a queue, then an empty one, if and only if there is one chunk and nothing read of it, or two with the first used up |
| QueueTheorems.ResetBothExact | ShipNet/network/Connection.cpp:146-147 | the two resets before every outgoing packet restore the empty buffer if and only if it holds one chunk at the time |
| QueueTheorems.PutAllShape | ShipNet/protocol/ByteBuffer.cpp:376-402 | chunk count and writer offset after a write depend only on how many bytes were written, and the last chunk is not empty |
| QueueTheorems.DropAllShape | ShipNet/protocol/ByteBuffer.cpp:419-450 | a read drops exactly the chunks it has passed and leaves the reader in the one it ended in |
| QueueTheorems.StepExact | ShipNet/protocol/ByteBuffer.cpp:310-450 | any one operation leaves a queue if and only if it is safe by the offsets; then it appended what it wrote and removed the front bytes it took |
| QueueTheorems.RunConserves | ShipNet/protocol/ByteBuffer.cpp:310-450 | over every safe run of mixed operations: bytes queued at the start followed by bytes written are the bytes handed out followed by bytes still queued, and the counts agree |
| QueueTheorems.PlainRunsAreSafe | ShipNet/protocol/ByteBuffer.cpp:364-450 | every run of writes, guarded single reads and non-empty bulk reads is safe |
| ByteBuffers.ByteBufferImpl.constructor | ShipNet/protocol/ByteBuffer.cpp:339-345 | a new buffer of any capacity from 1 is an empty queue |
| ByteBuffers.ByteBufferImpl.FromArray | ShipNet/protocol/ByteBuffer.cpp:347-352 | a buffer over an existing array holds it as its only chunk but counts nothing as readable |
| ByteBuffers.ByteBufferImpl.AppendBuffer | ShipNet/protocol/ByteBuffer.cpp:489-493 | a fresh chunk becomes the write chunk; the chunk before it counts as a whole from then on |
| ByteBuffers.ByteBufferImpl.PopBuffer | ShipNet/protocol/ByteBuffer.cpp:495-500 | the front chunk goes; only while another chunk remains do the pointers stay live |
| ByteBuffers.ByteBufferImpl.TryRefreshWriterBuffer | ShipNet/protocol/ByteBuffer.cpp:483-487 | afterwards there is room for a byte, in a fresh chunk if the last was full, and the queue is the same |
| ByteBuffers.ByteBufferImpl.TryRefreshReaderBuffer | ShipNet/protocol/ByteBuffer.cpp:477-481 | drops a used-up front chunk; the pointers stay live exactly while a chunk is left |
| ByteBuffers.ByteBufferImpl.DirectRead | ShipNet/protocol/ByteBuffer.cpp:506-508 | the memory at the direct read address holds the bytes of the front chunk from the reader on |
| ByteBuffers.ByteBufferImpl.WriteByte | ShipNet/protocol/ByteBuffer.cpp:370-374 | on the arrays, does what the queue's byte write does, touching no chunk but its own |
| ByteBuffers.ByteBufferImpl.ReadByteUnsafe | ShipNet/protocol/ByteBuffer.cpp:364-368 | with a byte readable, returns the front byte and leaves the queue without it |
| ByteBuffers.ByteBufferImpl.WriteBytes | ShipNet/protocol/ByteBuffer.cpp:376-402 | the chunk-copying loop ends in the very state that writing byte by byte ends in, also when the reader has lost its place |
| ByteBuffers.ByteBufferImpl.ReadBytes | ShipNet/protocol/ByteBuffer.cpp:419-450 | the chunk-copying loop fills the output with the front bytes, leaves the rest of it alone and ends in the state of byte-wise reads; too few bytes change nothing and report the readable count; it ruins the buffer only in the empty-read case |
| ByteBuffers.ByteBufferImpl.SkipReadBytes | ShipNet/protocol/ByteBuffer.cpp:310-325 | does the skip as written, reports what was left of the count after the last pop, and refuses, changing nothing, when too few bytes are readable |
| ByteBuffers.ByteBufferImpl.SkipWriteBytes | ShipNet/protocol/ByteBuffer.cpp:327-337 | where the write position ends, including the size_t wrap of the first subtraction; a queue if and only if the writer was at a chunk start |
| ByteBuffers.ByteBufferImpl.ResetReaderIndex | ShipNet/protocol/ByteBuffer.cpp:463-466 | stays a queue and rewinds the first chunk |
| ByteBuffers.ByteBufferImpl.ResetWriterIndex | ShipNet/protocol/ByteBuffer.cpp:468-471 | empties the last chunk and the readable count, nothing else |
| ByteBuffers.ByteBufferImpl.WriteBoolean | ShipNet/protocol/ByteBuffer.cpp:69-71 | appends one byte, 1 or 0 |
| ByteBuffers.ByteBufferImpl.WriteShort | ShipNet/protocol/ByteBuffer.cpp:73-76 | appends the two bytes, most significant first |
| ByteBuffers.ByteBufferImpl.WriteMedium | ShipNet/protocol/ByteBuffer.cpp:78-82 | appends the low three bytes, most significant first |
| ByteBuffers.ByteBufferImpl.WriteInt | ShipNet/protocol/ByteBuffer.cpp:84-89 | appends the four bytes, most significant first |
| ByteBuffers.ByteBufferImpl.WriteLong | ShipNet/protocol/ByteBuffer.cpp:103-112 | appends the eight bytes, most significant first |
| ByteBuffers.ByteBufferImpl.WriteVarInt | ShipNet/protocol/ByteBuffer.cpp:91-101 | the shifting loop appends the number's encoding |
| ByteBuffers.ByteBufferImpl.WriteVarLong | ShipNet/protocol/ByteBuffer.cpp:114-124 | the shifting loop appends the number's encoding |
| ByteBuffers.ByteBufferImpl.WriteUUID | ShipNet/protocol/ByteBuffer.cpp:126-129 | appends the two words of the UUID, most significant first |
| ByteBuffers.ByteBufferImpl.WriteUUIDIntArray | ShipNet/protocol/ByteBuffer.cpp:131-136 | appends the four words of the UUID in order |
| ByteBuffers.ByteBufferImpl.WriteString | ShipNet/protocol/ByteBuffer.cpp:146-149 | appends the length, kept in 32 bits, and the bytes |
| ByteBuffers.ByteBufferImpl.WriteBytesOf | ShipNet/protocol/ByteBuffer.cpp:414-417 | moves the front bytes of another buffer; when it holds too few, appends what the scratch array held before |
| ByteBuffers.ByteBufferImpl.WriteByteArray | ShipNet/protocol/ByteBuffer.cpp:151-154 | appends the other buffer's readable count and all its bytes, and empties it |
| ByteBuffers.ByteBufferImpl.WriteBytesAndDelete | ShipNet/protocol/ByteBuffer.cpp:404-412 | a bulk write, unless the writer is at 0 and the input has a chunk's size: then, and only then, the buffer is ruined, the input having taken the last chunk's place and nothing being queued |
| ByteBuffers.ByteBufferImpl.ReadBoolean | ShipNet/protocol/ByteBuffer.cpp:160-166 | whether the front byte is not 0; with nothing readable, an error and no change |
| ByteBuffers.ByteBufferImpl.ReadByte | ShipNet/protocol/ByteBuffer.cpp:168-174 | the front byte; with nothing readable, an error and no change |
| ByteBuffers.ByteBufferImpl.ReadShort | ShipNet/protocol/ByteBuffer.cpp:176-182 | the or of two shifted bytes read left to right is the big-endian word; too few bytes take nothing and report the count |
| ByteBuffers.ByteBufferImpl.ReadMedium | ShipNet/protocol/ByteBuffer.cpp:184-190 | the same for three bytes |
| ByteBuffers.ByteBufferImpl.ReadInt | ShipNet/protocol/ByteBuffer.cpp:192-198 | the same for four bytes |
| ByteBuffers.ByteBufferImpl.ReadLong | ShipNet/protocol/ByteBuffer.cpp:217-225 | the same for eight bytes |
| ByteBuffers.ByteBufferImpl.ReadVarInt | ShipNet/protocol/ByteBuffer.cpp:200-215 | the or-ing loop returns and takes exactly what the decoding of the queued bytes says, in every case |
| ByteBuffers.ByteBufferImpl.ReadVarLong | ShipNet/protocol/ByteBuffer.cpp:227-242 | the same for ten groups and 64 bits |
| ByteBuffers.ByteBufferImpl.ReadUUID | ShipNet/protocol/ByteBuffer.cpp:244-248 | two words, or an error carrying the bytes left; a first word already read is gone |
| ByteBuffers.ByteBufferImpl.ReadUUIDIntArray | ShipNet/protocol/ByteBuffer.cpp:250-258 | four words or-ed as written, bit by bit, or an error after taking the whole words there were |
| ByteBuffers.ByteBufferImpl.ReadString | ShipNet/protocol/ByteBuffer.cpp:274-282 | length and limit errors as coded, the prefix gone by then; else the bytes up to the first zero in them or in the memory after them |
| ByteBuffers.ByteBufferImpl.ReadByteArray | ShipNet/protocol/ByteBuffer.cpp:290-298 | the bytes come back as the only chunk of a fresh buffer with nothing readable; errors as coded; without a limit argument it is this with the largest limit |
| ByteBuffers.AfterPrefixedExact | ShipNet/protocol/ByteBuffer.cpp:274-298 | a length-prefixed read ruins the buffer if and only if the array is empty, its prefix is the last thing queued and the last chunk is full; otherwise what it took is gone and the rest is still queued |
| VarInts.DecodeExact | ShipNet/protocol/ByteBuffer.cpp:200-215 | reading succeeds if and only if a byte below 0x80 is among the first 5 (10), is incomplete if and only if the input ends first, and takes all or the limit when it fails |
| VarInts.DecodeValue | ShipNet/protocol/ByteBuffer.cpp:200-215 | the value is the sum of the 7-bit groups modulo the word, and exactly those bytes are taken |
| VarInts.DecodeContinued | ShipNet/protocol/ByteBuffer.cpp:200-215 | after the limit without a byte below 0x80 the number is invalid and carries the value assembled; at the end of the input it is incomplete |
| VarInts.EncodingAt | ShipNet/protocol/ByteBuffer.cpp:114-124 | each byte written is the next seven bits of the number, with the high bit on all but the last |
| VarInts.GroupStep | ShipNet/protocol/ByteBuffer.cpp:208 | or-ing a group into place, dropping bits beyond the word, gives the value so far modulo the word |
| VarInts.DecodeEncode | ShipNet/protocol/ByteBuffer.cpp:91-101 | every encoded number reads back as itself and is consumed exactly, whatever follows |
| VarInts.DecodePrefix | ShipNet/protocol/ByteBuffer.cpp:203-205 | every proper prefix of an encoding reads as incomplete and is consumed |
| VarInts.PrefixFree | ShipNet/protocol/ByteBuffer.cpp:114-124 | no encoding is a prefix of another number's |
| VarInts.EncodingMinimal | ShipNet/protocol/ByteBuffer.cpp:227-242 | re-encoding a number that was read never takes more bytes than reading it took |
| VarInts.VarIntBytesExact | ShipNet/protocol/ByteBuffer.cpp:23-35 | the mask cascade gives the length of the encoding, at most 5 |
| VarInts.VarLongBytesExact | ShipNet/protocol/ByteBuffer.cpp:37-59 | the mask cascade gives the length of the encoding, at most 10 |
| Codec.BigEndianRoundTrip | ShipNet/protocol/ByteBuffer.cpp:73-112 | a word of n bytes comes back from its bytes |
| Codec.BigEndianAt | ShipNet/protocol/ByteBuffer.cpp:73-112 | the i-th byte written is the i-th from the top of the word |
| Codec.FromBigEndianRoundTrip | ShipNet/protocol/ByteBuffer.cpp:176-225 | any n bytes are the bytes of the word assembled from them |
| Codec.OrNext | ShipNet/protocol/ByteBuffer.cpp:217-225 | or-ing the next byte into its place extends the assembled word by it |
| Words.OrBits | ShipNet/protocol/ByteBuffer.cpp:176-258 | a bit of the or of two words is set if and only if it is set in one of them |
| Codec.CStringExact | ShipNet/protocol/ByteBuffer.cpp:274-282 | a string built without its length is the one sent if and only if it holds no zero and the memory after it starts with one |
| Codec.CStringEnds | ShipNet/protocol/ByteBuffer.cpp:274-282 | a string built without its length is the longest run of non-zero bytes in front |
| Codec.UUIDIntsExact | ShipNet/protocol/ByteBuffer.cpp:250-258 | the four-word form brings a UUID back if and only if its most significant half is below 2^32 |
| Codec.UUIDIntsBits | ShipNet/protocol/ByteBuffer.cpp:250-258 | sixteen bytes are read as a UUID whose upper half has the bits of either of the first two words and whose lower half is the last eight bytes |
| Codec.UUIDFormsAgree | ShipNet/protocol/ByteBuffer.cpp:126-139 | the four words written are the sixteen bytes of the two-word form |
| Codec.ReadVarIntExact | ShipNet/protocol/ByteBuffer.cpp:200-215 | a number is read if and only if one of the first 5 bytes is below 0x80; it is incomplete, with everything taken, if and only if the input ends before that; otherwise it is invalid, with 5 taken and the value assembled |
| Codec.ReadVarLongExact | ShipNet/protocol/ByteBuffer.cpp:227-242 | the same with 10 bytes, 64 bits and the errors of its own |
| Codec.PrefixedRoundTrip | ShipNet/protocol/ByteBuffer.cpp:284-298 | the bytes of a length-prefixed array within the limit come back and nothing after them is taken |
| Codec.FieldRoundTrip | ShipNet/protocol/ByteBuffer.cpp:69-298 | reading back a field of any kind succeeds and takes exactly its bytes whatever follows, and gives the field written if and only if it survives |
| Codec.SchemaRoundTrip | ShipNet/protocol/ByteBuffer.cpp:69-298 | any list of fields read back with its schema succeeds, consumes exactly the bytes written, and returns each field that survives, and no other, as it was |
| Schemas.FieldStep | ShipNet/protocol/ByteBuffer.cpp:160-298 | reading one field from a buffer takes what decoding its bytes says and leaves the rest; it ruins the buffer if and only if it is an empty array, nothing follows it and the last chunk is full |
| Schemas.AfterFieldsExact | ShipNet/protocol/ByteBuffer.cpp:160-298 | reading any list of fields likewise; only the last one read can ruin the buffer, if and only if it is an empty array, nothing follows it and the last chunk is full |
| Schemas.ReadField | ShipNet/protocol/ByteBuffer.cpp:160-298 | on a real buffer, the reader of each kind has the outcome and takes the bytes that decoding the field says |
| Schemas.ReadFrom | ShipNet/protocol/ByteBuffer.cpp:160-298 | on a real buffer, reading a schema up to the first failure has the outcome and takes the bytes that decoding says, and ruins the buffer if and only if the queued bytes end with an empty array it reads and the writer is at its chunk's end |
| Schemas.SchemaOverChunks | ShipNet/protocol/ByteBuffer.cpp:69-298 | a message's fields in a buffer of any capacity, with anything behind them, all read; each comes back if and only if it survives, exactly the message is consumed, and the buffer stays a queue if and only if not all of this holds: nothing follows, the last field is an empty array, the last chunk is full |
| Schemas.WriteThenRead | ShipNet/protocol/ByteBuffer.cpp:69-298 | writing to and reading from a real buffer, the values and bytes likewise; here the buffer always stays a queue, since the writers of an empty array leave room in the last chunk |
| ByteCounters.ByteCounter.WriteVarInt | ShipNet/protocol/ByteCounter.cpp:24-26 | counts as many bytes as the real writer appends |
| ByteCounters.ByteCounter.WriteString | ShipNet/protocol/ByteCounter.cpp:52-55 | counts prefix and bytes as the real writer appends them |
| ByteCounters.ByteCounter.WriteByte | ShipNet/protocol/ByteCounter.cpp:4-6 | counts as many bytes as the real writer appends |
| ByteCounters.ByteCounter.WriteBoolean | ShipNet/protocol/ByteCounter.cpp:8-10 | counts as many bytes as the real writer appends |
| ByteCounters.ByteCounter.WriteShort | ShipNet/protocol/ByteCounter.cpp:12-14 | counts as many bytes as the real writer appends |
| ByteCounters.ByteCounter.WriteMedium | ShipNet/protocol/ByteCounter.cpp:16-18 | counts as many bytes as the real writer appends |
| ByteCounters.ByteCounter.WriteInt | ShipNet/protocol/ByteCounter.cpp:20-22 | counts as many bytes as the real writer appends |
| ByteCounters.ByteCounter.WriteLong | ShipNet/protocol/ByteCounter.cpp:28-30 | counts as many bytes as the real writer appends |
| ByteCounters.ByteCounter.WriteVarLong | ShipNet/protocol/ByteCounter.cpp:32-34 | counts as many bytes as the real writer appends |
| ByteCounters.ByteCounter.WriteUUID | ShipNet/protocol/ByteCounter.cpp:36-38 | counts as many bytes as the real writer appends |
| ByteCounters.ByteCounter.WriteUUIDIntArray | ShipNet/protocol/ByteCounter.cpp:40-42 | counts as many bytes as the real writer appends |
| ByteCounters.ByteCounter.WriteBytes | ShipNet/protocol/ByteCounter.cpp:61-63 | counts as many bytes as the real writer appends |
| ByteCounters.ByteCounter.WriteBytesOf | ShipNet/protocol/ByteCounter.cpp:65-67 | counts the bytes asked for without reading the other buffer |
| ByteCounters.ByteCounter.WriteByteArray | ShipNet/protocol/ByteBuffer.cpp:151-154 | the inherited writer counts what it would append from the other buffer, and leaves that buffer alone |
| ByteCounters.ByteCounter.WriteBytesAndDelete | ShipNet/protocol/ByteCounter.cpp:77-79 | counts nothing |
| ByteCounters.WriteAppends | ShipNet/protocol/ByteBuffer.cpp:69-154 | each typed write, raw write and move out of another buffer appends exactly its bytes to the queue, wherever chunks end; one that ends with no bytes leaves room in the last chunk |
| ByteCounters.WriteTo | ShipNet/protocol/Protocol.hpp:315 | a message of any list of typed writes, raw writes and moves, byte arrays through the inherited writer, appends their bytes in order to a real buffer |
| ByteCounters.CountWrites | ShipNet/protocol/ByteCounter.cpp:4-67 | any list of supported writes moves the counter by exactly as many bytes as it appends to a real buffer |
| ByteCounters.Size | ShipNet/protocol/Protocol.hpp:316-320 | a message's size is the length of what it writes if and only if that fits 32 bits, and is that length modulo 2^32 otherwise |
| Draining.DrainCounts | ShipNet/network/readwritecloser/UnixReadWriteCloser.cpp:15-46 | for all kernel answers, bytes sent plus bytes readable stay constant, and finishing means nothing is readable |
| Draining.DrainEnding | ShipNet/network/readwritecloser/UnixReadWriteCloser.cpp:15-46 | a drain that still wants to write has ended by the answer it then got: a reset, that failure, or EAGAIN when there was none; otherwise it is finished |
| Draining.DrainExact | ShipNet/network/readwritecloser/UnixReadWriteCloser.cpp:15-46 | told from the buffer and the answers beforehand: bytes sent followed by bytes queued are the original ones if and only if nothing is sent, or the reader is at a chunk start and either whole answers come for everything and the last chunk is not full, or the first answer that is not whole is a refusal, takes all that is left, or is the last to take anything; and only then is the buffer still a queue |
| Draining.WholeWritesExact | ShipNet/network/readwritecloser/UnixReadWriteCloser.cpp:15-46 | with a kernel that takes whole requests, everything arrives in order if and only if the reader is at a chunk start and the last chunk is not full |
| Draining.DrainNeverRecovers | ShipNet/network/readwritecloser/UnixReadWriteCloser.cpp:15-46 | once the reader lags, no further writes make the buffer a queue again |
| Draining.DrainTerminates | ShipNet/network/readwritecloser/UnixReadWriteCloser.cpp:15-46 | at most one write per readable byte, one more from a used-up chunk; with enough progress the drain finishes |
| Draining.SecondDrainGoesWrong | ShipNet/network/readwritecloser/UnixReadWriteCloser.cpp:15-46 | after a drain that finished in order inside a chunk, whatever is written next, a later drain keeps the order if and only if it sends nothing |
| Draining.PartialWritesLoseOrder | ShipNet/protocol/ByteBuffer.cpp:322 | bytes 1, 2, 3 taken one at a time arrive as 1, 2, 2, reported as success |
| ReadWriteClosers.UnixReadWriteCloser.Write | ShipNet/network/readwritecloser/UnixReadWriteCloser.cpp:9-47 | the two loops on a real buffer and socket are the drain; with bytes unsent, a reset for an answer closes and counts as success, and any other failure is reported; a closed socket takes nothing |
| ReadWriteClosers.UnixReadWriteCloser.WriteAll | ShipNet/network/readwritecloser/UnixReadWriteCloser.cpp:15-46 | the two loops take exactly the answers the drain does, and one more when refused |
| ReadWriteClosers.UnixReadWriteCloser.WriteOnce | ShipNet/network/readwritecloser/UnixReadWriteCloser.cpp:31-43 | one write sends the front bytes the kernel takes and skips as many; a refused one changes nothing |
| ReadWriteClosers.UnixReadWriteCloser.Close | ShipNet/network/readwritecloser/UnixReadWriteCloser.cpp:66-75 | the socket is closed afterwards |
| Framing.ReadFrameKeepsBound | ShipNet/network/pipe/FramedByteBytePipe.cpp:32-57 | the pending length stays within the limit; with one pending, an incomplete call takes nothing and a frame is handed over if and only if all of it is there |
| Framing.DriveStaysInStep | ShipNet/network/pipe/FramedByteBytePipe.cpp:32-57 | over a piece that does not end inside a prefix, the whole frames in it are handed over in order and the reader stays in step with the rest |
| Framing.DriveLosesStep | ShipNet/network/pipe/FramedByteBytePipe.cpp:32-57 | over a piece that ends inside a prefix, that part is lost, and what comes next reads as a shorter frame |
| Framing.RunExact | ShipNet/network/pipe/FramedByteBytePipe.cpp:32-57 | from any state in step, a run of arrivals hands over the frames owed if and only if none ends inside a prefix |
| Framing.ChunkingExact | ShipNet/network/pipe/FramedByteBytePipe.cpp:32-57 | however a stream of frames within the limit is cut, driving the reader after each arrival hands over exactly those frames if and only if no arrival ends strictly inside a length prefix |
| Framing.LostPrefix | ShipNet/network/pipe/FramedByteBytePipe.cpp:34-43 | a frame of 128 bytes whose two prefix bytes arrive apart does not come through |
| KeepingReaders.AnyChunking | ShipNet/network/pipe/FramedByteBytePipe.cpp:32-57 | of the repaired reader that leaves an incomplete prefix in its input, not of the one in the source: it hands over exactly the frames of a stream however it is cut |
| Pipes.ShortWriteExact | ShipNet/network/pipe/FramedByteBytePipe.cpp:4-30 | the encoder is never handed more than the announced length, and is handed less if and only if the length was read in the same call and the prefix's bytes make the frame look complete |
| Pipes.StaleCount | ShipNet/network/pipe/FramedBytePacketPipe.cpp:5-27 | of a page with a prefix announcing two bytes and one of them, the packet pipe makes a packet of one |
| Calls.CallExact | ShipNet/network/pipe/FramedBytePacketPipe.cpp:4-31 | one call of the frame reader, the frame writer or the packet pipe on the front of a stream keeps its place if and only if a length was pending, or nothing was there, or the whole prefix was and, for the two that count before reading it, the frame was complete or did not look so |
| Calls.CallShape | ShipNet/network/pipe/FramedByteBytePipe.cpp:4-57 | everything such a call can do: lose part of a prefix, wait for the frame, hand it over, or hand over less of it |
| Calls.RunCallsExact | ShipNet/network/pipe/FramedBytePacketPipe.cpp:4-31 | over any run of calls on a stream cut anywhere, of any of the three: the frames handed over are the first ones and the state expects exactly the others, if and only if every call finds a sound size, which is told from frame and page lengths alone |
| Calls.StrayRun | ShipNet/network/pipe/FramedByteBytePipe.cpp:32-57 | once part of a prefix is lost, whatever comes, a frame that is too short is handed over or awaited, or bytes are missing |
| Calls.PagesBetweenPrefixes | ShipNet/network/pipe/FramedByteBytePipe.cpp:32-57 | for the frame reader, pages that do not end inside a prefix are sound, however much is held back |
| Calls.OnePacketPerPage | ShipNet/network/Connection.cpp:107-143 | when every page holds whole frames, as many packets have been handed on as there were pages, in order, and the rest wait |
| Pipes.PipelineInverse | ShipNet/network/Connection.cpp:107-176 | the reverse pass over pipes of any number followed by the forward pass at a peer whose decoders undo the encoders gives the packet pipe the original bytes and leaves all pipes as they were |
| Pipes.OnlyTheWireIsTaken | ShipNet/network/Connection.cpp:157-184 | what goes onto the wire is the outermost pipe's writer queue, and nothing else of the pipes changes when it is taken |
| Pipes.PacketArrives | ShipNet/network/Connection.cpp:107-176 | end to end, the peer's packet pipe hands on exactly the packet written, with nothing left over |
| FramedPipes.FramedByteBytePipe.Read | ShipNet/network/pipe/FramedByteBytePipe.cpp:32-57 | on real buffers: outcome, pending length, bytes taken and bytes appended are those of the pipe's read |
| FramedPipes.FramedByteBytePipe.Write | ShipNet/network/pipe/FramedByteBytePipe.cpp:4-30 | on real buffers: outcome, pending length, bytes taken and bytes appended are those of the pipe's write |
| FramedPipes.FramedByteBytePipe.DecodeFrame | ShipNet/network/pipe/FramedPipe.hpp:25 | takes exactly the frame from its input and appends its decoding to the reader's buffer |
| FramedPipes.FramedByteBytePipe.EncodeFrame | ShipNet/network/pipe/FramedPipe.hpp:24 | takes what is there of the frame and appends its encoding to the writer's buffer |
| FramedPipes.FramedByteBytePipe.constructor | ShipNet/network/pipe/FramedPipe.hpp:13-20 | starts with no pending length and two empty, separate buffers |
| FramedPipes.FramedBytePacketPipe.Read | ShipNet/network/pipe/FramedBytePacketPipe.cpp:4-31 | on a real buffer: outcome, pending length and bytes taken are those of the packet pipe's read |
| FramedPipes.FramedBytePacketPipe.constructor | ShipNet/network/pipe/FramedPipe.hpp:28-36 | starts with no pending length |
| Connections.ReadPass | ShipNet/network/Connection.cpp:111-114 | the loop over the pipes is the forward pass of the theorems, outcomes ignored |
| Connections.WritePass | ShipNet/network/Connection.cpp:159-175 | the reverse loop is the reverse pass of the theorems, stopping at a failure or a pipe that appends nothing |
| Sessions.PlainExact | ShipNet/network/Connection.cpp:107-143 | a connection without pipes hands on the first packets, at most one a page, and expects exactly the others, if and only if every call finds a sound size |
| Sessions.LongPrefixRefused | ShipNet/network/Connection.cpp:107-143 | five bytes from 0x80 up where a length should be make a connection without pipes refuse the packet |
| Sessions.ArriveBehindPipes | ShipNet/network/Connection.cpp:107-115 | behind pipes, what the packet pipe did not take stays in the last pipe's queue, what the first pipe did not take in the outer one, and nothing else is touched |
| Sessions.PipelineFollows | ShipNet/network/Connection.cpp:107-143 | through pipes of any number, every frame the outermost one reads comes out as its packet on the page that completes it, and nothing else comes out |
| Sessions.PipelineDelivers | ShipNet/network/Connection.cpp:107-143 | through one or more pipes, over pages cut anywhere on which no call finds only part of a prefix, the packets handed on are the first ones, as many as the outermost pipe has completed reads, and it expects exactly the others |
| Sessions.PipelinePrefix | ShipNet/network/Connection.cpp:107-143 | that holds whenever no page ends strictly inside a prefix of the outermost stream |
| Sessions.PagesDeliverExact | ShipNet/network/pipe/FramedBytePacketPipe.cpp:4-31 | pages of the right sizes make a connection without pipes hand on exactly the packets if and only if there is one for each and each announces and holds its packet |
| Sessions.IntactPagesDeliver | ShipNet/network/Connection.cpp:107-143 | if every packet's wire reached the peer as a page of its own, the peer would hand on exactly the packets; it says nothing of the flush |
| Flushes.DrainWindow | ShipNet/network/readwritecloser/UnixReadWriteCloser.cpp:15-46 | a whole-request drain that starts inside the front chunk sends bytes of that chunk only, turning back to the offset left of it |
| Flushes.OrderlyDrain | ShipNet/network/readwritecloser/UnixReadWriteCloser.cpp:15-46 | where a drain that keeps the order leaves the reader, and how many bytes, told from the numbers and the answers |
| Flushes.SessionOrderExact | ShipNet/network/Connection.cpp:179-198 | with any kernel, a session of flushed packets keeps everything in order, the buffer staying a queue, if and only if the sizes of the wires and the answers say so beforehand |
| Flushes.FlushedExact | ShipNet/network/Connection.cpp:179-198 | the pages a session of flushed packets puts on the socket, the buffer carried from flush to flush: the first wire that has bytes, and then windows of the one chunk the others fill, or nothing more if the first ended its chunk |
| Flushes.SessionDelivers | ShipNet/network/Connection.cpp:145-198 | through pipelines of any length and the real writer buffer, those are the pages; where they are the packets' wires, the peer hands on exactly the packets |
| Flushes.PlainSessionExact | ShipNet/network/Connection.cpp:145-198 | without pipes, a flushed session delivers its packets if and only if its first wire did not end a chunk before another packet and every window reads as its packet |
| Flushes.OneChunkSession | ShipNet/protocol/ByteBuffer.cpp:322 | in a session within one chunk, each page after the first is cut at the length of the packet before it, which is the right place for the second only |
| Flushes.ThirdFlushGoesWrong | ShipNet/protocol/ByteBuffer.cpp:322 | packets A, BC and D, flushed one by one: BC's bytes are sent in D's place, and D never arrives |
| SharedBuffers.SharedStartsExact | ShipNet/network/Connection.cpp:145-148 | over a run of packets, every one starts on an empty shared buffer if and only if each before it leaves one chunk, told from the bytes it writes and takes |
| SharedBuffers.LeavesExact | ShipNet/network/Connection.cpp:145-177 | how many chunks a packet leaves that started on an empty buffer |
| SharedBuffers.StaleBytesComeFirst | ShipNet/network/Connection.cpp:145-148 | at any capacity, a packet that fills its chunk, ends with an empty bulk write and is read to the end makes the next one's first byte come behind the old ones |
| SharedBuffers.StartPacket | ShipNet/network/Connection.cpp:146-147 | on the real buffer, the two resets give the empty buffer if and only if it held one chunk, and otherwise no queue |
| Connections.Connection.constructor | ShipNet/network/Connection.cpp:7-11 | starts with no pipes, no packet handlers but the main one, and nothing queued either way |
| Connections.Connection.AppendByteBytePipe | ShipNet/network/Connection.cpp:34-36 | the pipe becomes the last on the way in and the first on the way out |
| Connections.Connection.PrependByteBytePipe | ShipNet/network/Connection.cpp:38-40 | the pipe becomes the first on the way in and the last on the way out |
| Connections.Connection.Dispatch | ShipNet/network/Connection.cpp:118-137 | the first handler to claim a packet is the last called; a failing handler closes the connection, and ends the dispatch only if it is the main one |
| Connections.Connection.HandleNewBytes | ShipNet/network/Connection.cpp:107-143 | one page is one arrival of the theorems; a packet goes to the main handler and then to the others up to the first that handles it; the connection closes exactly on a bad frame or a failed handler, as on a prefix of five bytes from 0x80 up |
| Connections.Connection.Write | ShipNet/network/Connection.cpp:145-177 | puts behind what is queued for the wire exactly what the reverse pass ends in, nothing if it stops or breaks, and closes exactly on a failure |
| Connections.Connection.Flush | ShipNet/network/Connection.cpp:196-198 | hands what is queued to the socket by the drain, with its outcome; the buffer is still a queue if and only if it and the answers allowed it beforehand, and usable unless its last chunk is gone; when closed, nothing happens |
| Connections.Connection.WriteAndFlush | ShipNet/network/Connection.cpp:179-182 | one step of a flushed session on the real writer buffer and socket, in every case: the pass gets through, stops, or closes the connection so that nothing is sent |
| Connections.Connection.SendAll | ShipNet/network/Connection.cpp:145-198 | a session on the real writer buffer and socket, with any kernel that does not reset: the socket gets exactly the pages of the session |
| Registries.ResizeAndSet | ShipNet/utils/ordinal/OrdinalVector.hpp:10-16 | sets one entry, keeps every other, and pads growth of eight beyond it with 0 |
| Registries.RegisterAllExact | ShipNet/protocol/registry/VersionRegistry.cpp:31-38 | after any run of automatic registrations the signed counter can number, ids are dense in order, the padding is 0, and each ordinal has the last id it was given |
| Registries.OrdinalByIDExact | ShipNet/protocol/registry/VersionRegistry.cpp:15-21 | an id given out answers its ordinal, one never given out answers 0 within the padding and is refused beyond it |
| Registries.OrdinalRoundTrip | ShipNet/protocol/registry/VersionRegistry.cpp:15-29 | from a registered ordinal to its id and back is the ordinal, even after it was registered again |
| Registries.IDRoundTripExact | ShipNet/protocol/registry/VersionRegistry.cpp:15-29 | from an id to its ordinal and back is the id if and only if the ordinal was not registered again later |
| Registries.RegisterKeepsOthers | ShipNet/protocol/registry/VersionRegistry.cpp:31-38 | a registration, growing the tables or not, leaves the ids of other ordinals as they were |
| Registries.PairExact | ShipNet/protocol/registry/VersionRegistry.cpp:35-38 | a registration under a given id makes the two answer each other; all others answer as before, or 0 as new padding |
| Registries.FromListForgetsCount | ShipNet/protocol/registry/VersionRegistry.cpp:6-13 | a list's id table is that of registering it one by one, but the next automatic registration takes id 0 away unless it is the same ordinal |
| Registries.FromListExact | ShipNet/protocol/registry/VersionRegistry.cpp:6-21 | an id within the list answers the ordinal at its place and any other is refused; an ordinal of the list answers its last place, which leads back to it |
| Registries.ListThenRegister | ShipNet/protocol/registry/VersionRegistry.cpp:6-33 | made from one ordinal, and another registered: the first one's id answers the second |
| Registries.VersionRegistry.FromOrdinals | ShipNet/protocol/registry/VersionRegistry.cpp:6-13 | the loop builds the tables of the list, with no id counted: ids answer by their place, and an ordinal that does not come again by its own |
| Registries.VersionRegistry.RegisterAs | ShipNet/protocol/registry/VersionRegistry.cpp:35-38 | the fields become the tables with the pair set |
| Registries.VersionRegistry.Register | ShipNet/protocol/registry/VersionRegistry.cpp:31-33 | the fields become the tables with the next id given to the ordinal |
| Registries.VersionRegistry.GetOrdinalByID | ShipNet/protocol/registry/VersionRegistry.cpp:15-21 | answers from the tables the theorems are about |
| Registries.VersionRegistry.GetIDByOrdinal | ShipNet/protocol/registry/VersionRegistry.cpp:23-29 | answers from the tables the theorems are about |
| VersionedRegistries.RankBetween | ShipNet/protocol/registry/VersionedRegistry.cpp:9-14 | a version between two keys has as rank the number of keys up to it |
| VersionedRegistries.RankExact | ShipNet/protocol/registry/VersionedRegistry.cpp:36-42 | ranks never fall as versions get newer, and two versions share one if and only if no key lies after the one and up to the other |
| VersionedRegistries.KeyServes | ShipNet/protocol/registry/VersionedRegistry.cpp:18-20 | what is set at a key serves exactly the versions from it to just before the next key |
| VersionedRegistries.VersionedRegistry.constructor | ShipNet/protocol/registry/VersionedRegistry.cpp:4-16 | the range fills give every version from the first key on its rank, counted from 1 |
| VersionedRegistries.VersionedRegistry.VersionToOrdinal | ShipNet/protocol/registry/VersionedRegistry.cpp:36-42 | the rank of the version, the unknown version counting as the newest; always a place in the registry array |
| VersionedRegistries.VersionedRegistry.RegisterVersion | ShipNet/protocol/registry/VersionedRegistry.cpp:18-20 | replaces the registry of the versions of the same rank and of no other |
| VersionedRegistries.VersionedRegistry.FillVersionRegistry | ShipNet/protocol/registry/VersionedRegistry.cpp:22-26 | makes one registry serve every version ranked with the oldest or later, and no other |
| VersionedRegistries.VersionedRegistry.GetOrdinalByID | ShipNet/protocol/registry/VersionedRegistry.cpp:28-30 | answers from the registry that serves the version |
| VersionedRegistries.VersionedRegistry.GetIDByOrdinal | ShipNet/protocol/registry/VersionedRegistry.cpp:32-34 | answers from the registry that serves the version |
| VersionedRegistries.VersionedRegistry.EnumRoundTrip | ShipNet/protocol/registry/EnumRegistry.hpp:15-22 | for every version: what an id answers in every case, a registered value comes back from its id, and an id from its value if and only if the value was not registered again |
| EventLoops.RunsAllInOrder | ShipNet/utils/thread/EventLoop.cpp:14-17 | the tasks run are those queued at the start followed by those the running tasks queued, each once, in submission order |
| EventLoops.PassSplits | ShipNet/utils/thread/EventLoop.cpp:22-29 | a pass runs exactly the entries due by its clock reading and keeps the others; none is lost or repeated |
| EventLoops.PassAppend | ShipNet/utils/thread/EventLoop.cpp:22-29 | entries are run and kept in the order of the list |
| EventLoops.DueExact | ShipNet/utils/thread/EventLoop.cpp:10-23 | with times kept in 32 bits, a task runs at the right time within one window of 2^32 milliseconds; exactly when across windows it runs early or is held back |
| EventLoops.VisitingMakesNoDifference | ShipNet/utils/thread/EventLoop.cpp:22-29 | for requests with positive delays, a clock that does not fall and due times in the same window, a walk may or may not go on to the entries added while it runs: none is due, and the outcome is the same |
| EventLoops.EventLoop.Call | ShipNet/utils/thread/EventLoop.cpp:15 | running a task submits, in order, what it asks to execute and to delay, each delay at its own clock reading |
| EventLoops.EventLoop.Execute | ShipNet/utils/thread/EventLoop.cpp:5-7 | the task goes to the back of the queue; tasks run followed by tasks queued remain the tasks submitted |
| EventLoops.EventLoop.Delay | ShipNet/utils/thread/EventLoop.cpp:9-11 | the entry goes to the back of the list with its due time in 32 bits; run and waiting entries remain the ones requested |
| EventLoops.EventLoop.ProceedImmediate | ShipNet/utils/thread/EventLoop.cpp:14-17 | the loop runs everything the theorem says, leaves no immediate task, and keeps both whole-run invariants |
| EventLoops.EventLoop.ProceedDelayed | ShipNet/utils/thread/EventLoop.cpp:20-29 | the walk runs and removes the due entries in place, keeps the others in order, and keeps both whole-run invariants |
| EventLoops.EventLoop.ProceedTasks | ShipNet/utils/thread/EventLoop.cpp:13-31 | one pass: all immediate tasks, then the delayed ones that are due, over the list the immediate tasks left |

## Left out

- ByteBuffers.ByteBufferImpl.ReadString: one memory image after the copied bytes stands for whatever follows them; a string without a zero anywhere in it is not modelled as a fault.
- ByteBuffers.ByteBufferImpl.WriteBytesOf: the scratch array is required to be long enough; in the source it has a fixed size and is not checked.
- ByteBuffers.ByteBufferImpl.WriteByteArray: the same scratch array is required to hold the input's bytes.
- ByteBuffers.ByteBufferImpl.WriteBytes: sizes and offsets are unbounded, so overflow of size_t and of the 32-bit copy index of bulk reads is not modelled.
- Codec.DecodeField: float, double, angle and UUID text forms are not among the fields; they reinterpret bits or round, or are not inverses of each other.
- ByteCounters.CountWrites: each byte array is held in a buffer of its own; a message that writes one buffer twice would find it empty the second time, which the counter does not notice.
- FramedPipes.FramedByteBytePipe.DecodeFrame: encoders and decoders are functions of the frame's bytes; codecs that keep state, fail half-way through their input or take other amounts than the frame are not modelled, and the size they return is taken to be the number of bytes appended.
- FramedPipes.FramedBytePacketPipe.Read: a packet is the bytes found for it; turning them into packet objects is not modelled.
- Connections.Connection.HandleNewBytes: the pipes and the reader buffer are held as values here, the states their objects are proved to reach, so aliasing between pipe buffers is not captured.
- Connections.Connection.Write: the packet's own writing is given by the bytes it wrote to the shared buffer, whose resets `SharedBuffers` is about; the fixed scratch array the bytes go through is not modelled.
- Sessions.HandedOn: pages after a bad frame are not handled, but a handler that fails does not end the run, though it closes the connection too.
- Flushes.PlainSessionExact: each flush is taken to reach the peer as one page; `Sessions` is about pages cut anywhere.
- Flushes.FlushedExact: the kernel takes every request whole; for other answers `Flushes.SessionOrderExact` says when the order is kept, but not what the pages of a disordered session are.
- Connections.Connection.Dispatch: a handler is a function of the packet's bytes; the callback table behind it and edits of the handler and pipe lists by ordinal are not modelled.
- Registries.RegisterAll: a run ends at id 2^31 - 1, where the signed counter overflows.
- Registries.ResizeAndSet: growth at an index within 8 of 2^32, where the new size wraps, is not modelled.
- VersionedRegistries.VersionedRegistry.VersionToOrdinal: versions below the first key are required away, because their slots are never initialised.
- VersionedRegistries.VersionedRegistry.GetOrdinalByID: a registry that was never set is required away, and a version below the first key.
- VersionedRegistries.VersionedRegistry.GetIDByOrdinal: the same.
- VersionedRegistries.VersionedRegistry.RegisterVersion: a version below the first key is required away.
- VersionedRegistries.VersionedRegistry.FillVersionRegistry: a lowest version below the first key is required away.
- EventLoops.EventLoop.ProceedDelayed: what a delayed task adds to the delayed list while it is being walked is not looked at in that walk; the C++ library leaves open whether it is, which matters only outside the case of `EventLoops.VisitingMakesNoDifference`.
- EventLoops.EventLoop.ProceedTasks: tasks that keep submitting tasks for ever are not modelled: a task is a finite tree of what it submits.
- Release of memory, adoption of chunks and the sharing copy constructor: chunks are garbage-collected arrays owned by their buffer.
- Epoll and kqueue loops, listeners, connectors, the ordinal registry's mutex, printing and the constructor registry: operating-system calls and plumbing.
