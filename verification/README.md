# Verified models of lighttpd's data structures, codecs and parsers

This project models the algorithmic cores of the bundled lighttpd 1.4.59 and of the cgi-io multipart parser in
Dafny and proves them against specifications of their own. Check everything with `dafny verify dfyconfig.toml`.

| module | what it models | its main results |
|---|---|---|
| SplayTree | top-down splay tree with size fields, on heap nodes | every run refines a finite map; sizes stay exact |
| HttpChunk, HttpChunkBlock, HttpChunkResponse | chunked coding of responses: encoder and block decoder | the methods compute a function of state and block, for every block; within the limits it follows a byte machine |
| HttpChunkSplit, HttpChunkCases | two blocks and one | exactly when they are treated alike; one input of each kind when not |
| HttpChunkFormat, HttpChunkSyntax, HttpChunkExact | the message format, size lines and limits | every message under every split; the round trip; exactly what is taken and what is refused |
| ChunkQueue | the linked list of memory and file chunks | every operation on the one byte sequence that the list stands for |
| ChunkPool | pools of unused chunks, memory lent to readers | reuse keeps lists apart; exactly when a chunk given back is still in use |
| RequestBody, RequestRead | chunked request bodies over two queues | the outcome is a function of the bytes alone; every arrival pattern; agreement with the response decoder |
| CondCache, CondMeaning | the cache of nested conditions with selective reset | agreement with evaluation; exactly when a reset suffices; what an evaluation means |
| PathSimplify, PathSegments | dot segments in place | the resolver for every text; its laws; no ".." is left |
| Burl, BurlRefused, BurlKept | percent-encoding in place | idempotence for all flags; exactly what is refused; what an accepted target keeps |
| DataArray | insertion order and sorted order of keyed entries | refines a map on keys up to case |
| Multipart, MultipartGrammar | the streaming parser | whole messages under every split; it ends on exactly the messages |
| BlockFold, Xxh32, Digest64, Sha1, Md5, HashVectors | buffered hashing | streaming equals one-shot; the SHA-1 transformation equals its definition |
| HttpDate | calendar to seconds, IMF-fixdate | equals the calendar's count, with its exact condition |
| Base64 | both alphabets | mutual inverses, exact acceptance |
| PollSlots | slots of the poll() array | slots and free list partition |

`Bytes` holds the byte type, the C searches (memchr, strchr on zero-terminated text) and the copies that several modules
use.

Each imperative core is a class or a method on arrays whose contract ties the new state to a specification
function; the laws are lemmas about that function. Decoders are compared with machines that read one byte at a
time, for which independence of segmentation is a simple law; where a decoder leaves its machine, a theorem about the
decoder's own function says when segmentation matters.

## Where code and documentation differ

- config_cond_clear_node says that with an unset node all that follows is unset. That holds for the blocks
  inside a node, but not for the next branch: inside a failed block an else branch is set to skipped while the
  branch before it was never looked at (configfile-glue.c:451-464). A later reset of the block's attribute stops
  at that unset branch and leaves the else branch skipped. `CondCache.StaleElse` is a concrete case;
  `CondCache.SafeExact` says exactly in which configurations every answer is right all the same, and
  `CondCache.ResetSuffices` exactly when nothing dependent is left in the cache.
- http_date_timegm follows an algorithm for all years, but rounds the era towards zero. `HttpDate.TimegmExact`
  gives the exact condition, with the days at which its ints overflow; going back, the first wrong dates are January
  and February of year 0 (`HttpDate.YearZero`).
- chunk.h:100-102 promises at least as much memory as asked for. chunk.c:475-493 lends one byte less when a new chunk
  has exactly that size; `ChunkPool.GetMemory` has the exact condition, `ChunkPool.WholeChunkAsked` a case.
- chunkqueue_use_memory expects an empty last chunk to be a new one (chunk.c:510-518). When an empty chunk was last before and
  nothing is read, the chunk is given back to the pool and stays in the queue; `ChunkPool.UseMemory` says exactly when, and
  `ChunkPool.PooledAndQueued` is a case. `RequestRead.ReceiveBody` reads and decodes a whole request without it: the
  queue never has a used-up chunk there.
- chunkqueue_peek_data reads a file behind empty chunks into the caller's buffer but leaves the result pointing at an
  empty chunk; `ChunkQueue.PeekExact` has the exact condition, `ChunkQueue.MisledPeek` is a case.
- SHA1_Update and li_MD5_Update add 32-bit lengths: right if and only if the bytes held and the new ones together are
  fewer than 2^32 (`Sha1.GuardExact`, `Md5.LoopEndsExact`; `Sha1.GuardWraps` and `Md5.LoopGoesOn` are cases).
- Trailers over the field limit end a chunked request body, and what has arrived of them is dropped (connections.c:1778-1812).
  So the end of such a body does depend on when the blank line arrives, though not its data: `RequestBody.Resume` and
  `RequestBody.OverlongInput`.
- buffer.c:806-812 says that a missing slash is put in front of a path. The code does not do that, and it may drop the
  first segment of such a text: `PathSimplify.StartsWithSlash` has the exact condition, `PathSimplify.NoSlashPut` and
  `PathSimplify.LetterLost` are cases. A second run changes nothing (t/test_buffer.c expects that of its texts) but in one case:
  `PathSimplify.SimplifyAgain`, `PathSimplify.DotLeft`.
- The result of the response decoder can depend on how the backend's bytes are split into blocks, on malformed input and on
  input over a limit: `HttpChunkSplit.SplitExact` says exactly when. There are five kinds, each with a case in `HttpChunkCases`: size
  lines over 1024 bytes (or over the field limit), trailers over the field limit, a zero byte in the last size line, bytes behind
  the end, and a last size line ended by LF alone. Within the limits nothing depends on it (`HttpChunkSplit.WithinLimits`).
- connections.c:1761 tests for a blank line right behind the last size line by comparing the line's newline with
  CR, which never holds. The search that follows finds the same place, so `RequestRead.FindEnd` has only the
  search.
- http_chunk.c:362 refuses sizes above 16 * (2^59 - 3) + 15, while the encoder would write any 64-bit size
  (`HttpChunkFormat.OwnSizeLine`).

## Model

| member | source | states |
|---|---|---|
| SplayTree.Compare | others/lighttpd-1.4.59/src/algo_splaytree.c:53-55 | the 32-bit difference orders keys and does not overflow for keys 0 to 2^31-1, the range of the hash that makes them |
| SplayTree.RotateRight | others/lighttpd-1.4.59/src/algo_splaytree.c:75-82 | right rotation of the current subtree, sizes corrected, search order kept |
| SplayTree.RotateLeft | others/lighttpd-1.4.59/src/algo_splaytree.c:89-96 | left rotation of the current subtree, sizes corrected, search order kept |
| SplayTree.LinkRight | others/lighttpd-1.4.59/src/algo_splaytree.c:83-86 | the current root moves to the tree of larger keys; the order of all three trees and the running size stay right |
| SplayTree.LinkLeft | others/lighttpd-1.4.59/src/algo_splaytree.c:97-100 | the same for the tree of smaller keys |
| SplayTree.Measure | others/lighttpd-1.4.59/src/algo_splaytree.c:105-121 | the two correction loops leave every size field on both paths equal to the node count that the final join will give it |
| SplayTree.Join | others/lighttpd-1.4.59/src/algo_splaytree.c:123-128 | the three trees are joined below the root, with links and sizes right everywhere |
| SplayTree.Splay | others/lighttpd-1.4.59/src/algo_splaytree.c:62-129 | the result is a valid search tree with the same nodes in the same order, exact sizes, and keys below i on the left of the root and above i on its right |
| SplayTree.SplayedRoot | others/lighttpd-1.4.59/src/algo_splaytree.c:59-62 | the key is in the map exactly when it is at the root afterwards; otherwise no key of the map lies between root and key |
| SplayTree.EntriesCount | others/lighttpd-1.4.59/src/algo_splaytree.c:105-121 | node count and cardinality of the map are the same, so the root's size is the map's |
| SplayTree.InsertedOk | others/lighttpd-1.4.59/src/algo_splaytree.c:142-160 | hanging the two halves below a new root adds exactly one entry |
| SplayTree.Insert | others/lighttpd-1.4.59/src/algo_splaytree.c:131-161 | refines insertion into a finite map that never overwrites; the key is at the root |
| SplayTree.RemovedOk | others/lighttpd-1.4.59/src/algo_splaytree.c:172-183 | joining the halves after a second splay removes exactly the root's entry |
| SplayTree.Delete | others/lighttpd-1.4.59/src/algo_splaytree.c:163-187 | refines removal from a finite map; an absent key changes no entry |
| SplayTree.Run | others/lighttpd-1.4.59/src/algo_splaytree.c:131-187 | every run of splay, insert and delete refines a finite map, and the root's size is its cardinality |
| Bytes.HexDigit | others/lighttpd-1.4.59/src/buffer.c:310-320 | a byte has a value exactly if it is one of 0-9, a-f and A-F, written out, and then its place among them |
| HttpChunk.HexChars | others/lighttpd-1.4.59/src/http_chunk.c:37 | the encoder's digits are 0123456789abcdef |
| HttpChunk.SizeOf | others/lighttpd-1.4.59/src/http_chunk.c:361-376 | a size line announces at most what fits 64 bits with its two extra bytes |
| HttpChunk.RunSplit | others/lighttpd-1.4.59/src/http_chunk.c:312-475 | the byte machine's state and output do not depend on how the input is cut |
| HttpChunk.ParseSize | others/lighttpd-1.4.59/src/http_chunk.c:361-376 | the two loops over a size line compute its size, or refuse it: no digit, too large, or a wrong byte behind the digits |
| HttpChunk.SizeLine | others/lighttpd-1.4.59/src/http_chunk.c:26-40 | the digits written backwards into a buffer are the hexadecimal size followed by CRLF |
| HttpChunkExact.DoneExact | others/lighttpd-1.4.59/src/http_chunk.c:312-475 | the machine is done right behind the last byte of exactly those inputs that are whole chunks and a last section, and has then passed on the chunks' data |
| HttpChunkExact.BadExact | others/lighttpd-1.4.59/src/http_chunk.c:361-376 | it refuses an input if and only if behind whole chunks a line announces no size, or data are followed by something else than CRLF |
| HttpChunkSyntax.SizeExact | others/lighttpd-1.4.59/src/http_chunk.c:361-376 | a size line announces v if and only if it begins with digits that write v, then blanks, then a CR or a semicolon, and v is at most 2^63 - 33 |
| HttpChunkSyntax.NoLeadingZero | others/lighttpd-1.4.59/src/http_chunk.c:34-38 | the encoder writes no leading zero |
| HttpChunkSyntax.LineLimit | others/lighttpd-1.4.59/src/http_chunk.c:324-359 | in one block a size line has any length, in two it is refused if and only if it has more than 1024 bytes |
| HttpChunkSyntax.TrailerLimit | others/lighttpd-1.4.59/src/http_chunk.c:398-402 | trailers are cut exactly when buffer and block together exceed the field limit |
| HttpChunkSyntax.CutLines | others/lighttpd-1.4.59/src/http_chunk.c:407-418 | what is left of them is the complete lines and one blank line |
| HttpChunkBlock.DecodeSound | others/lighttpd-1.4.59/src/http_chunk.c:312-475 | after every block that is taken the decoder's counter fits 64 bits, and a complete line in its buffer is the last chunk's |
| HttpChunkBlock.EndFollows | others/lighttpd-1.4.59/src/http_chunk.c:378-428 | within the limits the end of the trailers is found where the machine finds it, over any number of blocks |
| HttpChunkBlock.Follows | others/lighttpd-1.4.59/src/http_chunk.c:312-475 | for every block within the limits and every reachable state: refused exactly when the machine finds the input malformed, and otherwise taken with exactly the machine's output and state; the output before a refusal is the machine's too |
| HttpChunkSplit.LineExact | others/lighttpd-1.4.59/src/http_chunk.c:320-359 | when the first block ends inside a size line, two calls do what one does if and only if the line is not over a limit in a way that only one of them sees |
| HttpChunkSplit.EndExact | others/lighttpd-1.4.59/src/http_chunk.c:378-428 | when the last chunk's line is complete with the first block, the exact condition on the bytes behind it |
| HttpChunkSplit.SplitExact | others/lighttpd-1.4.59/src/http_chunk.c:312-475 | for every state and all blocks a and b, one call on a + b does what two calls on a and b do, if and only if they are not split-sensitive; the condition lists the guards: 1024 bytes in a line, the field limit, a zero byte, a bare LF, bytes behind the end |
| HttpChunkSplit.WithinLimits | others/lighttpd-1.4.59/src/http_chunk.c:312-475 | input within the limits is never split-sensitive |
| HttpChunkCases.LongLineSplit | others/lighttpd-1.4.59/src/http_chunk.c:324-338 | a size line of 1204 bytes is taken in one block and refused in two |
| HttpChunkCases.TrailersSplit | others/lighttpd-1.4.59/src/http_chunk.c:395-420 | bytes behind trailers over the limit are ignored in the same block and refused in the next |
| HttpChunkCases.ZeroByteSplit | others/lighttpd-1.4.59/src/http_chunk.c:339-359 | a zero byte in the last size line: the end is seen in one block, and not when the blank line comes in a second one |
| HttpChunkCases.ExcessSplit | others/lighttpd-1.4.59/src/http_chunk.c:378-427 | a zero byte behind the end is refused in one block and accepted when the body is cut behind the last size line |
| HttpChunkCases.BareLfSplit | others/lighttpd-1.4.59/src/http_chunk.c:378-427 | a last size line ended by LF alone: the end is seen in one block, and not when the blank line comes in a second one |
| HttpChunkCases.MalformedLine | others/lighttpd-1.4.59/src/http_chunk.c:361-376 | a size line that is malformed, with a zero byte behind the digits for one, is refused in one block and under every cut |
| HttpChunkResponse.Response.AppendMem | others/lighttpd-1.4.59/src/http_chunk.c:262-280 | an appended memory becomes one chunk of a chunked response, an empty one nothing |
| HttpChunkResponse.Response.Close | others/lighttpd-1.4.59/src/http_chunk.c:301-310 | a chunked response is closed with the last chunk; one that is passed through from a backend is left alone, and the connection ends if its end is missing |
| HttpChunkResponse.Response.TakeLine | others/lighttpd-1.4.59/src/http_chunk.c:320-359 | the search of the size line in the block, or across buffer and block, finds, keeps or refuses what the specification does |
| HttpChunkResponse.Response.EndTrailers | others/lighttpd-1.4.59/src/http_chunk.c:378-428 | the end of the message, waiting trailers, cut trailers and excess bytes as specified, with state, buffer and keep-alive |
| HttpChunkResponse.Response.Truncate | others/lighttpd-1.4.59/src/http_chunk.c:402-420 | trailers over the field limit end the message after the last complete line |
| HttpChunkResponse.Response.TakeHeader | others/lighttpd-1.4.59/src/http_chunk.c:320-436 | one iteration of the size-line branch is the specified pass |
| HttpChunkResponse.Response.TakeData | others/lighttpd-1.4.59/src/http_chunk.c:438-462 | chunk data and its CRLF, whole or in part, are passed on and checked as specified |
| HttpChunkResponse.Response.Rounds | others/lighttpd-1.4.59/src/http_chunk.c:318-470 | the loop over one block computes the block function |
| HttpChunkResponse.Response.DecodeAppendData | others/lighttpd-1.4.59/src/http_chunk.c:312-475 | for every block and every state: refused or taken as the block function says, with exactly its output, state, end and keep-alive |
| HttpChunkResponse.Response.DecodeAppendMem | others/lighttpd-1.4.59/src/http_chunk.c:551-567 | a response that is itself sent chunked receives the backend's bytes unchanged, any other the decoded bytes |
| HttpChunkResponse.Response.AppendPlain | others/lighttpd-1.4.59/src/http_chunk.c:532-549 | without chunked coding no more is passed on than the announced length, and the body ends with it |
| HttpChunkFormat.SizeLineValue | others/lighttpd-1.4.59/src/http_chunk.c:361-376 | every size line of the format is read as the number that its digits write |
| HttpChunkFormat.WellFormedDecodes | others/lighttpd-1.4.59/src/http_chunk.c:312-475 | every message of section 4.1 of RFC 7230 within the limits is decoded to the concatenation of its chunk data |
| HttpChunkFormat.DoneOnlyAtEnd | others/lighttpd-1.4.59/src/http_chunk.c:468-474 | before its last byte no such message is done or refused |
| HttpChunkFormat.DecodeMessage | others/lighttpd-1.4.59/src/http_chunk.c:312-475 | any split of such a message is accepted, its data appended, and the end reported with the last block and not before |
| HttpChunkFormat.OwnSizeLine | others/lighttpd-1.4.59/src/http_chunk.c:361-369 | the decoder takes the encoder's size line exactly up to the largest size that its guard lets pass |
| HttpChunkFormat.EncodedIsWellFormed | others/lighttpd-1.4.59/src/http_chunk.c:26-310 | what the encoder emits is a message of the format whose data is what was appended |
| HttpChunkFormat.Transmit | others/lighttpd-1.4.59/src/http_chunk.c:26-475 | round trip: appended memories, encoded, cut anywhere and decoded, are their concatenation |
| ChunkQueue.Queue.AppendChunk | others/lighttpd-1.4.59/src/chunk.c:321-325 | a chunk joins the end of the list, and last is the list's tail |
| ChunkQueue.Queue.AppendFile | others/lighttpd-1.4.59/src/chunk.c:342-374 | exactly the given range of a file is appended, nothing for an empty range |
| ChunkQueue.Queue.ExtendLast | others/lighttpd-1.4.59/src/chunk.c:376-386 | bytes are added to the last memory chunk when it has room, else nothing happens |
| ChunkQueue.Queue.AppendMem | others/lighttpd-1.4.59/src/chunk.c:400-408 | the bytes are appended and counted |
| ChunkQueue.Queue.AppendQueue | others/lighttpd-1.4.59/src/chunk.c:423-437 | all of the other queue's chunks and bytes move over; it is left empty with its counters equal |
| ChunkQueue.Queue.StealOne | others/lighttpd-1.4.59/src/chunk.c:556-599 | one iteration moves a prefix of the first chunk, whole or in part, or drops an empty one |
| ChunkQueue.Queue.Steal | others/lighttpd-1.4.59/src/chunk.c:555-600 | exactly the first min(n, length) bytes move, in order, and both queues count them |
| ChunkQueue.Queue.AppendMemToTempfile | others/lighttpd-1.4.59/src/chunk.c:639-732 | the bytes go to a growing temporary file, a new one when the last is closed, read from or large enough |
| ChunkQueue.Queue.StealWithTempfiles | others/lighttpd-1.4.59/src/chunk.c:734-793 | the same bytes move as with steal, and every chunk that joins is a file |
| ChunkQueue.Queue.MarkWritten | others/lighttpd-1.4.59/src/chunk.c:795-816 | exactly the first n bytes leave, and no used-up chunk is left at the front |
| ChunkQueue.Queue.RemoveFinished | others/lighttpd-1.4.59/src/chunk.c:818-823 | used-up chunks at the front go; the bytes stay |
| ChunkQueue.Queue.CompactMemOffset | others/lighttpd-1.4.59/src/chunk.c:839-849 | the first chunk's bytes move to the start of its buffer; the queue's bytes stay |
| ChunkQueue.Queue.Absorb | others/lighttpd-1.4.59/src/chunk.c:871-882 | one iteration of the merging loop moves bytes from the second chunk to the first without loss |
| ChunkQueue.Queue.CompactMem | others/lighttpd-1.4.59/src/chunk.c:851-885 | bytes and counters of an all-memory queue stay, and its first chunk gets at least min(clen, total) bytes |
| ChunkQueue.Queue.PeekData | others/lighttpd-1.4.59/src/chunk.c:1128-1199 | succeeds exactly when every file reached has something to read; then min(want, length) bytes are found, in a chunk's own buffer or in the caller's, and they are the queue's first bytes unless empty chunks precede a file with the first byte |
| ChunkQueue.PeekExact | others/lighttpd-1.4.59/src/chunk.c:1136-1196 | a peek shows the queue's first bytes if and only if none are wanted or the first byte is not a file's behind empty chunks; otherwise it shows what lies behind the empty chunk's string |
| ChunkQueue.MisledPeek | others/lighttpd-1.4.59/src/chunk.c:1136-1196 | an empty chunk before a file of one byte: the peek does not show that byte |
| ChunkQueue.GatheredRight | others/lighttpd-1.4.59/src/chunk.c:1136-1196 | the bytes shown chunk by chunk are the queue's prefix, but for that case, in which the first one comes from behind the empty chunk |
| ChunkQueue.Peekable | others/lighttpd-1.4.59/src/chunk.c:1136-1196 | queues of memory and queues without used-up chunks are always readable and never in that case |
| ChunkQueue.Queue.ReadData | others/lighttpd-1.4.59/src/chunk.c:1202-1214 | what a peek shows is handed over and exactly that prefix removed, or nothing when it fails or there are too few bytes |
| ChunkPool.LargestFirst | others/lighttpd-1.4.59/src/chunk.c:138-159 | the pool of large chunks is sorted, so its first chunk decides whether any is large enough |
| ChunkPool.InsertLarger | others/lighttpd-1.4.59/src/chunk.c:149-156 | a chunk put behind all larger ones keeps the pool sorted |
| ChunkPool.Pool.Acquire | others/lighttpd-1.4.59/src/chunk.c:232-249 | an empty chunk that is large enough and in no pool; a pooled one is reused exactly when one serves |
| ChunkPool.Pool.PushOversized | others/lighttpd-1.4.59/src/chunk.c:149-162 | a large chunk goes to its place in the sorted list, or is dropped when 64 are held |
| ChunkPool.Pool.Release | others/lighttpd-1.4.59/src/chunk.c:251-264 | the chunk is emptied and pooled by its size, or dropped |
| ChunkPool.GetMemory | others/lighttpd-1.4.59/src/chunk.c:475-493 | room behind the queue's bytes, which stay; as much as wanted if and only if the last chunk has it or the new chunk is larger than wanted |
| ChunkPool.WholeChunkAsked | others/lighttpd-1.4.59/src/chunk.c:475-493 | asked for 8192 bytes an empty queue lends 8191 |
| ChunkPool.UseMemory | others/lighttpd-1.4.59/src/chunk.c:495-519 | the bytes read are appended, a new chunk is merged or given back when it can be; the chunk given back is still in the queue exactly when nothing was read and the last chunk was an empty old one |
| ChunkPool.AppendDecoded | others/lighttpd-1.4.59/src/mod_wstunnel.c:989-1006 | the decoded bytes of a base64 frame are appended; a used-up chunk is left at the end if and only if there are none and the last chunk had no room for them |
| ChunkPool.PooledAndQueued | others/lighttpd-1.4.59/src/chunk.c:495-519 | behind a frame that was refused, a reader who reads nothing would leave the chunk first in the pool and last in the queue |
| ChunkPool.ReadOnce | others/lighttpd-1.4.59/src/connections.c:934-950 | one read appends a prefix of what arrives; queue and pool share no chunk, before and after, and no used-up chunk is left in the queue |
| ChunkPool.ReadCq | others/lighttpd-1.4.59/src/connections.c:931-976 | the loop of reads appends as much of what has arrived as is allowed, with all of that kept |
| RequestBody.LineAt | others/lighttpd-1.4.59/src/connections.c:1720-1756 | a readable size line is shorter than 1024 bytes and its size leaves room for two more |
| RequestBody.Resume | others/lighttpd-1.4.59/src/connections.c:1709-1869 | one call on all the bytes gives the body of two calls, and does exactly what they do if and only if the first did not end on overlong trailers or nothing came behind them |
| RequestBody.OverlongInput | others/lighttpd-1.4.59/src/connections.c:1772-1814 | a body that two calls end on overlong trailers and one call ends regularly |
| RequestBody.LimitKept | others/lighttpd-1.4.59/src/connections.c:1800-1811 | with a size limit, body and outstanding chunk together never exceed it |
| RequestBody.Agree | others/lighttpd-1.4.59/src/connections.c:1709-1869 | where the byte machine of the response decoder stays in the format, both pass on the same bytes and wait or finish at the same points, and what the machine finds malformed is refused, or waits for the second byte behind the data; only size lines of exactly 1024 bytes and sizes over the limit are refused here alone |
| RequestBody.Oversize | others/lighttpd-1.4.59/src/connections.c:1800-1811 | a request is refused with 400, or with 413 right behind the size line of a chunk that would exceed the limit |
| RequestBody.WholeBody | others/lighttpd-1.4.59/src/connections.c:1709-1869 | every well-formed chunked body within the limits is decoded to its data, and what follows is left unread |
| RequestBody.PartOfBody | others/lighttpd-1.4.59/src/connections.c:1709-1869 | until its last byte has come the decoder waits, having passed on exactly what was decodable |
| RequestRead.CqCompact | others/lighttpd-1.4.59/src/connections.c:1657-1671 | the first chunk grows by the next non-empty one, or the first chunk is all there is |
| RequestRead.Crlf | others/lighttpd-1.4.59/src/connections.c:1675-1705 | the two bytes behind chunk data are compared across chunk borders |
| RequestRead.FindEnd | others/lighttpd-1.4.59/src/connections.c:1768-1791 | the blank line after the trailers is found, across chunks, where the specification has it |
| RequestRead.TakeTrailers | others/lighttpd-1.4.59/src/connections.c:1758-1798 | nothing is consumed before the trailers are complete; trailers over the limit end the body |
| RequestRead.TakeSizeLine | others/lighttpd-1.4.59/src/connections.c:1722-1817 | a size line is refused, ends the body, exceeds the limit or starts a chunk, as specified |
| RequestRead.ReadSizeLine | others/lighttpd-1.4.59/src/connections.c:1717-1835 | the loop over the first chunk computes the specified outcome for the whole queue |
| RequestRead.MoveData | others/lighttpd-1.4.59/src/connections.c:1838-1850 | as much of the chunk's data as there is moves to the body queue; it stays in memory up to 64 KiB and goes to files beyond |
| RequestRead.TakeCrlf | others/lighttpd-1.4.59/src/connections.c:1852-1865 | the CRLF behind the data is consumed, missing, or wrong, as specified |
| RequestRead.ReadChunked | others/lighttpd-1.4.59/src/connections.c:1708-1869 | the outcome, both queues and the kept size are a function of the unread bytes alone, and the size limit is kept |
| RequestRead.FurtherCall | others/lighttpd-1.4.59/src/connections.c:1708-1869 | a further call on a well-formed body gives all data decodable so far, and ends exactly with the last byte |
| RequestRead.Arrive | others/lighttpd-1.4.59/src/connections.c:1936-1967 | after one more read into memory lent by the queue the body queue holds exactly the data decodable so far, and no chunk is shared with the pool |
| RequestRead.TakeLength | others/lighttpd-1.4.59/src/connections.c:1969-1983 | what is missing of a body of announced length moves over, no more; in files exactly for bodies of more than 64 KiB; ready exactly when all has |
| RequestRead.ReceiveLength | others/lighttpd-1.4.59/src/connections.c:1936-1983 | for every arrival pattern the body queue holds exactly the part of the body that has arrived, it is ready with its last byte, and later bytes stay in order |
| RequestRead.ReceiveBody | others/lighttpd-1.4.59/src/connections.c:1961-1983 | for every arrival pattern: the data in the body queue, its length as the body's length, and later bytes in order in the read queue |
| CondMeaning.EvalExact | others/lighttpd-1.4.59/src/configfile-glue.c:433-525 | without evaluating: a condition is true if and only if it and every block around it are known to hold and no earlier branch of any of them is; likewise when it is false, skipped or undecided |
| CondMeaning.UnknownUnread | others/lighttpd-1.4.59/src/configfile-glue.c:489-496 | nothing depends on how a comparison would come out whose attribute is not known yet |
| CondCache.CheckAgrees | others/lighttpd-1.4.59/src/configfile-glue.c:356-378 | with a cache in agreement a check returns the evaluation without memory and keeps the agreement |
| CondCache.CheckOrdered | others/lighttpd-1.4.59/src/configfile-glue.c:433-487 | a set entry has its block set and, unless that failed, its previous branch; every check keeps that |
| CondCache.KnowMore | others/lighttpd-1.4.59/src/configfile-glue.c:489-495 | attributes that become known leave the cache valid |
| CondCache.ClearSweeps | others/lighttpd-1.4.59/src/configfile-glue.c:663-677 | clearing an entry clears all that follows from it as far as entries are set, and nothing else |
| CondCache.ResetClears | others/lighttpd-1.4.59/src/configfile-glue.c:684-698 | the selective reset unsets exactly the entries reached over set entries from one of its kind |
| CondCache.ResetSuffices | others/lighttpd-1.4.59/src/configfile-glue.c:661-698 | it clears every dependent result if and only if no dependent entry is set while the one before it is unset |
| CondCache.ResetAgrees | others/lighttpd-1.4.59/src/configfile-glue.c:684-698 | after a change of one attribute and its reset the cache agrees again, if no result that is set over an unset node lies in a block that depends on the attribute |
| CondCache.LeftIsSkipped | others/lighttpd-1.4.59/src/configfile-glue.c:661-698 | a dependent result that the reset leaves set is skipped before and after the change, for an independent block around it failed |
| CondCache.RunAgrees | others/lighttpd-1.4.59/src/configfile-glue.c:356-698 | every run of checks, new attributes and changes of safe attributes keeps cache and evaluation in agreement |
| CondCache.EveryAnswer | others/lighttpd-1.4.59/src/configfile-glue.c:653-659 | in such runs every answer is the one evaluated without memory |
| CondCache.SafeExact | others/lighttpd-1.4.59/src/configfile-glue.c:661-698 | every answer is right in every request in which the attribute changes if and only if no later branch on another attribute is nested in a block that depends on it |
| CondCache.CanTurn | others/lighttpd-1.4.59/src/configfile-glue.c:433-487 | otherwise there are two requests that differ in the attribute only, in the first of which the block fails and in the second the branch is active |
| CondCache.GoesWrong | others/lighttpd-1.4.59/src/configfile-glue.c:661-698 | a check, the change and its reset then leave the branch skipped although it is active |
| CondCache.BranchSkipped | others/lighttpd-1.4.59/src/configfile-glue.c:451-464 | a branch in a failed block is skipped without a look at the branch before it |
| CondCache.StaleElse | others/lighttpd-1.4.59/src/configfile-glue.c:661-698 | concrete configuration and request in which the reset leaves an else branch skipped that is now active |
| CondCache.Request.CheckCached | others/lighttpd-1.4.59/src/configfile-glue.c:371-378 | the recursive method refines the cache function |
| CondCache.Request.Nocache | others/lighttpd-1.4.59/src/configfile-glue.c:433-506 | block first, then previous branch, then the local comparison or its remembered result |
| CondCache.Request.CheckCond | others/lighttpd-1.4.59/src/configfile-glue.c:653-659 | the answer is that of the evaluation without memory |
| CondCache.Request.ClearNode | others/lighttpd-1.4.59/src/configfile-glue.c:663-677 | the recursion over first branches and the next branch refines the clearing function; it terminates on the index |
| CondCache.Request.ResetItem | others/lighttpd-1.4.59/src/configfile-glue.c:684-698 | refines the reset, and restores agreement under that condition |
| PathSimplify.ResolveLength | others/lighttpd-1.4.59/src/buffer.c:825-913 | the segment resolver never lengthens a path and changes it exactly when a segment is dotted or empty inside |
| PathSimplify.DottedExact | others/lighttpd-1.4.59/src/buffer.c:825-913 | a path is changed if and only if it has such a segment |
| PathSimplify.SimplifyTwice | others/lighttpd-1.4.59/src/buffer.c:806-824 | simplified paths start with a slash and are left alone |
| PathSimplify.StartsWithSlash | others/lighttpd-1.4.59/src/buffer.c:806-824 | the result for a text that is not empty starts with a slash if and only if the text does, or its first segment is a single letter before more, or that segment is dropped before the last one |
| PathSimplify.SimplifyAgain | others/lighttpd-1.4.59/src/buffer.c:825-913 | a second run changes nothing, for all texts, unless a first segment that starts with a dot was dropped by the last segment |
| PathSegments.NoDots | others/lighttpd-1.4.59/src/buffer.c:806-913 | for every text no segment of the result is '..', the first included, and one is '.' exactly when a first segment that starts with a dot is dropped by the last one |
| PathSegments.StrippedIs | others/lighttpd-1.4.59/src/buffer.c:854-863 | exactly leading spaces and then a first segment '.' or '..' are stripped |
| PathSegments.SimplifyLaws | others/lighttpd-1.4.59/src/buffer.c:882-905 | '..' takes back exactly the segment before it, and nothing at the root; '.' and the empty segment go |
| PathSegments.SimplifyEnds | others/lighttpd-1.4.59/src/buffer.c:813-814 | at the end of a path '..' and '.' leave a slash |
| PathSimplify.NoSlashPut | others/lighttpd-1.4.59/src/buffer.c:864-912 | 'ab' is left without a slash |
| PathSimplify.LetterLost | others/lighttpd-1.4.59/src/buffer.c:882-905 | 'a/b' becomes '/b' |
| PathSimplify.DotLeft | others/lighttpd-1.4.59/src/buffer.c:882-905 | '.a/..' becomes '.', and that the empty text |
| PathSimplify.DropSegment | others/lighttpd-1.4.59/src/buffer.c:884-895 | the backward walk stops at the slash before the last segment of the output, or at its start |
| PathSimplify.FinishToken | others/lighttpd-1.4.59/src/buffer.c:882-909 | a complete segment is kept or resolved away, with a slash, or the first letter of a dropped base, at the end |
| PathSimplify.SimplifyFrom | others/lighttpd-1.4.59/src/buffer.c:864-912 | for every text the in-place loop computes the resolver's result; the output never passes the byte read next |
| PathSimplify.SimplifyInPlace | others/lighttpd-1.4.59/src/buffer.c:825-913 | for every buffer: the text up to its zero byte, stripped of spaces and a leading dot segment, is resolved in place |
| PathSimplify.NeedsSimplify | others/lighttpd-1.4.59/src/burl.c:291-306 | the scan finds exactly the dotted and the inner empty segments that a text has behind a slash put in front |
| PathSegments.ScanSegments | others/lighttpd-1.4.59/src/burl.c:291-306 | the scan finds exactly a segment '.' or '..', or an empty one that is not the last |
| PathSimplify.ScanExact | others/lighttpd-1.4.59/src/burl.c:291-306 | for a path the scan asks for simplification if and only if it would change the path |
| PathSimplify.ScanPasses | others/lighttpd-1.4.59/src/burl.c:291-306 | without a leading slash it need not: the scan passes over 'a/b' |
| Burl.UpperDigits | others/lighttpd-1.4.59/src/burl.c:15 | escapes are written with 0123456789ABCDEF |
| BurlRefused.LiteralsAre | others/lighttpd-1.4.59/src/burl.c:17-39 | the bytes that are never escaped, as a list of characters |
| BurlRefused.DecodedAre | others/lighttpd-1.4.59/src/burl.c:58-94 | which escapes are decoded, in the path and in the query, as lists of characters |
| BurlRefused.RefusedExact | others/lighttpd-1.4.59/src/burl.c:325-370 | for every target and all flags: refused if and only if it stands for an invalid UTF-8 byte, or, where that is not allowed, for a control character, has an escaped slash in its path, or a dotted path |
| BurlKept.PassesKeep | others/lighttpd-1.4.59/src/burl.c:222-288 | decoding escaped slashes keeps the bytes of the path, writing spaces as plus signs those of the query |
| BurlKept.Accepted | others/lighttpd-1.4.59/src/burl.c:325-370 | an accepted target keeps, without its fragment, what its path stands for, up to the removal of dot segments, and what its query stands for |
| Burl.BasicNormal | others/lighttpd-1.4.59/src/burl.c:58-94 | an accepted pass leaves only literals and upper-case escapes that must stay, and returns where the query starts |
| Burl.BasicFixed | others/lighttpd-1.4.59/src/burl.c:97-126 | the pass leaves such text alone |
| Burl.BasicDecodes | others/lighttpd-1.4.59/src/burl.c:58-94 | the percent-decoded bytes up to the first # are kept |
| Burl.ReplaceNormal | others/lighttpd-1.4.59/src/burl.c:245-270 | replacing an escape changes exactly that escape, and nothing where it does not occur |
| Burl.CtrlNormal | others/lighttpd-1.4.59/src/burl.c:209-219 | the check finds exactly the escaped control characters |
| Burl.ResolveNormal | others/lighttpd-1.4.59/src/burl.c:308-319 | removing dot segments keeps percent-encoding normal |
| Burl.NormalizeStable | others/lighttpd-1.4.59/src/burl.c:325-370 | an accepted target, with a leading slash if dot segments are to go, comes out in final form, for every combination of flags |
| Burl.StableFixed | others/lighttpd-1.4.59/src/burl.c:325-370 | a target in final form is accepted and left alone |
| Burl.Idempotent | others/lighttpd-1.4.59/src/burl.c:325-370 | normalising an accepted target again changes neither text nor return value |
| Burl.Buffer.BasicFix | others/lighttpd-1.4.59/src/burl.c:58-94 | the rewriting loop from any position is the pass on the rest |
| Burl.Buffer.BasicScan | others/lighttpd-1.4.59/src/burl.c:97-126 | the fast scan with in-place upper-casing equals rewriting from the start |
| Burl.Buffer.ContainsCtrls | others/lighttpd-1.4.59/src/burl.c:209-219 | the loop decides whether some position matches |
| Burl.Buffer.ReplaceFrom | others/lighttpd-1.4.59/src/burl.c:222-235 | the in-place rewriting loop replaces every occurrence |
| Burl.Buffer.TwoFToSlash | others/lighttpd-1.4.59/src/burl.c:254-288 | escaped slashes of the path are decoded or refused and the query moves along |
| Burl.Buffer.NormalizePath | others/lighttpd-1.4.59/src/burl.c:291-322 | dot segments are removed or refused, in the path only |
| Burl.Buffer.Qs20ToPlus | others/lighttpd-1.4.59/src/burl.c:238-251 | escaped spaces of the query become plus signs |
| Burl.Buffer.NormalizeUrl | others/lighttpd-1.4.59/src/burl.c:325-370 | the passes in place refine the specification |
| DataArray.LowerIs | others/lighttpd-1.4.59/src/array.c:87-91 | exactly A to Z are folded, each to its small letter |
| DataArray.LessIs | others/lighttpd-1.4.59/src/array.c:80-97 | shorter keys come first, then the smaller folded byte at the first difference |
| DataArray.MergedIs | others/lighttpd-1.4.59/src/data_string.c:29-43 | a further value is joined with a comma and a space, a first one is copied |
| DataArray.KeyOrder | others/lighttpd-1.4.59/src/array.c:80-114 | the comparison is a strict order on keys up to case |
| DataArray.CaselessCompare | others/lighttpd-1.4.59/src/array.c:80-97 | the loop has the sign of the comparison of lower-cased keys |
| DataArray.LocatedIsLookup | others/lighttpd-1.4.59/src/array.c:165-195 | binary search finds a key exactly when a walk through data would |
| DataArray.DataArray.GetIndex | others/lighttpd-1.4.59/src/array.c:165-195 | the position of the key, or the place where it belongs |
| DataArray.DataArray.GetElement | others/lighttpd-1.4.59/src/array.c:197-208 | the entry of the map, or null exactly when no entry of data has the key |
| DataArray.InsertedAt | others/lighttpd-1.4.59/src/array.c:246-270 | an entry put at that place keeps the order and adds one key to the map |
| DataArray.RemovedAt | others/lighttpd-1.4.59/src/array.c:214-220 | an entry taken out keeps the order and removes its key |
| DataArray.ReplacedAt | others/lighttpd-1.4.59/src/array.c:344-349 | an entry with an equal key can take its place |
| DataArray.DataArray.InsertDataAtPos | others/lighttpd-1.4.59/src/array.c:248-270 | the entry goes to the end of data and to its place in sorted |
| DataArray.DataArray.GetBufPtr | others/lighttpd-1.4.59/src/array.c:313-322 | refines get-or-insert on the map |
| DataArray.DataArray.FindOrInsert | others/lighttpd-1.4.59/src/array.c:332-348 | an entry is found or inserted |
| DataArray.DataArray.Replace | others/lighttpd-1.4.59/src/array.c:351-367 | refines replacement on the map; data keeps its order |
| DataArray.DataArray.InsertUnique | others/lighttpd-1.4.59/src/array.c:369-376 | an absent key is added; for a present one only that entry's value grows |
| DataArray.DataArray.Extract | others/lighttpd-1.4.59/src/array.c:210-231 | refines removal from the map; the last entry of data takes the place of the removed one |
| Multipart.NameBytes | cgi/cgi-io/src/multipart_parser.c:161-181 | a header name goes on exactly with a letter in either case or a hyphen |
| MultipartGrammar.EndsExact | cgi/cgi-io/src/multipart_parser.c:111-309 | the machine comes to the end of the body on exactly the messages |
| MultipartGrammar.FailsExact | cgi/cgi-io/src/multipart_parser.c:111-309 | it fails exactly where no message begins with what has come |
| Multipart.RunSplit | cgi/cgi-io/src/multipart_parser.c:111-309 | events and state do not depend on how the input is cut |
| Multipart.DataRun | cgi/cgi-io/src/multipart_parser.c:226-262 | exactly what may begin a delimiter is held back, everything before it is reported |
| Multipart.PartData | cgi/cgi-io/src/multipart_parser.c:226-270 | the data of a part is the input up to the first delimiter |
| Multipart.MessageRun | cgi/cgi-io/src/multipart_parser.c:111-309 | a message (section 5.1.1 of RFC 2046) is reported part by part with exactly the data of each |
| Multipart.Parser.Plain | cgi/cgi-io/src/multipart_parser.c:119-203 | one byte outside a part's data follows the machine |
| Multipart.Parser.DataByte | cgi/cgi-io/src/multipart_parser.c:212-233 | data is reported at a CR and at the end of the buffer, none twice, none lost |
| Multipart.Parser.AlmostBoundaryByte | cgi/cgi-io/src/multipart_parser.c:235-245 | a byte other than LF is taken again as data after the held CR |
| Multipart.Parser.BoundaryByte | cgi/cgi-io/src/multipart_parser.c:247-261 | a byte that breaks off the match is taken again after the held bytes |
| Multipart.Parser.Execute | cgi/cgi-io/src/multipart_parser.c:111-309 | refines the machine from every state, stops exactly where it fails, and terminates although it steps back |
| Multipart.Parse | cgi/cgi-io/src/multipart_parser.c:111-309 | any cut of a message gives exactly its parts |
| HashVectors.Xxh32Vectors | others/lighttpd-1.4.59/src/algo_xxhash.h:1369-1405 | the published digests of two texts, the first over two blocks and a tail |
| BlockFold.Grow | others/lighttpd-1.4.59/src/algo_xxhash.h:1461-1520 | a growing message needs only its left-over bytes and the new ones |
| Xxh32.FinalizeLoop | others/lighttpd-1.4.59/src/algo_xxhash.h:1290-1315 | the rolled loop computes the tail |
| Xxh32.FinalizeUnrolled | others/lighttpd-1.4.59/src/algo_xxhash.h:1290-1357 | the unrolled switch computes the same tail for every length |
| Xxh32.OneShot | others/lighttpd-1.4.59/src/algo_xxhash.h:1369-1405 | the one-shot function is the hash of the message |
| Xxh32.State.Update | others/lighttpd-1.4.59/src/algo_xxhash.h:1461-1520 | the state after any bytes represents them, the length modulo 2^32 |
| Xxh32.State.Digest | others/lighttpd-1.4.59/src/algo_xxhash.h:1523-1541 | the digest is the hash of all bytes |
| Xxh32.Stream | others/lighttpd-1.4.59/src/algo_xxhash.h:1447-1541 | any split into updates gives the one-shot hash |
| HashVectors.PaddedAbc | others/lighttpd-1.4.59/src/algo_sha1.c:152-166 | the padded form of abc |
| HashVectors.ScheduleAbc | others/lighttpd-1.4.59/src/algo_sha1.c:46-54 | words of its schedule as appendix A.1 of FIPS 180-2 has them |
| HashVectors.StepsTo20 | others/lighttpd-1.4.59/src/algo_sha1.c:57-61 | the first and the last of the first twenty steps of that example |
| HashVectors.StepsTo40 | others/lighttpd-1.4.59/src/algo_sha1.c:57-61 | likewise to 40 |
| HashVectors.StepsTo60 | others/lighttpd-1.4.59/src/algo_sha1.c:57-61 | likewise to 60 |
| HashVectors.StepsTo80 | others/lighttpd-1.4.59/src/algo_sha1.c:57-61 | likewise to 80 |
| HashVectors.DigestAbc | others/lighttpd-1.4.59/src/algo_sha1.c:105-110 | the sum that is the published digest |
| Sha1.SameFunctions | others/lighttpd-1.4.59/src/algo_sha1.c:57-61 | the code's forms of the round functions are those of section 5 of RFC 3174 |
| Sha1.Schedule | others/lighttpd-1.4.59/src/algo_sha1.c:46-54 | the word computed in place in 16 words is that of the 80-word schedule |
| Sha1.MacroIsStep | others/lighttpd-1.4.59/src/algo_sha1.c:57-61 | a round macro is a step of the definition |
| Sha1.Macro | others/lighttpd-1.4.59/src/algo_sha1.c:57-61 | a macro call leaves the variables of the next step, one place further |
| Sha1.Transform | others/lighttpd-1.4.59/src/algo_sha1.c:68-113 | the calls with their rotating arguments are the compression of sections 6.1 and 6.2 of RFC 3174 |
| Digest64.CountAdds | others/lighttpd-1.4.59/src/algo_sha1.c:131-133 | the two count words hold the number of bits modulo 2^64 over every update |
| Digest64.PaddedWhole | others/lighttpd-1.4.59/src/algo_sha1.c:160-166 | the padded message is a whole number of blocks |
| Sha1.GuardExact | others/lighttpd-1.4.59/src/algo_sha1.c:131-135 | what is copied fits the buffer if and only if the 32-bit sum of held and new bytes does not wrap |
| Sha1.GuardWraps | others/lighttpd-1.4.59/src/algo_sha1.c:131-135 | one byte held and 2^32 - 1 to come |
| Md5.LoopEndsExact | others/lighttpd-1.4.59/src/algo_md5.c:138-162 | the loop over whole blocks ends if and only if that sum does not wrap |
| Md5.LoopGoesOn | others/lighttpd-1.4.59/src/algo_md5.c:138-162 | the same input never ends the loop |
| Digest64.Context.Update | others/lighttpd-1.4.59/src/algo_sha1.c:127-146 | the context after any update represents all bytes so far |
| Sha1.Final | others/lighttpd-1.4.59/src/algo_sha1.c:149-174 | padding byte by byte ends, and gives the hash of the padded whole |
| Sha1.Sha1 | others/lighttpd-1.4.59/src/algo_sha1.c:116-174 | any split into updates gives the hash of the concatenation |
| Md5.Encode | others/lighttpd-1.4.59/src/algo_md5.c:294-304 | words become bytes, least significant first |
| Md5.Decode | others/lighttpd-1.4.59/src/algo_md5.c:309-316 | decoding undoes encoding |
| Md5.Final | others/lighttpd-1.4.59/src/algo_md5.c:174-197 | the padding in one piece gives the fold over the padded whole |
| Md5.Md5 | others/lighttpd-1.4.59/src/algo_md5.c:118-197 | any split into updates gives the fold over the padded concatenation, for every block function |
| HttpDate.CivilDaysIs | others/lighttpd-1.4.59/src/http_date.c:283-291 | the day formula is the calendar's count, but for one day too many before March of year 0 outside leap years |
| HttpDate.TimegmExact | others/lighttpd-1.4.59/src/http_date.c:279-296 | the conversion is right if and only if the day count fits into C ints and the March year is not negative or a leap year; otherwise an int overflows or the result is a day late |
| HttpDate.IntsFitExact | others/lighttpd-1.4.59/src/http_date.c:283-293 | no int overflows on the way if and only if the day count lies between -2^31 and 2^31 - 719469 |
| HttpDate.LastDay | others/lighttpd-1.4.59/src/http_date.c:283-293 | the last day is the 9th of September of the year 5879610, and the next one overflows |
| HttpDate.OneDayLater | others/lighttpd-1.4.59/src/http_date.c:279-296 | from year 1 on the next day is 86400 seconds later, over ends of months and years, until it overflows |
| HttpDate.Monotone | others/lighttpd-1.4.59/src/http_date.c:279-296 | later dates give larger numbers, up to the last day that fits |
| HttpDate.AtEpoch | others/lighttpd-1.4.59/src/http_date.c:279-296 | 1970-01-01 00:00:00 is 0 |
| HttpDate.YearZero | others/lighttpd-1.4.59/src/http_date.c:279-296 | 29 February and 1 March of year 0 are given the same second |
| HttpDate.DayNames | others/lighttpd-1.4.59/src/http_date.c:36-37 | the names of the days |
| HttpDate.MonthNames | others/lighttpd-1.4.59/src/http_date.c:36-37 | the names of the months to June |
| HttpDate.MoreMonthNames | others/lighttpd-1.4.59/src/http_date.c:36-37 | and from July |
| HttpDate.Example | others/lighttpd-1.4.59/src/http_date.c:155-208 | the text of section 7.1.1.1 of RFC 7231 is the form of its date |
| HttpDate.FindName | others/lighttpd-1.4.59/src/http_date.c:168-173 | the loop over a table finds the first name that matches |
| HttpDate.ParseImf | others/lighttpd-1.4.59/src/http_date.c:155-208 | exactly the texts of the format are accepted, and the date that they write is found |
| Base64.Alphabet | others/lighttpd-1.4.59/src/base64.c:11-12 | the characters are those of the tables as they are written |
| Base64.Reversed | others/lighttpd-1.4.59/src/base64.c:13-38 | below 128 exactly those characters are digits, with their place as value; blanks and control characters are skipped |
| Base64.Vectors | others/lighttpd-1.4.59/src/base64.c:124-183 | a vector of section 10 of RFC 4648, and one in the other alphabet |
| Base64.DecodeReads | others/lighttpd-1.4.59/src/base64.c:40-101 | blanks make no difference, and what follows padding or a zero byte is not read |
| Base64.MergeSplit | others/lighttpd-1.4.59/src/base64.c:40-183 | regrouping eight bits into six and back is the identity |
| Base64.SplitMerge | others/lighttpd-1.4.59/src/base64.c:40-183 | regrouping accepted digits into bytes and back is the identity |
| Base64.MergeAccepts | others/lighttpd-1.4.59/src/base64.c:102-117 | digits are accepted if and only if no single digit and no bits are left over |
| Base64.EncodeNoPadding | others/lighttpd-1.4.59/src/base64.c:124-183 | the characters are those of the digits |
| Base64.EncodePadded | others/lighttpd-1.4.59/src/base64.c:185-215 | padding completes the last group |
| Base64.Decode | others/lighttpd-1.4.59/src/base64.c:40-122 | the loop over places in a group computes the specified bytes or refuses, within its buffer |
| Base64.DecodeEncoded | others/lighttpd-1.4.59/src/base64.c:40-215 | decoding undoes encoding, with and without padding, in both alphabets |
| Base64.EncodeDecoded | others/lighttpd-1.4.59/src/base64.c:40-183 | text of digits decodes exactly under that condition, and encodes back to itself |
| Base64.RoundTrip | others/lighttpd-1.4.59/src/base64.c:40-215 | what is encoded is decoded |
| PollSlots.Events.Parted | others/lighttpd-1.4.59/src/fdevent_poll.c:26-78 | every slot is on the stack, once, or belongs to exactly one node whose descriptor and events it holds |
| PollSlots.Events.PollSet | others/lighttpd-1.4.59/src/fdevent_poll.c:47-78 | an update in place, a slot from the stack, or a new one |
| PollSlots.Events.PollDel | others/lighttpd-1.4.59/src/fdevent_poll.c:26-45 | the slot is marked free and pushed |
| PollSlots.Events.Register | others/lighttpd-1.4.59/src/fdevent.c:283-297 | a new node without slot; the partition is kept if and only if a node that it replaces has no slot |
| PollSlots.Events.Unregister | others/lighttpd-1.4.59/src/fdevent.c:299-304 | a node goes; the partition is kept if and only if it had no slot |
| PollSlots.Events.SetEvents | others/lighttpd-1.4.59/src/fdevent.c:407-417 | the partition is kept and the node's events are those of its slot |
| PollSlots.Events.Unset | others/lighttpd-1.4.59/src/fdevent.c:374-381 | the partition is kept and the node has no slot |
| PollSlots.Events.Run | others/lighttpd-1.4.59/src/fdevent.c:283-417 | every run of the operations in the order that their callers keep preserves the partition |

## Left out

- Sockets, processes, ubus and tables of `src/httpd.c` and `cgi/cgi-io/src/main.c`; TLS, HTTP/2, timeouts and the connection state machine.
- Memory: allocation never fails, and freed chunks and nodes are dropped.
- ChunkQueue.Acquire: always makes a new chunk, and chunks that leave a queue are dropped; `ChunkPool.Pool.Acquire` and `ChunkPool.Pool.Release` show that a reused chunk is just as empty, large enough and in no other list, and reading uses them. The list of spare chunk headers (chunk_buffer_acquire and _release) is left out.
- Counters of queues and the length of messages are unbounded integers; 32-bit and 64-bit words are modelled where wrap-around is visible (te_chunked, hash words, bit counts, the length in XXH32, the 32-bit line limit).
- File chunks are byte ranges: descriptors, mmap, sendfile, reference counts and errors of temporary files are left out; writes to temporary files succeed in one piece.
- The open/commit pairs other than chunkqueue_get_memory and chunkqueue_use_memory, chunkqueue_remove_empty_chunks, chunkqueue_small_resp_optim and the writing of chunks.
- ChunkQueue.Queue.PeekData: opening a file, seeking and reading succeed, and a read delivers all that it is asked for; where the code reads behind a chunk's string, that memory is a parameter.
- HttpChunkSplit.SplitExact: two ends of a message count as the same when both kept trailer sections hold no trailers; the code clears the buffer in its common case, and its users treat both alike. Blocks have fewer than 2^63 bytes.
- http_chunk_append_buffer and the branches that write to temporary files; bodies from buffers are decoded by the same function.
- RequestRead.ReceiveBody: size lines are below 1024 bytes. Bodies of unspecified length only call append, which is proved on its own; HTTP/2, the Expect header and errors of reads are left out.
- CondCache.Linked: blocks that are opened again elsewhere and chained a second time are left out; local comparisons (strings, PCRE, addresses) are an arbitrary truth value per node and attribute; captures of matches are not kept.
- Burl.NormalizeStable: with dot-segment flags about targets that start with a slash, as the caller ensures (request.c:618, 911), and so are `Burl.StableFixed` and `Burl.Idempotent`; the passes and `Burl.Buffer.NormalizeUrl` are modelled for all targets. The translation of backslashes on Windows is left out.
- DataArray: keyed entries only; entries without key, ext-keyed entries, reuse of unused slots and the free and copy functions are left out. An entry has its key when it is inserted.
- Multipart: callbacks for header names and values, whose data does depend on the split, and callbacks that return non-zero.
- Digest64.Context.Update: requires that the code's 32-bit sum of held and new bytes does not wrap, beyond which the code fails (`Sha1.GuardExact`, `Md5.LoopEndsExact`); the bytes of the final digest words and the wiping of contexts are left out.
- Md5: the block transformation is a parameter.
- HttpDate: asctime and RFC 850 dates, strftime; times of day are not checked by the parser, nor here; long has 64 bits.
- Base64: shifts and disjoint ors of the code are sums and products.
- The pool of connections (connections_get_new_connection, connection_del): swapping array entries, an easier case of `PollSlots` and `DataArray`.
- PollSlots: descriptors scheduled for closing, poll() itself, and the other event back ends.
- The hash that makes keys for the splay tree (splaytree_djbhash), UTF-8 validation, number formatting and the other encoders of buffer.c: they would add easier members.
