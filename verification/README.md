# libhv: a verified model of its event, protocol and data-structure code

The application in this repository is a thin client; what is hard to get right lies in the vendored library
`lib/libhv`. This project models seven parts of that library in Dafny and proves what they are for. Code that
changes things in place is modelled by classes and methods over the same fields; every such method is tied to a
specification on values (a tree, a sequence, a map, a byte-step machine), and the laws are proved about those values.

| part | files of the library | modules |
|---|---|---|
| Red-black tree with parent pointers | `base/rbtree.c`, `base/rbtree.h` | `RbShape`, `RbBalance`, `RbErasing`, `RbTree`, `RbWalk` |
| Address map on that tree | `event/rudp.c` | `Rudp` |
| HTTP/1 push parser | `http/http_parser.c` | `HttpChars`, `HttpStep`, `HttpTrace`, `HttpInvariant`, `HttpWords`, `HttpMethods`, `HttpNumbers`, `HttpBody`, `HttpTargets`, `HttpLines`, `HttpOptions`, `HttpMessages`, `HttpMarks`, `HttpLimit`, `HttpParser`, `HttpSizes`, `HttpReplies`, `HttpFraming`, `HttpTolerance`, `HttpExact` |
| WebSocket codec, both ends | `http/websocket_parser.c`, `http/wsdef.c`, `http/WebSocketParser.cpp`, `http/WebSocketChannel.cpp` | `WsSpec`, `WsParser`, `WsFrame`, `WsChannel`, `WsRoundTrip` |
| Pointer heap and timer scheduler | `base/heap.h`, timers in `event/hloop.c` | `HeapShape`, `HeapOrder`, `Heap`, `Timers`, `TimerLife` |
| Posting events across threads, write path | `event/hloop.c`, `evpp/EventLoop.h`, `base/queue.h`, `event/nio.c` | `Queue`, `Posting`, `EventLoop`, `WritePath` |
| Stream framing and multipart | `event/unpack.c`, `event/hevent.c`, `base/hmath.h`, `http/multipart_parser.c`, `http/http_content.cpp` | `Varint`, `UnpackSpec`, `Unpack`, `UnpackSent`, `MultipartSpec`, `MultipartForm`, `MultipartCuts`, `MultipartParser` |
| Ring allocator | `base/hbuf.h` | `RingBuf` |

`Bytes`, `Folding` and `Options` are shared: bytes as numbers, machines that fold over a stream (where
independence of the cuts is proved once), and optional values.

## How to read it

- **Trees.** `RbShape.Shows` says that the pointer fields of a set of nodes lay out a tree value seen from a focus
  (a zipper: the context above and the subtree below). Each rotation and recolouring is a method on the fields that
  is proved to keep `Shows` for a changed value; the red-black laws, the order and the termination of both repair
  loops are then lemmas on values. A real-valued rank per node makes all pointers of a tree distinct.
- **Byte machines.** The HTTP, WebSocket and multipart parsers are each given twice: a one-byte step on values
  (with the trace of callbacks, adjacent data callbacks about one part joined), and the library's loop over a
  buffer, with its bulk skips and marks, which is proved to compute the fold of that step.
- **Threads.** `Posting` is a transition system whose steps are the atomic sections of the poster and of the loop
  thread; the theorems speak about every sequence of steps. `EventLoop` carries out each step on the real queues.
- **What the environment decides** is a parameter or a nondeterministic choice: how many bytes the kernel takes or
  hands over, whether a system call fails, the clock, masks from `rand()`, and where a stream is cut.

Where the code does not do what it promises, the model keeps the code and says exactly when the promise holds:

- `rudp_get` copies only `SOCKADDR_LEN` bytes of the address into a new entry but searches with the whole union.
  The new entry is found again if and only if the rest of the union was zero (`Rudp.Rudp.Get`, `Rudp.GetOrder`), and
  `Rudp.Rudp.GetTwice` shows the two entries with one key that two calls leave in any map otherwise.
- A close on top of a graceful close that is still waiting drops bytes that were accepted. It can be a second
  `hio_close` (`WritePath.Io.CloseTwice`), a close posted earlier (`WritePath.Io.RunPosted`), or the kernel answering
  a write with 0 (`WritePath.Io.SendFront`). `WritePath.Io.Valid` says for every run that, without an error, the close
  of an io finds everything sent if and only if it was not of this kind, and `WritePath.Io.Close` when one is.
- `on_frame_header` of WebSocketParser.cpp narrows the announced length to an `int` and adds 1. If the low 32 bits lie
  from 0x7FFFFFFF to 0xFFFFFFFE, the sum is negative, `reserve` is asked for an impossible size, and an exception
  leaves the parser: `WsRoundTrip.TenBytesThrow` gives ten bytes that do it, `WsSpec.RefusedExactly` the condition.
  Announced lengths of 2^63 and more can make `p + parser->require` wrap around the address space. So a read is
  consumed if and only if neither happens in it (`WsParser.WebSocketParser.Execute`); lengths as section 5.2 of
  RFC 6455 demands them never wrap (`WsSpec.LawfulFits`), and what `WebSocketChannel` sends does neither.
- An empty multipart form is written in a way that is refused when read (`MultipartForm.EmptyForm`).
- The table `unhex` reads every byte from 0x80 up as the digit 0, so such bytes are accepted in a chunk size, for which
  section 4.1 of RFC 7230 allows hexadecimal digits only: `HttpBody.HighByteAccepted` reads the digit 1 and the byte
  0x80 as 16. `HttpBody.SizeAccepted` says which words are accepted, and `HttpBody.SizeLawful` that an accepted word is
  a chunk size of the RFC if and only if it has no byte from 0x80 up.
- A header line of a multipart part that ends without a colon makes the callbacks depend on how the buffer was cut:
  `MultipartCuts.TornExample` is the shortest such stream. For a whole stream the callbacks are the same for all ways of
  cutting it if and only if there is no such line (`MultipartCuts.CutsMatter`), and the cuts never touch anything but
  the header names (`MultipartParser.MultipartParser.ExecuteAll`).
- With a carriage return in the boundary, the naive restart of the multipart scanner misses a match
  (`MultipartSpec.CrInBoundary`); without one it never does (`MultipartSpec.PartRead`).
- The ring allocator refuses blocks for which there is room in one piece. `RingBuf.RingBuf.Alloc` says exactly when:
  when the buffer is empty but divided at the end of the last block (`RingBuf.RefusedWhenEmpty`), and when the room is
  behind all blocks while the newest lies before the oldest (`RingBuf.RefusedAtTheEnd`).
- A response with status 204 or 304, to which section 3.3.3 of RFC 7230 gives no body, is nevertheless read with the body
  that a Content-Length or chunked header announces, unless the application answers 1 to `on_headers_complete`: it is
  complete at its blank line if and only if there is no such header, or a length of 0 (`HttpReplies.ReplyRead`,
  `HttpReplies.LengthWins`).
- The first byte of a header value is never checked: a control character there is accepted, and refused only behind it
  (`HttpExact.ValueExact`, `HttpExact.ControlAccepted`).
- An option in a Connection header that is a beginning of `keep-alive`, `close` or `upgrade` takes the comma behind it
  for a part of itself, and with it the next option: `k, close` does not close the connection
  (`HttpOptions.CloseSwallowed`). An empty option, and a tab before an option, end the list, and a comma at its start
  swallows the first option; `HttpOptions.ListRun` says exactly what every list does, and `HttpOptions.ListMeans` that
  a list of whole options means what it says.
- A timer added with a repeat count of 0 never ends: the count wraps around to the value of `INFINITE`
  (`Timers.FiresOnce`, `TimerLife.Lifetime`).
- `http_parser` counts the two bytes behind a chunked body against the limit on the next header (the state after
  `HttpBody.ChunkedRead`), so requests in sequence have two bytes less (`HttpSizes.ReadRequests`).
- A post that fails after `EventLoop::postEvent` has queued its functor leaves the functor behind. The functor
  queue is never popped when empty all the same, and `Posting.NothingLost` counts what is left.

## Model

| member | source | states |
|---|---|---|
| RbTree.RbRoot.RotateLeft | lib/libhv/base/rbtree.c:25-43 | The pointer writes turn the layout of a tree in any context into the layout of the left-rotated tree in that context, parent links included |
| RbTree.RbRoot.RotateRight | lib/libhv/base/rbtree.c:45-63 | The mirror image |
| RbBalance.RotateLeftShows | lib/libhv/base/rbtree.c:25-43 | The writes of the rotation, made on any memory that lays out a tree in a context, lay out the rotated tree in that context |
| RbBalance.InsertRecolor | lib/libhv/base/rbtree.c:75-85 | Red uncle: after recolouring, the only red-red edge is two levels higher; black heights and the sequence are kept |
| RbBalance.InsertStraighten | lib/libhv/base/rbtree.c:87-94 | Inner grandchild: the rotation makes it an outer one, the sequence is kept |
| RbBalance.InsertRotate | lib/libhv/base/rbtree.c:96-98 | Outer grandchild: recolouring and rotating leaves no red-red edge at or above the focus, the sequence is kept |
| RbBalance.WholeRb | lib/libhv/base/rbtree.c:127 | Without a red parent, blackening the root gives a red-black tree with the same sequence |
| RbTree.RbRoot.InsertColor | lib/libhv/base/rbtree.c:65-128 | From a red node that may have a red parent, the loop terminates in a red-black tree, correctly linked, with the same in-order sequence |
| RbTree.RbRoot.LinkNode | lib/libhv/base/rbtree.h:138-145 | Linking a fresh red leaf into an empty place lays out the tree with that leaf there |
| RbBalance.FreshLeaf | lib/libhv/event/rudp.c:52-55 | A red leaf in an empty place of a red-black tree may only be in conflict with its parent, which is what the repair expects |
| RbTree.RbRoot.Insert | lib/libhv/event/rudp.c:52-55 | Linking at the place a search ended and repairing: a valid red-black tree whose sequence has the node inserted at that place |
| RbErasing.SiblingExists | lib/libhv/base/rbtree.c:135-150 | The sibling that the erase loop dereferences is never null |
| RbErasing.EraseRedSibling | lib/libhv/base/rbtree.c:140-146 | Red sibling: after the rotation the new sibling exists and is black, the deficit is where it was, one level lower |
| RbErasing.EraseBothBlack | lib/libhv/base/rbtree.c:147-155 | Black nephews: the deficit of one black node moves to the parent |
| RbErasing.EraseNearRed | lib/libhv/base/rbtree.c:158-167 | Near nephew red: the rotation makes the far nephew red and keeps the deficit and the sequence |
| RbErasing.EraseFarRed | lib/libhv/base/rbtree.c:168-174 | Far nephew red: one rotation makes the whole tree red-black with the sequence it had |
| RbErasing.EraseDone | lib/libhv/base/rbtree.c:218-219 | Blackening a red focus, or reaching the root, ends in a red-black tree |
| RbTree.RbRoot.EraseColor | lib/libhv/base/rbtree.c:130-220 | From any tree that is one black node short at the focus, the loop terminates in a red-black tree with the same sequence |
| RbErasing.SpliceRb | lib/libhv/base/rbtree.c:276-294 | Unlinking a node with at most one child: red leaves a red-black tree, black leaves exactly the deficit the repair expects |
| RbErasing.TransplantRb | lib/libhv/base/rbtree.c:231-274 | The same when the successor is unlinked and takes the place and colour of the erased node |
| RbErasing.SpliceOrder | lib/libhv/base/rbtree.c:276-294 | Unlinking removes exactly that node from the sequence |
| RbErasing.TransplantOrder | lib/libhv/base/rbtree.c:231-274 | Replacing a node by its successor removes exactly the erased node, not the successor |
| RbTree.RbRoot.Transplant | lib/libhv/base/rbtree.c:242-273 | The link copying of `rb_erase`, including the case in which the successor is the right child, lays out the tree with the successor in the old place |
| RbTree.RbRoot.Successor | lib/libhv/base/rbtree.c:233-240 | The walk ends at the node that follows the erased one in the sequence, which has no left child |
| RbTree.RbRoot.Erase | lib/libhv/base/rbtree.c:222-294 | Erasing any member: a valid red-black tree whose sequence is the old one without exactly that node |
| RbWalk.First | lib/libhv/base/rbtree.c:299-309 | The first node of the in-order sequence, null if there is none |
| RbWalk.Next | lib/libhv/base/rbtree.c:323-344 | The node after the given one in the sequence, null at the end |
| RbWalk.Prev | lib/libhv/base/rbtree.c:346-363 | The node before the given one, null at the beginning |
| Rudp.MemcmpOrder | lib/libhv/event/rudp.c:38-50 | `memcmp` on blocks of one size is antisymmetric and 0 only for equal blocks |
| Rudp.LessTrans | lib/libhv/event/rudp.c:38-50 | Its order is transitive |
| Rudp.CleanAddress | lib/libhv/base/hsocket.c:136-149 | In numbers: an address of family 2 is clean if and only if its bytes from 16 to 27 are 0, any other is clean; the first 16 bytes, with port and IPv4 address, are stored in any case |
| Rudp.PathSplits | lib/libhv/event/rudp.c:59-77 | In a sorted tree everything left of the search path is smaller than the key and everything right of it larger |
| Rudp.HeightBound | lib/libhv/base/rbtree.c:65-294 | A subtree of black height h has at least 2^h - 1 nodes and a height of at most 2h, plus one under a red root |
| Rudp.PathBound | lib/libhv/event/rudp.c:59-77 | No path of a red-black tree of n nodes is longer than 2 log2(n + 1) |
| Rudp.Rudp.Descend | lib/libhv/event/rudp.c:93-111 | The descent ends at an entry with that key, or at the empty place that splits the sequence around it, within 2 log2(n + 1) comparisons |
| Rudp.KeysUnique | lib/libhv/event/rudp.c:32-57 | In an ordered tree no two entries have one key, so the entries are a map |
| Rudp.ViewInsert | lib/libhv/event/rudp.c:52-55 | Inserting at the place found adds exactly that key to the map |
| Rudp.ViewRemove | lib/libhv/event/rudp.c:79-89 | Erasing an entry removes exactly its key from the map |
| Rudp.Rudp.Search | lib/libhv/event/rudp.c:59-77 | The entry the map holds for the address, null if there is none, within 2 log2(n + 1) comparisons |
| Rudp.Rudp.Insert | lib/libhv/event/rudp.c:32-57 | Adds the entry if and only if its key is new; otherwise nothing changes |
| Rudp.Rudp.Get | lib/libhv/event/rudp.c:91-124 | Returns the entry or makes one; the map gains exactly the asked address if the address is clean, and the order and the findability of the new entry are characterised exactly when it is not |
| Rudp.GetOrder | lib/libhv/event/rudp.c:109-121 | The new entry is found again if and only if the bytes behind the family's size are zero; the order survives if and only if no entry lies from the stored address up to just below the searched one |
| Rudp.GetSplits | lib/libhv/event/rudp.c:91-124 | The truncated key is smaller than everything right of the path |
| Rudp.DirtyGetTwice | lib/libhv/event/rudp.c:109-121 | Starting from an empty map: the first entry made for an unclean address does not satisfy the second search, and the second entry has the same key; there is such an address |
| Rudp.Rudp.GetTwice | lib/libhv/event/rudp.c:91-124 | In any map that does not have the address, ordered or not, two calls for an unclean address make two entries with one key and leave no order; in an ordered one the second call finds the first entry if and only if the address is clean |
| Rudp.Rudp.Remove | lib/libhv/event/rudp.c:79-89 | The map loses exactly that address, and the entry that was there is returned |
| Rudp.Rudp.Del | lib/libhv/event/rudp.c:126-136 | The map loses exactly that address |
| Rudp.Rudp.Cleanup | lib/libhv/event/rudp.c:20-30 | Erasing the root until nothing is left terminates with an empty tree |
| HttpTrace.SplitsDoNotMatter | lib/libhv/http/http_parser.c:638-2083 | For any bytes, cutting them into pieces changes neither the parser state nor the joined callback trace of the byte machine |
| HttpTrace.Stopped | lib/libhv/http/http_parser.c:655-657 | After an error no byte changes anything. That a parser which has left for another protocol takes no more bytes either is how the model ends its use; the source would parse on if it were called again |
| HttpInvariant.HandleKeeps | lib/libhv/http/http_parser.c:715-2059 | One byte in any state of the invariant leads to such a state again, or to an error |
| HttpInvariant.RunKeeps | lib/libhv/http/http_parser.c:1872-2044 | In every state that any bytes lead to, no `assert` of the source fails: lengths are positive and below the ULLONG_MAX sentinel where the body states read them, chunk states only occur when chunked, and `nread` is 1 at the start of a chunk |
| HttpInvariant.AssertionsFollow | lib/libhv/http/http_parser.c:1872-2040 | Each `assert` of the body and chunk states follows from the invariant |
| HttpInvariant.GuessFits | lib/libhv/http/http_parser.c:976-1006 | Every change of the guessed method keeps the letters already read and fits the one just read |
| HttpMethods.MethodSound | lib/libhv/http/http_parser.c:920-1014 | While no error occurs, what has been read is a beginning of the guessed method's name |
| HttpMethods.MethodExact | lib/libhv/http/http_parser.c:920-1014 | A word before a blank is accepted if and only if it is one of the 34 method names, and the method is the one of that name |
| HttpTargets.UrlAccepted | lib/libhv/http/http_parser.c:490-636 | Every target in origin form with any query and fragment, the asterisk, and every target with scheme and authority is accepted by the URL states, and may end where it does |
| HttpTargets.UrlRun | lib/libhv/http/http_parser.c:1016-1087 | Such a target is handed to the URL callback whole |
| HttpTargets.UrlExact | lib/libhv/http/http_parser.c:490-636 | And nothing else is: the words that are accepted and may end where they do are exactly those targets |
| HttpTargets.ConnectRun | lib/libhv/http/http_parser.c:1016-1063 | The target of CONNECT, an authority with what may follow it, is accepted and handed to the URL callback whole |
| HttpTargets.TargetExact | lib/libhv/http/http_parser.c:1016-1087 | A word before a blank is accepted as a target if and only if it is one, for CONNECT and for all other methods; otherwise the error is HPE_INVALID_URL |
| HttpExact.VersionExact | lib/libhv/http/http_parser.c:1089-1196 | What stands before the end of the request line is accepted if and only if it is `HTTP/d.d`, or `ICE/d.d` for the method SOURCE |
| HttpExact.StatusExact | lib/libhv/http/http_parser.c:843-886 | The word before the reason is accepted as a status if and only if it is a number up to 999, and that is then the status |
| HttpExact.NameExact | lib/libhv/http/http_parser.c:1198-1382 | The text before a colon is accepted as a header name if and only if it is a token of section 3.2.6 of RFC 7230; otherwise the error is HPE_INVALID_HEADER_TOKEN |
| HttpExact.ValueExact | lib/libhv/http/http_parser.c:1384-1515 | The value of a header that means nothing to the parser is accepted if and only if, in strict mode, no byte behind its first one is a control character |
| HttpExact.ControlAccepted | lib/libhv/http/http_parser.c:1399-1466 | A control character as the first byte of a value is accepted |
| HttpExact.LengthExact | lib/libhv/http/http_parser.c:1423-1563 | The first Content-Length is accepted if and only if it is a number, within the limit without its last digit, with nothing but spaces behind it; the length is then that number |
| HttpWords.NameRun | lib/libhv/http/http_parser.c:1198-1382 | After any name, the matcher's state is what comparing the lower-cased name with every keyword gives, and the callbacks got the name |
| HttpWords.NameRecognised | lib/libhv/http/http_parser.c:1198-1382 | At the colon the header state is that of Content-Length, Transfer-Encoding, Upgrade or (Proxy-)Connection if and only if the name is that keyword in any mixture of cases |
| HttpNumbers.LengthRun | lib/libhv/http/http_parser.c:1528-1556 | Content-Length digits: the exact decimal value if the number without its last digit is within the limit, otherwise an error; never a wrapped value |
| HttpNumbers.SizeRun | lib/libhv/http/http_parser.c:1940-1975 | Chunk-size digits: the exact hexadecimal value, or an error, in the same way |
| HttpNumbers.DecimalRoundTrip | lib/libhv/http/HttpMessage.cpp:406-433 | A printed length is read as the number it was printed from |
| HttpNumbers.HexRoundTrip | lib/libhv/http/server/HttpResponseWriter.h:76-93 | A printed chunk size is read as the number it was printed from |
| HttpBody.SizeAccepted | lib/libhv/http/http_parser.c:1924-1975 | A word before the CR of a chunk-size line is accepted if and only if each character is a hexadecimal digit or at least 0x80 and the value without its last digit is within the limit; the size is then its value |
| HttpBody.SizeLawful | lib/libhv/http/http_parser.c:1940-1958 | An accepted word is a chunk size of section 4.1 of RFC 7230 if and only if it has no character from 0x80 up |
| HttpBody.HighByteAccepted | lib/libhv/http/http_parser.c:224-233 | The digit 1 and the byte 0x80 announce a chunk of 16 bytes |
| HttpBody.BodyRun | lib/libhv/http/http_parser.c:1872-1922 | A body of exactly the announced length is delivered whole and followed by one message_complete |
| HttpBody.ChunkRead | lib/libhv/http/http_parser.c:1924-2042 | One printed chunk: its header, its own bytes and its end are reported, and the parser stands before the next chunk |
| HttpBody.ChunkedRead | lib/libhv/http/http_parser.c:1924-2044 | Section 4.1 of RFC 7230: any list of non-empty chunks and the zero chunk are reported chunk by chunk, with exactly one message_complete |
| HttpBody.ChunkedBody | lib/libhv/http/http_parser.c:2006-2044 | The body bytes reported are the body, however it was cut into chunks |
| HttpMessages.EitherStart | lib/libhv/http/http_parser.c:726-763 | A parser that takes either kind of message reads a method like one that takes requests only, HEAD included, which begins like a response |
| HttpMessages.StartRun | lib/libhv/http/http_parser.c:920-1196 | A printed request line is read back: method, version, and the target to the callbacks |
| HttpLines.OtherLine | lib/libhv/http/http_parser.c:1198-1667 | A header line that means nothing to the parser is reported, name and value, also with an empty value, and changes nothing else |
| HttpOptions.ListRun | lib/libhv/http/http_parser.c:1575-1655 | The value of a Connection header, whatever it is, has exactly the effect that its list between the commas has by `OptionFlags`, beginnings of words that swallow the next option included |
| HttpOptions.ListMeans | lib/libhv/http/http_parser.c:1575-1655 | A list of whole options sets exactly the flags of keep-alive, close and upgrade that are in it, wherever and in any mixture of cases |
| HttpOptions.CloseSwallowed | lib/libhv/http/http_parser.c:1594-1630 | The value `k, close` sets no flag at all |
| HttpOptions.ConnectionLine | lib/libhv/http/http_parser.c:1444-1711 | A (Proxy-)Connection header with any value is reported and sets the flags of its list, and nothing else |
| HttpOptions.UpgradeLine | lib/libhv/http/http_parser.c:1409-1412 | An Upgrade header is reported and sets its flag |
| HttpMessages.FramingLine | lib/libhv/http/http_parser.c:1399-1667 | A printed Content-Length or chunked header sets exactly the flag and the length it says |
| HttpMessages.ContentRun | lib/libhv/http/http_parser.c:1756-1922 | From the blank line of a request or response on, the body is delivered as it is framed; then the parser is ready for a new message if the connection is persistent by section 6.3 of RFC 7230, and dead otherwise; and it has left for another protocol exactly if both upgrade headers were there, in a request or a response with status 101, or it was CONNECT |
| HttpMessages.RequestRead | lib/libhv/http/HttpMessage.cpp:639-657 | A printed request of any method, CONNECT included, any version and any target of those above, with no body, a body of known length or one in chunks, the header about it anywhere among other headers, connection options and upgrades, is read back: target, headers in order, body, one completion; then the parser is ready for the next, or dead, or has left for another protocol, exactly as the version and the options say |
| HttpMessages.SwitchRead | lib/libhv/http/http_parser.c:1784-1844 | If another protocol follows, the parser leaves with the last byte of the request and not before |
| HttpMessages.PipelineRead | lib/libhv/http/http_parser.c:638-2083 | Any number of requests on one connection, of which only the last may close it or change its protocol, cut anywhere, are reported one after another with nothing lost or mixed up |
| HttpReplies.StatusRun | lib/libhv/http/http_parser.c:745-918 | A printed status line with version d.d, status abc and any reason or none is read back: status 100a + 10b + c, the version, and the reason to the callbacks |
| HttpReplies.ReplyRead | lib/libhv/http/http_parser.c:638-2107 | A printed response of any version and status, with no body, a body of known length or one in chunks, and headers as for requests, is read back with one completion: at the blank line if there is no body, as for 1xx, 204 and 304 without a header about it, and otherwise at the end of the body; then the parser is ready for the next one exactly if the connection is persistent, and has left for another protocol exactly if the status is 101 and both upgrade headers were there |
| HttpReplies.HeadReplyRead | lib/libhv/http/http_parser.c:1756-1835 | A response for which the application says that there is no body is complete at the blank line, whatever it announces |
| HttpReplies.UnboundedRead | lib/libhv/http/http_parser.c:1849-1922 | The body of a response with no header about it, and a status that allows one, is everything behind the blank line |
| HttpReplies.LengthWins | lib/libhv/http/http_parser.c:1836-1848 | With a Content-Length that is not 0 the parser waits for that body whatever the status, 204 and 304 included |
| HttpReplies.RepliesPipelined | lib/libhv/http/http_parser.c:638-2083 | Any number of responses on one connection, of which only the last may end it or change its protocol, cut anywhere, are reported one after another |
| HttpFraming.TrailersRead | lib/libhv/http/http_parser.c:1756-1768 | Header lines behind the last chunk are reported between it and the completion of the message; a connection option among them still decides whether the connection stays |
| HttpFraming.RequestFramedTwice | lib/libhv/http/http_parser.c:1423-1434 | A request with two headers about its body, two lengths or a length and chunks in either order, is refused with HPE_UNEXPECTED_CONTENT_LENGTH, wherever they stand and whatever follows |
| HttpFraming.ReplyFramedTwice | lib/libhv/http/http_parser.c:1769-1773 | So is a response |
| HttpTolerance.RunAlike | lib/libhv/http/http_parser.c:638-2083 | States that differ only in the count of header bytes go on alike, whatever follows: the count decides nothing but whether a header is too large |
| HttpTolerance.ReplacedRead | lib/libhv/http/http_parser.c:726-1996 | Anywhere in a stream, a bare LF may stand for CR LF at the end of a line of the head, a blank or line end more may stand where the parser passes over it, and a chunk extension may stand behind a chunk size: same state, same callbacks, whatever comes before and behind |
| HttpTolerance.CrNeedsLf | lib/libhv/http/http_parser.c:1187-2042 | A carriage return at a line end of the head, of a chunk-size line or behind the data of a chunk is an error unless a line feed follows |
| HttpTolerance.LongerChunk | lib/libhv/http/http_parser.c:2006-2035 | A chunk whose data goes beyond the announced length is refused at the first byte too many |
| HttpMarks.HandleWell | lib/libhv/http/http_parser.c:2063-2073 | In no state does a byte meet two open marks, and the mark that is open afterwards is the one the new state needs |
| HttpParser.HttpParser.Perform | lib/libhv/http/http_parser.c:79-141 | Marks into the buffer and callbacks on stretches of it produce the trace of taking each byte singly |
| HttpMarks.FailWell | lib/libhv/http/http_parser.c:715-2059 | In no state does a byte that is an error make a callback, except that it may complete an empty header value |
| HttpLimit.WithinConcat | lib/libhv/http/http_parser.c:154-161 | Whether a header is larger than the limit depends on the bytes only, not on the cuts |
| HttpLimit.CountGrows | lib/libhv/http/http_parser.c:710-711 | A byte adds at most 1 to the count of the header, whatever the state |
| HttpLimit.LongBreaks | lib/libhv/http/http_parser.c:154-161 | If all bytes of a stretch were counted and the count is then too large, some byte in it was one too many: counting at the end of a bulk loop finds what counting singly finds |
| HttpParser.HttpParser.ScanField | lib/libhv/http/http_parser.c:1248-1382 | The loop over a header name, with its inner skip, equals the byte step repeated up to the first byte that is no token; it ends in an error only when the header is too large, and otherwise what it took keeps to the limit |
| HttpParser.HttpParser.ScanValue | lib/libhv/http/http_parser.c:1469-1667 | The loop over a header value equals the byte step repeated, up to a line end or the error the byte step meets, unless the header is too large; the inner skip, which passes over a byte without a look, does so only then |
| HttpParser.HttpParser.SkipBody | lib/libhv/http/http_parser.c:1872-1913 | Skipping body bytes in bulk equals the byte step repeated, length arithmetic included |
| HttpParser.HttpParser.Execute | lib/libhv/http/http_parser.c:638-2083 | One call on a buffer succeeds only if no header becomes larger than `max_header_size`, and then equals the byte machine on its bytes. An upgrade returns the position behind the byte that made the parser leave. A failing call has met the first error of the byte machine, at its position, with all callbacks before it made but for the end of the open part; or a header is too large, and HPE_HEADER_OVERFLOW is reported only then |
| HttpParser.HttpParser.ExecuteAll | lib/libhv/http/http_parser.c:638-2083 | Any non-empty pieces of a stream are accepted if and only if in the whole stream the byte machine meets no error and does not leave it and no header is larger than the limit, and then give the state and joined trace of the whole stream |
| HttpSizes.RequestWithin | lib/libhv/http/http_parser.c:154-161 | A printed request whose head is two bytes smaller than the limit keeps to it, however large its body is, chunk lines included |
| HttpSizes.ReadRequests | lib/libhv/http/http_parser.c:638-2083 | A parser with a limit, given a connection of such requests in any pieces, accepts all of it, and its callbacks are those of the requests, one after another |
| HttpSizes.ReadSwitch | lib/libhv/http/http_parser.c:1835-1844 | If the last of them changes to another protocol, the call that reads its last byte returns the position behind it, and the rest of the buffer is left to that protocol |
| HttpReplies.ReplyWithin | lib/libhv/http/http_parser.c:154-161 | A response whose head is two bytes smaller than the limit keeps to it, however large its body is |
| HttpReplies.ReadReplies | lib/libhv/http/http_parser.c:638-2083 | A parser with a limit, given a connection of such responses in any pieces, accepts all of it, and its callbacks are those of the responses |
| HttpReplies.ReadReplySwitch | lib/libhv/http/http_parser.c:1784-1844 | If the last of them is a 101 that changes to another protocol, such as the answer to a WebSocket client, the rest of the buffer is left to that protocol |
| HttpReplies.ReadToEof | lib/libhv/http/http_parser.c:638-2083 | The same when the last response ends with the connection: its body is everything behind its blank line, and the end of the stream completes it |
| HttpParser.HttpParser.ExecuteEof | lib/libhv/http/http_parser.c:655-679 | The end of the stream completes a body delimited by it, is accepted between messages, and is an error anywhere else |
| WsSpec.StepOk | lib/libhv/http/websocket_parser.c:53-171 | Every byte keeps the ranges of `require` and `mask_offset`; inside a masked body mask_offset is (length - require) mod 4, and the length is the one last announced |
| WsSpec.ReadsDoNotMatter | lib/libhv/http/websocket_parser.c:53-171 | For arbitrary, even malformed input the byte machine gives the same state, messages and joined frame events however the input is cut |
| WsSpec.RefusedExactly | lib/libhv/http/WebSocketParser.cpp:15-19 | The header callback throws if and only if the low 32 bits of the announced length lie from 0x7FFFFFFF to 0xFFFFFFFE |
| WsSpec.HarmlessConcat | lib/libhv/http/WebSocketParser.cpp:8-26 | Whether a stream makes the callback throw depends on its bytes only, not on the cuts |
| WsSpec.LawfulFits | lib/libhv/http/websocket_parser.c:143-156 | With announced lengths below 2^63 and buffers in the lower half of the address space, the sum that is compared with the end of the buffer never wraps |
| WsSpec.RunLength | lib/libhv/http/websocket_parser.c:100-123 | Length bytes read in one go equal the bytes read singly |
| WsSpec.RunMask | lib/libhv/http/websocket_parser.c:124-142 | The same for the mask |
| WsSpec.RunBody | lib/libhv/http/websocket_parser.c:143-164 | The same for the body: unmasking a stretch equals unmasking byte by byte |
| WsParser.WebSocketParser.Decode | lib/libhv/http/websocket_parser.c:173-189 | Unmasking in place changes exactly the given stretch, in which each bit differs from what it was if and only if it is set in the mask byte of its position, and leaves the mask position where the next stretch begins |
| WsParser.WebSocketParser.OnFrameHeader | lib/libhv/http/WebSocketParser.cpp:8-26 | Throws exactly for a refused length; otherwise the frame is announced |
| WsParser.WebSocketParser.CaseBody | lib/libhv/http/websocket_parser.c:143-164 | Takes the body bytes there are, unless the address of the body and its remaining length together pass 2^64 |
| WsParser.WebSocketParser.Execute | lib/libhv/http/websocket_parser.c:53-171 | Consumes all of a read and computes the fold of the byte step, callbacks and reassembly included, if and only if no header in it is refused and no body wraps around the address space; otherwise it stops exactly there |
| WsParser.WebSocketParser.FeedAll | lib/libhv/http/WebSocketParser.cpp:72-74 | A stream in any pieces is consumed if and only if no header in the whole stream is refused (for lengths below 2^63), and then state and messages are those of the whole stream |
| WsFrame.SizeExact | lib/libhv/http/websocket_parser.c:191-205 | The size computed beforehand is exactly the length of the frame |
| WsFrame.WireFormat | lib/libhv/http/websocket_parser.c:207-249 | The encoding field by field, as section 5.2 of RFC 6455 lays it out: the bits and the opcode of the first byte, the mask bit and the length of the second, the extended length in network order, the mask, and the data combined with it |
| WsSpec.MaskedBits | lib/libhv/http/websocket_parser.c:173-189 | Section 5.3 of RFC 6455: a bit of the masked data differs from that of the data if and only if it is set in the mask byte at its position modulo 4 |
| Bytes.XorBit | lib/libhv/http/websocket_parser.c:180-187 | A bit of the exclusive or is set if and only if it is set in exactly one of the two bytes |
| Bytes.BigEndianAt | lib/libhv/http/websocket_parser.c:226-240 | The bytes of a length in network order: each is the digit to base 256 of its weight |
| WsFrame.BuildFrame | lib/libhv/http/websocket_parser.c:207-249 | Writes exactly the encoded frame, laid out as sections 5.2 and 5.3 of RFC 6455 say, and nothing behind it |
| WsFrame.Ceil2e | lib/libhv/base/hmath.h:15-24 | The least power of two that is not smaller, so the send buffer holds the frame |
| WsChannel.FragmentsJoin | lib/libhv/http/WebSocketChannel.cpp:24-48 | The fragments of a message, joined, are the message |
| WsChannel.WebSocketChannel.SendFrame | lib/libhv/http/WebSocketChannel.cpp:66-79 | One frame with the given bytes, opcode and fin bit, laid out as the standard says and masked exactly for a client; or, on failure, a proper prefix of it |
| WsChannel.WebSocketChannel.SendFragmented | lib/libhv/http/WebSocketChannel.cpp:24-48 | The frames carry the fragments in order: the opcode first, continuations after it, fin only on the last. On failure the stream ends inside one of them, the earlier ones being complete |
| WsChannel.WebSocketChannel.Send | lib/libhv/http/WebSocketChannel.cpp:5-13 | Longer messages are fragmented, and then `fin` is ignored; failures as for fragments |
| WsChannel.WebSocketChannel.SendControl | lib/libhv/http/WebSocketChannel.cpp:50-64 | The constant bytes sent are the encoding of an empty ping or pong frame, or a proper prefix of it on failure |
| WsRoundTrip.LengthRead | lib/libhv/http/websocket_parser.c:72-123 | Each of the three length forms is read as the length it was written from |
| WsRoundTrip.FrameRead | lib/libhv/http/websocket_parser.c:53-249 | Any frame, from any state between frames, is read back: its flags and its unmasked bytes |
| WsRoundTrip.PartRead | lib/libhv/http/WebSocketParser.cpp:8-50 | After k frames of a fragmented message the reassembler holds the first opcode and the first k pieces, and has delivered nothing before the last |
| WsRoundTrip.MessageRead | lib/libhv/http/WebSocketParser.cpp:8-50 | A message sent in fragments of any size makes onMessage run once, with its opcode and bytes |
| WsRoundTrip.StreamRead | lib/libhv/http/WebSocketChannel.cpp:24-79 | Messages sent one after another are delivered once each, in order |
| WsRoundTrip.LongHeader | lib/libhv/http/WebSocketParser.cpp:8-26 | A frame header with an eight-byte length is harmless to a fresh parser if and only if its length is not refused |
| WsRoundTrip.TenBytesThrow | lib/libhv/http/WebSocketParser.cpp:8-26 | Ten concrete bytes make the parser throw |
| WsRoundTrip.EndToEnd | lib/libhv/http/WebSocketChannel.cpp:24-79 | The same over a connection whose reads cut the stream anywhere, for any masks, roles and fragment sizes; and nothing in such a stream is refused |
| WsRoundTrip.SentWell | lib/libhv/http/WebSocketChannel.cpp:5-48 | What a successful send promises about its frames is all that the receiver relies on |
| WsRoundTrip.SendAll | lib/libhv/http/WebSocketChannel.cpp:5-48 | Messages sent one after another, each with a fragment size of its own, make a stream the receiver can rely on |
| WsRoundTrip.Converse | lib/libhv/http/WebSocketChannel.cpp:5-79 | A channel and a parser joined by any way of cutting bytes into reads: if all sends succeed, the messages delivered are the messages sent |
| Heap.Heap.Swap | lib/libhv/base/heap.h:45-74 | Exchanging a node with its child exchanges the two places of the level order and nothing else, all links consistent |
| HeapShape.SwapResult | lib/libhv/base/heap.h:45-74 | The writes of `heap_swap`, in their order, lay out the exchanged sequence on either side and with or without neighbours |
| HeapOrder.LastPath | lib/libhv/base/heap.h:79-85 | The binary digits of the count after the leading one, walked from the root, lead to the place of that count |
| Heap.Heap.FindParent | lib/libhv/base/heap.h:87-93 | The walk ends at the parent of the next or last place of the complete tree, and at the right side of it |
| Heap.Heap.SiftUp | lib/libhv/base/heap.h:101-106 | With only the node at hand possibly too small for its place, the loop terminates in a heap |
| Heap.Heap.SiftDown | lib/libhv/base/heap.h:152-161 | With only the node at hand possibly too large for its place, the loop terminates, also when keys are equal, with nothing below it out of order |
| Heap.Heap.Insert | lib/libhv/base/heap.h:76-107 | A complete, heap-ordered, consistently linked tree of exactly one more node |
| Heap.Heap.HeapReplace | lib/libhv/base/heap.h:146-147 | The last node takes the place of the removed one in the level order, all links consistent; removing the last node itself goes the same way and leaves the rest as it is |
| Heap.Heap.ReplaceLinks | lib/libhv/base/heap.h:29-43 | The writes in their order: neighbours and root point to the replacement, which gets every link. When the last node is its own replacement, nothing changes but that its links are cleared |
| Heap.Heap.Remove | lib/libhv/base/heap.h:109-166 | Removing any member leaves a complete, heap-ordered, consistently linked tree without exactly that node |
| Heap.Heap.Dequeue | lib/libhv/base/heap.h:168-170 | Removes exactly the root |
| HeapOrder.RootIsMin | lib/libhv/base/heap.h:14-20 | The root of a heap has the smallest key of all |
| Timers.NextAfterIsFirst | lib/libhv/event/hloop.c:75-79 | The new due time lies on the timer's own progression and is its first point after now |
| Timers.StartInFuture | lib/libhv/event/hloop.c:612-616 | A started timer is due in the future and never later than its interval; long round intervals are aligned to 100 ms and lose less than that, others nothing |
| Timers.InTurnStep | lib/libhv/event/hloop.c:55-91 | A timer that has fired is not at the root again in the same pass, and those due earlier come first |
| Timers.PassComplete | lib/libhv/event/hloop.c:55-91 | When no root is due any more, the timers that fired are exactly those due at entry |
| Timers.Loop.FireRoot | lib/libhv/event/hloop.c:60-88 | One round, for the root timer only: with one repetition left it is destroyed and leaves the heap; otherwise it has one less, or still no end of them, and is due at the first point of its progression behind the limit; it is at the front of the pending list |
| Timers.Loop.ProcessTimers | lib/libhv/event/hloop.c:55-91 | The pass terminates, fires exactly the timers due at entry, each once and in due order, does to each of them what one round does and nothing to any other, leaves every due time after now, and keeps the count and the heap in step with the timers |
| TimerLife.OneMore | lib/libhv/event/hloop.c:60-88 | One more pass for a timer whose due time is the first point that no earlier pass has reached: it fires if and only if this pass reaches a new point, and is destroyed with the last of its repetitions |
| TimerLife.Lifetime | lib/libhv/event/hloop.c:64-71 | Over any number of passes, whatever happens to other timers in between: a timer with k repetitions fires in exactly its first k due passes and is destroyed by the last of them; an endless one fires in every due pass and never is |
| TimerLife.RunPasses | lib/libhv/event/hloop.c:55-137 | The same for all timers of a loop whose passes are each followed by a dispatch: those that are used up are freed, the others scheduled for the first point that no pass has reached |
| Timers.RunsOnce | lib/libhv/event/hloop.c:109-137 | Each active timer that fired runs exactly once in the dispatch that follows, in the reverse of the order in which they fired |
| Timers.Loop.ProcessPendings | lib/libhv/event/hloop.c:109-137 | Dispatch runs each listed event that is active and still pending, once, empties the list and frees what was destroyed |
| Timers.Loop.Add | lib/libhv/event/hloop.c:602-620 | Adds exactly one scheduled, active timer, or nothing for a timeout of 0; count and heap agree |
| Timers.Loop.Reset | lib/libhv/event/hloop.c:622-646 | The timer is scheduled afresh, whether or not it was in the heap, and counted once |
| Timers.Loop.Unschedule | lib/libhv/event/hloop.c:671-680 | Leaves the heap and the count at most once |
| Timers.Loop.Del | lib/libhv/event/hloop.c:682-686 | Out of the heap; freed at once, or by the dispatch if it is pending. The input left out is a timer that was reset while it was in the pending list and is deleted before the dispatch |
| Queue.Queue.PushBack | lib/libhv/base/queue.h:83-92 | Appends, whether the array moves down, doubles or stays |
| Queue.Queue.PopFront | lib/libhv/base/queue.h:94-98 | Removes the first element |
| Posting.StepKeeps | lib/libhv/event/hloop.c:200-229 | Every step keeps: queue length plus a poster between its wake-up and its push equals the eventfd count plus the reader's remaining rounds |
| Posting.RunKeeps | lib/libhv/event/hloop.c:200-304 | So does every interleaving |
| Posting.NeverEmpty | lib/libhv/event/hloop.c:200-229 | In every interleaving the reader finds an event in each round, onCustomEvent finds a functor, and a waiting event keeps the eventfd readable |
| Posting.InOrder | lib/libhv/evpp/EventLoop.h:170-225 | In every interleaving events run at most once and in the order of their push, and so do functors |
| Posting.Accounted | lib/libhv/event/hloop.c:271-304 | In every interleaving, each event that somebody asked to post is waiting for the mutex, or about to be pushed, or was pushed, or its post failed; and the functors are those handed over, in that order |
| Posting.NothingLost | lib/libhv/event/hloop.c:271-304 | When everything is quiet, every event that was asked for has been called back, except those whose post failed, and the functors have run in the order in which they were handed over, all but as many as there were failed posts of `postEvent` |
| Posting.DrainWorks | lib/libhv/event/hloop.c:209-225 | A reader with a round for each event can take all its steps and calls back all of them |
| Posting.WakeUpSuffices | lib/libhv/event/hloop.c:200-229 | No wake-up is lost: after any run, one read and the loop behind it call back everything that waits |
| EventLoop.EventLoop.Give | lib/libhv/evpp/EventLoop.h:176-188 | Queueing a functor is the corresponding step of the protocol |
| EventLoop.EventLoop.Write | lib/libhv/event/hloop.c:284-300 | The wake-up half of a post is a step of the protocol, also when it fails |
| EventLoop.EventLoop.Push | lib/libhv/event/hloop.c:301-303 | The queueing half is a step of the protocol |
| EventLoop.EventLoop.TakeOut | lib/libhv/event/hloop.c:209-221 | In any run the event is there and is taken from the front |
| EventLoop.EventLoop.Call | lib/libhv/evpp/EventLoop.h:216-225 | In any run onCustomEvent takes the first functor, which is there |
| WritePath.Io.Write | lib/libhv/event/nio.c:480-561 | Refused if and only if the io is closed, or the kernel was asked because nothing was queued and failed or answered 0, or what it did not take would exceed the limit; then nothing is accepted, and a close is posted for an open stream. Otherwise the result is what the kernel took and the rest is at the end of the queue; an error is set exactly by a failure or the limit. Sum, limit, order and watching are kept |
| WritePath.Io.Remain | lib/libhv/event/nio.c:519-548 | What the kernel did not take is queued behind what waits if and only if it fits the limit |
| WritePath.Io.FlushQueue | lib/libhv/event/nio.c:349-403 | Queued bytes go out in order; the close that was put off is due exactly when the queue has become empty; only an error or a write answered with 0 closes the io earlier, and a 0 does so, with bytes lost, exactly when a close was waiting; it stops with bytes queued if and only if the kernel took less than it was offered |
| WritePath.Io.SendFront | lib/libhv/event/nio.c:362-402 | The kernel is asked once, for exactly what the front buffer still holds. A write answered with 0 closes a stream gracefully, but at once and with accepted bytes unsent if a close is waiting |
| WritePath.Io.Close | lib/libhv/event/nio.c:563-587 | A first graceful close waits for the queue; when an io closes without error, every byte accepted has been sent if and only if the queue was empty; what was queued is lost |
| WritePath.Io.CloseTwice | lib/libhv/event/nio.c:574-587 | A second close before the queue has drained always loses accepted bytes |
| WritePath.Io.RunPosted | lib/libhv/event/nio.c:549-582 | The same for a close posted by a failed write or another thread |
| WritePath.Io.CloseTimeout | lib/libhv/event/nio.c:23-34 | The close timer closes at once, with an error, and what is queued is lost |
| WritePath.Io.HandleWritable | lib/libhv/event/nio.c:415-432 | When the kernel has room: a put-off close happens if and only if everything accepted has been sent, unless a write fails or is answered with 0; after an answer of 0 on top of a waiting close, bytes are always lost; bytes stay queued only if the kernel took less than it was offered |
| UnpackSpec.Shortest | lib/libhv/event/unpack.c:52-104 | A delimiter package is the shortest prefix that ends in the delimiter |
| UnpackSpec.NoDelimiter | lib/libhv/event/unpack.c:52-104 | No package is found if and only if the delimiter occurs nowhere |
| UnpackSpec.CutStable | lib/libhv/event/unpack.c:22-174 | A decision about the front of the buffer is not changed by bytes that come later, in any mode |
| UnpackSpec.Conserved | lib/libhv/event/unpack.c:22-174 | The packages followed by the rest are the bytes received |
| UnpackSpec.PackagesMore | lib/libhv/event/unpack.c:22-174 | Cutting the stream anywhere and going on with the rest gives the same packages and the same rest |
| UnpackSpec.RestUncut | lib/libhv/event/unpack.c:22-174 | The rest holds no complete package |
| Unpack.Unpacker.ByFixedLength | lib/libhv/event/unpack.c:22-50 | The loop delivers the packages of the buffer and keeps the rest, with free room behind it |
| Unpack.Unpacker.ByDelimiter | lib/libhv/event/unpack.c:52-104 | The same, although the search resumes in the middle: delimiters that straddle reads are found; refused only when the largest buffer is full without one |
| Unpack.Unpacker.ByLengthField | lib/libhv/event/unpack.c:106-174 | The same for big-endian, little-endian and varint length fields; refused if and only if a package is announced too large |
| Unpack.Unpacker.AutoSize | lib/libhv/event/hevent.c:376-394 | Resizing keeps the unread bytes and leaves free room |
| Unpack.Unpacker.Read | lib/libhv/event/hevent.c:329-395 | Over all reads: the packages delivered are those of the whole stream, the next read finds room, the buffer stays within the limit, and the io is closed if and only if a package is too large |
| Unpack.NeverWithinLimit | lib/libhv/event/unpack.c:91-97 | A package for which the io was closed would have been larger than the limit whatever followed |
| Unpack.Framed | lib/libhv/event/unpack.c:22-174 | Well-formed packages sent one after another come out one by one |
| UnpackSent.FieldCut | lib/libhv/event/unpack.c:121-150 | A package whose length field holds its length, most or least significant byte first or as a varint, with offset, width and adjustment, is cut off as a whole |
| UnpackSent.ProperCut | lib/libhv/event/unpack.c:22-174 | So is any package as a sender means it: of the fixed length, or ending in the first delimiter, or saying its length |
| UnpackSent.NotClosed | lib/libhv/event/unpack.c:91-174 | Such packages within the limit never close the io, wherever the stream is cut |
| UnpackSent.ReadStream | lib/libhv/event/hevent.c:329-395 | A connection that carries such packages, in reads of any sizes the buffer has room for: all of them are delivered, each with its own bytes, in order |
| Varint.EncodeInto | lib/libhv/base/hmath.h:28-39 | Writes exactly the varint and nothing behind it |
| Varint.Decode | lib/libhv/base/hmath.h:42-66 | Tells complete, incomplete and overlong varints apart and reads the value of a complete one |
| Varint.RoundTrip | lib/libhv/base/hmath.h:26-66 | What was encoded is decoded, with its length, whatever follows |
| Varint.EncodeDigits | lib/libhv/base/hmath.h:28-39 | The bytes are the digits to base 128, the least significant first, no more than needed, with the top bit on all but the last |
| Varint.LengthBound | lib/libhv/base/hmath.h:28-39 | A value below 128^n takes at most n bytes, so nine for every value that is not negative |
| MultipartSpec.SplitsDoNotMatter | lib/libhv/http/multipart_parser.c:111-306 | The character machine does not depend on the cuts |
| MultipartSpec.ScanStep | lib/libhv/http/multipart_parser.c:223-262 | One character of content: what is let go and what is held back together are what was read, and a match in progress restarts without loss |
| MultipartSpec.ScanRun | lib/libhv/http/multipart_parser.c:223-262 | Over content without the boundary, nothing is lost, added or ended early |
| MultipartSpec.PartRead | lib/libhv/http/multipart_parser.c:216-262 | With a boundary without CR, exactly the content before the first CRLF and boundary is delivered, although the scanner restarts naively |
| MultipartParser.HandleWell | lib/libhv/http/multipart_parser.c:150-206 | A character never leaves a mark open that the new state does not need, except at the end of a header line without a colon |
| MultipartParser.MultipartParser.Execute | lib/libhv/http/multipart_parser.c:111-306 | One call equals the machine on its characters, error position included. The joined trace is that of the machine, but without the characters of a header name without a colon that this buffer brought |
| MultipartParser.MultipartParser.ExecuteAll | lib/libhv/http/multipart_parser.c:111-306 | A stream in any buffers is accepted if and only if the machine accepts the whole of it, and content, values and notifications are those of the machine; without a header line that lacks its colon so is the whole trace |
| MultipartCuts.FeedAllSame | lib/libhv/http/multipart_parser.c:111-306 | For any way of cutting, the traces agree but for the names of header lines without a colon |
| MultipartCuts.SameOthers | lib/libhv/http/multipart_parser.c:200-292 | Traces that agree so far have the same content, values and notifications |
| MultipartCuts.CutsMatter | lib/libhv/http/multipart_parser.c:150-186 | The callbacks for a stream are the same for all ways of cutting it, those of the machine, if and only if no header line ends without a colon; one way of cutting always gives those of the machine |
| MultipartCuts.TornExample | lib/libhv/http/multipart_parser.c:150-186 | A header line `a` and its CR: in one buffer the name is dropped, cut behind the name it is handed over |
| MultipartSpec.CrInBoundary | lib/libhv/http/multipart_parser.c:236-262 | With the boundary `a`, CR, LF, `b`, a part whose content does not contain the boundary line does not end at it |
| MultipartForm.DumpMultipart | lib/libhv/http/http_content.cpp:70-108 | Writes the delimiter, the header and the content of each field, and the closing delimiter |
| MultipartForm.NameRead | lib/libhv/http/http_content.cpp:131-152 | The Content-Disposition value written for a name that avoids the delimiters gives that name back |
| MultipartForm.EntryRun | lib/libhv/http/multipart_parser.c:150-292 | One written field is reported: its header, its content, its end |
| MultipartForm.MapOfEntries | lib/libhv/http/http_content.cpp:154-164 | With distinct names, each field is in the map under its name with its content, and nothing else is |
| MultipartForm.RoundTrip | lib/libhv/http/http_content.cpp:70-234 | Reading what was written gives the same names and contents back, for every non-empty form whose names avoid the delimiters and whose contents avoid the boundary line |
| MultipartForm.EmptyForm | lib/libhv/http/http_content.cpp:70-234 | The empty form is written in a way that is refused, whatever the boundary |
| RingBuf.RingBuf.Sound | lib/libhv/base/hbuf.h:204-254 | In every state the live blocks are non-empty, inside the buffer and pairwise disjoint, and the size is their total |
| RingBuf.LaidUnused | lib/libhv/base/hbuf.h:204-254 | Which stretches are free of live blocks |
| RingBuf.RingBuf.Alloc | lib/libhv/base/hbuf.h:210-233 | Adds one live block at the position returned, keeps all others. Refuses if and only if no free piece is long enough, or the only ones are wasted: the buffer is empty but divided at the end of the last block freed, or the newest block lies before the oldest and the piece is behind all blocks |
| RingBuf.RefusedWhenEmpty | lib/libhv/base/hbuf.h:210-244 | Of ten bytes, all free, six are refused after one block of five came and went |
| RingBuf.RefusedAtTheEnd | lib/libhv/base/hbuf.h:210-244 | Two bytes are free at the end, and two are refused |
| RingBuf.RingBuf.Free | lib/libhv/base/hbuf.h:235-244 | Freeing the oldest block removes exactly it, the head moves to its end, and the test for the wrap always finds it, despite the gap at the end |

## Left out
Functionality of the library that is not part of this model:

- Sockets, polling, SSL, DNS, files, logging, processes, HTTP/2, JSON, KCP, UDP and the client application itself.
- Allocation failure and raw addresses: nodes are objects, buffers are arrays, positions are indices. `rb_node` with
  its `rudp_entry`, and `heap_node` with its timer, are one object each.
- Mutexes: what a mutex guards is one atomic step or one method. `hio_close_rudp`, `rb_replace_node`, `rb_last` and
  the write callbacks are left out.
- Addresses are 28 bytes, the size of `sockaddr_u` without Unix sockets, with the family as the first two bytes on a
  little-endian machine.
- Bit fields are written with division and remainder. Integer widths are explicit where the code relies on them:
  lengths of HTTP bodies and chunks, frame lengths, the 32-bit package length. `nread`, timer keys and counters are
  unbounded.
- `http_parser`: bytes are `char` values and those from 128 up are treated alike, as the tables do. Non-strict mode,
  `http_parser_parse_url`, pausing and callbacks that fail are left out; `on_headers_complete` may answer 0, 1 or 2.
  `max_header_size` does not change during the life of a parser.
- HttpMessage.cpp and HttpResponseWriter.h: only the form of the printed text. Filling in headers, cookies and URLs is
  left out.
- `Http1Parser.cpp`, which collects headers in a map, is left out.
- The WebSocket parser's byte counter `offset`, and the capacity reserved for the message except for the size asked
  for. An addition that overflows an `int` wraps around. What a callback does with bytes behind the buffer, and what is
  left in the parser after an exception except the messages delivered. Control frames between the
  fragments of one message, which the sender's mutex rules out.
- Heaps without a compare function; cron timers and the second heap they live in; the idle and io lists. One list of
  pending events stands for the lists by priority, and callbacks only leave a trace.
- Read-until-length and read-until-delimiter modes; unpackers whose callbacks close or re-enter the io.
- Multipart parts with files, and header lines of 256 bytes or more, which `snprintf` cuts. `Parse` works on the
  joined callbacks.
- `HVLBuf`; the clock of the close timer, and its removal; what another thread may write between the two halves of the
  deferred close in `nio_write`, which are one method here.

Contracts that are weaker than one might expect:

- HttpParser.HttpParser.Execute: when a header is too large, says that the call fails, but not where and with which callbacks, because the bulk loops count at their end: another error may come first. In a call that fails, the open part may be handed over up to the last cut only.
- HttpMessages.RequestRead: there is one blank behind a colon and none at the start of a value, and lines end in CR LF; `HttpTolerance.ReplacedRead` says what makes no difference. Values that go on in the next line are left out, and so is a CONNECT request with a body, which the parser takes for the other protocol.
- HttpFraming.TrailersRead: does not say whether the parser leaves HTTP, which was decided at the end of the headers.
- Timers.Loop.Del: requires that the timer is not linked in the pending list with its pending flag cleared, which only `htimer_reset` of a pending timer causes; the source frees such a timer while it is still linked.
- Timers.Loop.ProcessTimers: requires that no timer in the pending list has been reset since it was listed, as after every dispatch, which empties the list. Such a timer would be linked a second time.
- Unpack.Unpacker.Read: requires that the announced package length is at least 1 and below 2^31; the source adds without a check. The search in delimiter mode assumes a delimiter that is not empty.
- Varint.RoundTrip: the value of ten bytes is not cut to 64 bits; nine bytes hold every `long long` that is not negative.
- MultipartForm.DumpMultipart: fields with a file name are left out, because they read a file.
- WritePath.Io.Write: a write of no bytes on an empty queue counts as a broken connection, as in the source.
- RingBuf.RingBuf.Free: blocks are freed in the order of their allocation with their own sizes, which is what the class is for; blocks of size 0 are not live.
- MultipartSpec.PartRead: requires a boundary without CR; with one, `MultipartSpec.CrInBoundary` is an input for which it fails.
- MultipartForm.RoundTrip: names avoid `;`, `=`, CR and NUL, fit the line buffer of 256 bytes with what is printed around them, and are distinct; contents do not contain CRLF and the boundary line.
- WsChannel.WebSocketChannel.SendFrame: messages are shorter than 2^31 - 16, so that the frame size fits an `int`.
- EventLoop.EventLoop.Read: with a pipe in place of the eventfd, any number of the waiting bytes may be read at once; both variants are one step.
