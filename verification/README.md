# iRacing pit crew: verified models

The repository sends live telemetry of the iRacing simulator to a browser: the iRacing SDK
shares samples through memory, a plugin estimates lap time and fuel, and a web server built
on libwebsockets pushes changed values to a client page. These Dafny files model the parts
that keep real state or turn one representation into another, and prove what they promise.

| component | modules |
|---|---|
| header-name table generator and its interpreter (`minilex.c`, `parsers.c`) | `LexTrie`, `LexTable`, `MinilexProgram` |
| WebSocket frames: writing, masking, the two receive parsers, truncated sends (`output.c`, `parsers.c`, `client-parser.c`) | `WsFrame`, `WsReceive`, `WsRoundTrip`, `WsControl`, `WsRefusal`, `WsSend`, `WsConnection`, `WsTransmission`, `WsVectors` |
| receive flow control (`parsers.c`, `service.c`, `server.c`, `libwebsockets.c`) | `RxFlow` |
| HTTP request headers and bodies (`parsers.c`, `handshake.c`) | `HeaderStore`, `HeaderTable`, `HeaderRuns`, `HeaderNames`, `HeaderValues`, `HeaderUri`, `HeaderPaths`, `HeaderText`, `HttpBody` |
| hashes and base64 (`sha-1.c`, `md5/md5.cpp`, `base64-decode.c`) | `HashBlocks`, `Sha1`, `Sha1Vector`, `Md5`, `Md5Vector`, `Base64` |
| shared-memory exchange and variable layout (`irsdk_memserver.cpp`, `irsdk_utils.cpp`) | `TripleBuffer`, `TripleCalls`, `VarLayout` |
| lap time and fuel estimator (`LapFuelData.cpp`) | `OrderStats`, `LapFuel` |
| delta messages to the browser (`WebServerLWS.cpp`, `parseYaml.js`) | `DeltaSync` |
| descriptor table (`pollfd.c`) | `PollFds` |

Each component has a specification on values (functions and the lemmas about them) and,
where the source updates fields or buffers in place, a class whose methods are proved to do
what those functions say. Bytes are the integers 0 to 255 (`Bytes`), with exclusive or
written out on numbers; hash words are 32 bit vectors.

Where the code and its comments or documentation disagree, the models follow the code:

- `minilex.c` calls 0x08 the fail code, but the interpreter skips it, so an unknown name can
  be taken for a member (`LexTable.UnknownNameAccepted`); what becomes of every name is
  `LexTable.FeedExactly`.
- `minilex.c` allows terminal values up to 0x7ff, but keeps the index in a char, so only
  indices below 128 survive (`LexTable.MembersDecode`); its test for jumps of 64K never fails
  (`LexTable.JumpsFit`), and it checks the table it was compiled with, not the one it writes
  (`MinilexProgram.Minilex.Generate`).
- `minilex.c` does not test whether the strings fit its arrays; `MinilexProgram.Minilex.BuildTrie`
  says exactly when they do.
- the comment in `extension.c` says everything was sent or privately buffered; a clean buffer
  sent in part is neither (`WsSend.ReportedSendExactly`, `WsTransmission.FramesSentExactly`).
- a data write the socket fails leaves `inside_frame` set although no extension is active, and
  the connection open; the next write goes out without head, key or mask
  (`WsTransmission.BareAfterFailure`, `WsTransmission.FramesSentExactly`).
- a connection that waits for the acknowledgement of its own close still parses what it
  receives but refuses to write, so the first ping ends it unanswered (`WsControl.EndsExactly`).
- a receive callback that pauses reception must return 0 for the pause to be safe
  (`RxFlow.ServiceConservesExactly`, `RxFlow.ImpolitePauseLoses`). Resuming from elsewhere takes
  effect only if a writeable event happens to be due or is asked for as well
  (`RxFlow.OutsideResumeStalls`, `RxFlow.ResumedServicedExactly`, `RxFlow.EventResumesExactly`).
- the request parser does not test for room at a question mark and then writes past its
  tables (`HeaderStore.OverflowExactly`, `HeaderRuns.RequestsRunOver`).
- going up a directory with `..` is promised to leave the slash in front ("last issued was /"), but
  leaves it only at the root, and a one-letter name behind it loses its slash
  (`HeaderPaths.UpExactly`, `HeaderPaths.UpGoesWrong`).
- leading spaces of a value are skipped while the header's first fragment is empty: a header that
  comes again after an empty value loses all its spaces (`HeaderValues.LineReadsBack`).
- a question mark without arguments is filed as the arguments `/` (`HeaderUri.UriReadsBack`).
- a client takes the mask bit of a short frame for part of its length, although no frame from a
  server may be masked (`WsRefusal.MaskedFrameMisread`).
- a NUL, raw or as `%00`, is filed without being counted (`HeaderStore.StepKeepsExactly`,
  `HeaderRuns.EscapedNulSpoils`).
- the read that ends the headers of a request counts its header bytes again as body, so NULs that
  lie behind it are delivered, and completion may come before the body
  (`HttpBody.BodyDeliveredExactly`, `HttpBody.NulsDelivered`, `HttpBody.CompletionEarly`).
- the assert against a new send while one is pending is compiled out of release builds, and the
  parser answers pings and closes at any time; what the socket then takes of the answer displaces
  pending bytes (`WsSend.AnyRunConservesExactly`, `WsSend.LateOverwrites`).
- `m_dataCountMax` is described as the number of laps to keep; one more is kept, and a longer
  list is not cut back (`LapFuel.LengthBounded`).
- `parseYaml.js` says an empty value is valid; the page ignores it for four names, which then
  keep their old value (`DeltaSync.ServedExactly`, `DeltaSync.ClearedStays`). A second client is
  not brought in step (`DeltaSync.SecondClientMisses`).

`dafny verify dfyconfig.toml` checks the whole project.

## Model

| member | source | states |
|---|---|---|
| LexTrie.AddChildKeeps | src/libwebsockets/lib/minilex.c:155-161 | claiming the next state for an unseen character keeps every terminal already placed and every path, and reaches the new state by the characters read so far |
| LexTrie.MarkLeafKeeps | src/libwebsockets/lib/minilex.c:166-168 | writing the terminal at the end of a string completes that string and disturbs no earlier one |
| LexTrie.NotLeaf | src/libwebsockets/lib/minilex.c:141-164 | the walk of a string of a prefix-free set never runs through another string's terminal |
| LexTrie.RoomForChild | src/libwebsockets/lib/minilex.c:155-161 | for sets that fit, neither the 1000 states nor the 30 branches of a state run out |
| LexTrie.BuiltFits | src/libwebsockets/lib/minilex.c:130-169 | conversely a trie built inside the fixed arrays shows that the set fits them |
| LexTrie.InsertedIsBuilt | src/libwebsockets/lib/minilex.c:130-169 | once all strings are inserted every non-empty string leads to its own terminal and every edge goes to a later state |
| LexTable.OneByteIff | src/libwebsockets/lib/minilex.c:190-197 | the byte-position test that selects the 1-byte form holds exactly for the last branch of a state, when it leads to the next state |
| LexTable.DecodeEdge | src/libwebsockets/lib/minilex.c:141-272 | decoding the character of any edge in the emitted table, from the position of its state, lands on the position of its target: the compiler preserves each transition |
| LexTable.FeedWord | src/libwebsockets/lib/minilex.c:280-308 | feeding a path of the trie to the table ends, at its last character, at the marker of the terminal reached |
| LexTable.MembersDecode | src/libwebsockets/lib/minilex.c:276-308 | every non-empty string of the set is decoded to its own index exactly when the index is below 128, because main stores it in a char |
| LexTable.HeaderNamesDecode | src/libwebsockets/lib/parsers.c:30-56 | the same for the request parser: a header name in any mix of capitals and small letters is decoded as its entry |
| LexTable.MismatchExactly | src/libwebsockets/lib/parsers.c:36-54 | a character no branch of a state carries is rejected there when the state has a single branch; otherwise the walk goes on two bytes into the next state, past the fail byte |
| LexTable.LastOneByteIff | src/libwebsockets/lib/minilex.c:190-197 | a state ends in the 1-byte form exactly when it has a single branch |
| LexTable.RejectsExactly | src/libwebsockets/lib/parsers.c:36-54 | a state rejects a character exactly when no branch carries it and it has a single branch or the walk resumed in the next state rejects it |
| LexTable.LeaverExactly | src/libwebsockets/lib/parsers.c:36-54 | every name that leaves the trie is rejected on the spot if a single branch was left, and is otherwise read on from two bytes into the next state |
| LexTable.FeedExactly | src/libwebsockets/lib/parsers.c:30-56 | the outcome for every name: the terminal reached with its index and the rest of the name, unfinished, rejected at a single branch, or read on elsewhere |
| LexTable.FollowsTo | src/libwebsockets/lib/parsers.c:30-56 | how far a name follows the trie |
| LexTable.LeaverBehindLeaf | src/libwebsockets/lib/minilex.c:61-70 | behind a branching state whose first string ends one character on, a leaving name is read on as if it stood in the state after that end |
| LexTable.LeaverTakenForNeighbour | src/libwebsockets/lib/minilex.c:61-70 | if a second string ends there, every name that leaves the trie at that state is taken for it |
| LexTable.JumpsFit | src/libwebsockets/lib/minilex.c:244-250 | in 1000 states no jump reaches 64K, so the exit for it is never taken |
| LexTable.UnknownNameAccepted | src/libwebsockets/lib/minilex.c:61-70 | the table of "ab" and "ac" takes "a" with any other character but 0x08 for "ac" |
| MinilexProgram.Minilex.BuildTrie | src/libwebsockets/lib/minilex.c:130-169 | the insertion loops stay inside the fixed arrays exactly when the strings fit them, and then build a trie that holds every string of the set |
| MinilexProgram.Minilex.AssignBytePositions | src/libwebsockets/lib/minilex.c:171-175 | each state gets twice the number of branches of the states before it |
| MinilexProgram.Minilex.AssignRealPositions | src/libwebsockets/lib/minilex.c:177-201 | the sizes counted in advance are the positions the emitted bytes end up at |
| MinilexProgram.Minilex.EmitTable | src/libwebsockets/lib/minilex.c:203-274 | emits the table of the trie, or returns 1 exactly when some jump needs more than 16 bits |
| MinilexProgram.Minilex.LextableDecode | src/libwebsockets/lib/minilex.c:92-116 | the loop over table entries is the decoding function the lemmas are about |
| MinilexProgram.Minilex.SelfCheck | src/libwebsockets/lib/minilex.c:276-308 | the walk of every string through the table the generator was compiled with |
| MinilexProgram.CheckedExactly | src/libwebsockets/lib/minilex.c:276-308 | on a table made for the same strings the self check passes exactly when no index of a non-empty string exceeds 127 |
| MinilexProgram.Minilex.Generate | src/libwebsockets/lib/minilex.c:118-313 | main on every prefix-free set: it leaves its arrays exactly when the strings do not fit, else writes the table of their trie, and its exit code is the verdict of the self check on the table it was compiled with |
| MinilexProgram.Minilex.GenerateTwice | src/libwebsockets/lib/minilex.c:72-74 | compiled again with its own output, the generator vouches for it exactly when every index is below 128 |
| WsFrame.MaskCountFull | src/libwebsockets/lib/output.c:474-478 | the masking loop reaches the whole payload exactly when the payload length plus four fits an int |
| WsFrame.MaskedTwice | src/libwebsockets/lib/output.c:474-482 | masking is its own inverse for every key |
| WsFrame.UnmaskedExactly | src/libwebsockets/lib/output.c:474-482 | a receiver that unmasks every byte gets the payload back exactly when the masking loop reached its end or the key bytes of the rest are zero |
| WsFrame.LengthBytesAre | src/libwebsockets/lib/output.c:396-410 | the eight length bytes written for a long payload are the big-endian bytes of its length, on 64 bit and on 32 bit builds |
| WsRoundTrip.ServerLength | src/libwebsockets/lib/parsers.c:706-815 | reading back any of the three length encodings yields the length and asks for a masking key |
| WsRoundTrip.ServerLengthExactly | src/libwebsockets/lib/parsers.c:706-815 | the server reads back exactly the length sent exactly when it is below the limit of the build |
| WsRoundTrip.PayloadRun | src/libwebsockets/lib/parsers.c:852-891 | a payload longer than the buffer comes out as full-buffer pieces and a non-empty rest, each reported with the length still to come |
| WsRoundTrip.PiecesExactly | src/libwebsockets/lib/client-parser.c:215-249 | the pieces of a payload join to the payload, all but the last fill the buffer and none is empty |
| WsRoundTrip.MaskedMessage | src/libwebsockets/lib/parsers.c:604-1002 | one masked frame is delivered as its message and leaves the server ready for a new frame |
| WsRoundTrip.MaskedRoundTrip | src/libwebsockets/lib/parsers.c:604-1002 | any sequence of non-empty data messages a client frames, with any keys, is delivered by the server parser with the same opcodes, FIN bits and payloads in order |
| WsRoundTrip.UnmaskedRoundTrip | src/libwebsockets/lib/client-parser.c:24-393 | any sequence of non-empty data messages a server frames is delivered by the client parser as the same messages |
| WsRoundTrip.BufferBounded | src/libwebsockets/lib/parsers.c:852-886 | over any input whatever, with any callback results, neither parser's buffer head passes its capacity |
| WsReceive.RunAppend | src/libwebsockets/lib/parsers.c:1181-1214 | bytes may arrive in any portions: parsing two chunks is parsing their concatenation |
| WsConnection.Connection.RxSm | src/libwebsockets/lib/parsers.c:604-1002 | the server parser on the connection's fields and buffer does exactly the step the round trips are about |
| WsConnection.Connection.ClientRxSm | src/libwebsockets/lib/client-parser.c:24-393 | the client parser likewise |
| WsConnection.Connection.ServerSpills | src/libwebsockets/lib/parsers.c:888-1002 | what a spill hands on or answers for every opcode and state, answers as events, and what it leaves in the buffer |
| WsConnection.Connection.ClientSpills | src/libwebsockets/lib/client-parser.c:251-387 | the same for the client side |
| WsConnection.Connection.IssueRaw | src/libwebsockets/lib/output.c:93-232 | sending a fresh buffer, the pending one, or a new one while another is pending, leaves the socket's bytes and the truncated-send buffer as the transmit specification says, and a writeable event stays requested while anything is pending; in the last case more bytes sent than were pending leave a wrapped length |
| WsConnection.Connection.HandlePollout | src/libwebsockets/lib/service.c:36-42 | a POLLOUT event flushes the pending buffer first |
| WsConnection.Connection.MaskPayload | src/libwebsockets/lib/output.c:474-478 | masks the payload in place with the rolling key index and touches nothing else |
| WsConnection.Connection.WriteHead | src/libwebsockets/lib/output.c:378-412 | lays the first byte and the length out backwards in front of the payload |
| WsConnection.Connection.WriteFrame | src/libwebsockets/lib/output.c:331-483 | the bytes handed to the socket are the frame of the payload, masked for a client, with the close reason in front for a server close |
| WsConnection.Connection.Write | src/libwebsockets/lib/output.c:264-529 | a call of libwebsocket_write: what it ignores, what it sends, bare while inside_frame is set and framed otherwise, what it buffers, what it returns, and when it leaves inside_frame set |
| WsConnection.Connection.WriteEstablished | src/libwebsockets/lib/output.c:290-529 | the part of it from the test of inside_frame on |
| WsSend.StepConserves | src/libwebsockets/lib/output.c:163-231 | one send or flush neither loses nor repeats a byte |
| WsSend.RunConserves | src/libwebsockets/lib/output.c:93-232 | over any run of sends and flushes, whatever the socket accepts, the bytes on the socket and then the pending buffer are the accepted prefixes of all issued buffers in order |
| WsSend.AnyStepConservesExactly | src/libwebsockets/lib/output.c:102-182 | a send or flush, also a pong or close issued while something is pending and the assert is compiled out, keeps the bytes exactly when the socket takes none of a new buffer in front of a pending one; if it does, bytes are missing |
| WsSend.AnyRunConservesExactly | src/libwebsockets/lib/output.c:93-232 | over any run of sends and flushes, whatever is pending at a send, the bytes reported as taken are on the socket or pending in order exactly when that never happens |
| WsSend.LateOverwrites | src/libwebsockets/lib/output.c:165-182 | bytes of a new buffer sent while another is pending stand on the socket where the next pending ones belong, the rest of the new buffer is lost, and the stream is as before exactly when they happen to be the same bytes |
| WsSend.FlushesDrain | src/libwebsockets/lib/service.c:36-42 | flushing alone changes no byte: when nothing is pending any more, all of it is on the socket |
| WsSend.IssueReturns | src/libwebsockets/lib/output.c:93-232 | the result is a count of the buffer handed in, and -1 exactly for a socket error |
| WsSend.ReportedSendExactly | src/libwebsockets/lib/extension.c:130-172 | the wrapper reports a complete send; nothing is lost exactly unless a clean buffer was sent in part |
| RxFlow.FreshInput | src/libwebsockets/lib/parsers.c:1181-1214 | what a chunk is parsed of and what is stashed add up to the chunk |
| RxFlow.DrainInput | src/libwebsockets/lib/service.c:375-384 | draining moves the stash position by exactly the bytes parsed |
| RxFlow.ServiceConservesExactly | src/libwebsockets/lib/service.c:375-480 | one service call keeps every received byte exactly unless it reads while a stash exists and the connection is paused |
| RxFlow.DrainSound | src/libwebsockets/lib/service.c:473-480 | a drained stash is given up and the poll for input follows the flow state again |
| RxFlow.RunConserves | src/libwebsockets/lib/parsers.c:1166-1214 | over any run of arrivals, pauses, resumes and partial drains every received byte is parsed once and in order or waits in the stash, and POLLIN is off whenever the stash exists |
| RxFlow.ImpolitePauseLoses | src/libwebsockets/lib/libwebsockets.c:595-608 | a receive callback that pauses but returns 1 leaves POLLIN on, and the second read after it is dropped |
| RxFlow.OutsideResumeStalls | src/libwebsockets/lib/libwebsockets.c:540-551 | a run from a new connection, paused by its first callback and resumed from outside, that ends with nothing polled for: with a stash if more than one byte was read, without one otherwise |
| RxFlow.ResumedServicedExactly | src/libwebsockets/lib/libwebsockets.c:540-551 | whatever sound paused state is resumed from outside, poll has a reason to service it exactly when POLLOUT is on |
| RxFlow.StallsUntilAsked | src/libwebsockets/lib/service.c:365-480 | over any run of events a stalled connection gets no service call before someone asks for a writeable event |
| RxFlow.EventResumesExactly | src/libwebsockets/lib/service.c:366-480 | the first event after an outside resume brings the poll for input back exactly when the connection is not paused anew and had a stash to drain or a writeable callback that returned 0; a stash not paused anew is parsed completely |
| RxFlow.UndisturbedEventDrains | src/libwebsockets/lib/service.c:473-480 | with no callback pausing it again that event drains the stash and polls for input |
| RxFlow.Receiver.ApplyRxFlow | src/libwebsockets/lib/server.c:132-164 | applies a pending change to the event mask, or asks for a writeable callback while a stash exists |
| RxFlow.Receiver.UserCallback | src/libwebsockets/lib/libwebsockets.c:595-608 | flow requests made in a callback take effect at once only when it returns 0 |
| RxFlow.Receiver.InterpretPacket | src/libwebsockets/lib/parsers.c:1166-1214 | the byte loop over a chunk or the stash, in place |
| RxFlow.Receiver.ServiceFd | src/libwebsockets/lib/service.c:365-480 | the established part of the service function: writeable event, drain before read |
| HttpBody.BodyDeliveredExactly | src/libwebsockets/lib/server.c:166-175 | the callbacks get the first content_length bytes of the body of a request, in whatever reads it comes, exactly when these had all arrived with the end of the headers or those behind that read are NULs themselves; otherwise as many NULs as the read had header bytes are taken for body |
| HttpBody.RequestDelivers | src/libwebsockets/lib/handshake.c:64-139 | what a request delivers, whatever lies in the buffer behind the read that ends its headers: the first content_length bytes of the body in that read, of as many bytes behind it as it had header bytes, and of the later reads; completion is called once, exactly when so many have been counted |
| HttpBody.CompletionEarly | src/libwebsockets/lib/handshake.c:64-119 | the read that ends the headers alone calls completion exactly when content_length is at most all the bytes of that read, header bytes included |
| HttpBody.NulsDelivered | src/libwebsockets/lib/server.c:534-562 | headers that end a read without a byte of body: a body no longer than they are, and than the post buffer, is delivered as NULs and completed before it arrives, and nothing is delivered later |
| HttpBody.ChunksDelivered | src/libwebsockets/lib/handshake.c:64-119 | whatever chunks the loop is given from a fresh body state, the pieces join to the first content_length bytes of them, none is larger than the post buffer, and completion is called once, exactly when so many were given |
| HttpBody.ReadAllDelivers | src/libwebsockets/lib/handshake.c:64-119 | after every chunk given to the loop the pieces delivered are all that was given up to content_length, and completion is the last call |
| HttpBody.HttpRequest.ReadBody | src/libwebsockets/lib/handshake.c:64-119 | one run of the loop on the request's fields and a part of a buffer, also when a callback asks for the connection to be closed |
| HttpBody.HttpRequest.EndHeaders | src/libwebsockets/lib/server.c:538-562 | the read that ends the headers, on the cleared service buffer: the loop runs over the rest of what was received and as many NULs as there were header bytes |
| HttpBody.HttpRequest.constructor | src/libwebsockets/lib/server.c:246-268 | the body buffer has the protocol's receive size and nothing is seen yet |
| HeaderStore.ChainIncreases | src/libwebsockets/lib/parsers.c:72-86 | fragment chains strictly increase, so every walk along one ends |
| HeaderStore.ChainsDisjoint | src/libwebsockets/lib/parsers.c:500-534 | the chains of different headers share no fragment |
| HeaderStore.RangesDisjoint | src/libwebsockets/lib/parsers.c:173-180 | fragment ranges in the data never overlap, terminators included |
| HeaderStore.TextLength | src/libwebsockets/lib/parsers.c:72-86 | lws_hdr_total_length is the length of the header's value |
| HeaderStore.StepUsable | src/libwebsockets/lib/parsers.c:181-564 | whatever the input, links and indices stay sound |
| HeaderStore.OverflowExactly | src/libwebsockets/lib/parsers.c:242-385 | the parser writes outside its tables exactly on a question mark, plain or escaped, for which the fragments are used up or the data is full once what it gives back before it is counted, and which does not fail earlier |
| HeaderRuns.RequestsRunOver | src/libwebsockets/lib/parsers.c:362-382 | two requests from an empty table that do so: 75 host headers, the last with a question mark for a value, and one value of 10240 letters and a question mark |
| HeaderRuns.SmallRequestStays | src/libwebsockets/lib/parsers.c:181-385 | a request that asks for at most 75 fragments, by known names and plain or escaped question marks, and has at most half as many characters as the data holds never does |
| HeaderRuns.MarkedRequestStays | src/libwebsockets/lib/parsers.c:181-385 | so a new request of at most 5120 characters with at most 75 known names, question marks and percent signs never does |
| HeaderRuns.OpeningsAreMarked | src/libwebsockets/lib/parsers.c:244-279 | a request asks for no more fragments than it has such marks |
| HeaderRuns.StepModest | src/libwebsockets/lib/parsers.c:181-564 | one character opens at most one fragment and uses at most two characters of data, those held back included |
| HeaderRuns.HostLinesFile | src/libwebsockets/lib/parsers.c:500-538 | n host headers, for n below 76, leave n fragments |
| HeaderStore.BackUpKeeps | src/libwebsockets/lib/parsers.c:311-322 | backing up over a directory only shortens the last fragment |
| HeaderStore.StartFragmentOpens | src/libwebsockets/lib/parsers.c:500-538 | a new or continued header opens the last fragment at the end of the data, with a space filed in it when it continues a header |
| HeaderStore.StepKeepsExactly | src/libwebsockets/lib/parsers.c:181-564 | one character keeps the fragments tiled and terminated exactly when it does not file a NUL, unless it completes the parse |
| HeaderStore.RunKeeps | src/libwebsockets/lib/parsers.c:168-564 | the same over whole requests: repeated, continued and unknown headers, escapes and path squashing included |
| HeaderRuns.EscapedNulSpoils | src/libwebsockets/lib/parsers.c:275-278 | the request GET /%00 leaves the store out of order |
| HeaderStore.ClosedIsReadable | src/libwebsockets/lib/parsers.c:88-109 | once no fragment is open every header is made of terminated, NUL-free fragments |
| HeaderStore.CreateReadsBack | src/libwebsockets/lib/parsers.c:122-155 | a value stored whole reads back as it was |
| HeaderTable.Headers.Copy | src/libwebsockets/lib/parsers.c:88-109 | lws_hdr_copy fails exactly when the value and its NUL do not fit, else writes the concatenation of the chain and returns lws_hdr_total_length |
| HeaderTable.Headers.TotalLengthOf | src/libwebsockets/lib/parsers.c:72-86 | sums the lengths along the chain |
| HeaderTable.Headers.SimpleCreate | src/libwebsockets/lib/parsers.c:122-155 | stores a C string as a fragment of its own, or fails exactly for want of room |
| HeaderTable.Headers.BackUpPath | src/libwebsockets/lib/parsers.c:311-322 | the back-up loop on the data and the last fragment |
| HeaderTable.Headers.StartFragmentOf | src/libwebsockets/lib/parsers.c:500-538 | start_fragment in place: heads a chain or links the end of one |
| HeaderTable.Headers.Parse | src/libwebsockets/lib/parsers.c:181-564 | libwebsocket_parse in place is the step the lemmas are about, and reports leaving the tables exactly where OverflowExactly says |
| Sha1.PaddedIsWhole | src/libwebsockets/lib/sha-1.c:203-235 | padding completes the last block for every message length and adds between 9 and 72 bytes |
| HashBlocks.FoldAppend | src/libwebsockets/lib/sha-1.c:237-260 | hashing block by block may stop and resume at any block boundary, for SHA-1 and MD5 alike |
| HashBlocks.FoldOneMore | src/libwebsockets/lib/sha-1.c:246-258 | one more full block is one more compression |
| Sha1.CircularStep | src/libwebsockets/lib/sha-1.c:150-177 | one step of the 16-word schedule overwritten in place yields the next word of the 80-word schedule and keeps the last sixteen |
| Sha1.HoldPart | src/libwebsockets/lib/sha-1.c:246-259 | input that fits the block completes it or joins the tail |
| Sha1.Context.Step | src/libwebsockets/lib/sha-1.c:104-188 | sha1_step compresses the block with the 80-word schedule and clears it |
| Sha1.Context.Loop | src/libwebsockets/lib/sha-1.c:237-260 | sha1_loop takes input in any portions: the context always stands for everything given so far |
| Sha1.Context.Pad | src/libwebsockets/lib/sha-1.c:203-235 | sha1_pad realises the padding of section 4 of RFC 3174 for every number of bytes in the last block |
| Sha1.Context.Result | src/libwebsockets/lib/sha-1.c:262-283 | the digest is that of the whole message, however it was split |
| Sha1.Hash | src/libwebsockets/lib/sha-1.c:289-300 | SHA1 in one call |
| Md5.PaddedIsWhole | src/libwebsockets/lib/md5/md5.cpp:400-421 | padding completes the last block, for every message length |
| Md5.MixForms | src/libwebsockets/lib/md5/md5_loc.h:57-63 | the cheaper forms of F and G are those of section 3.4 of RFC 1321 |
| Md5.CountAdds | src/libwebsockets/lib/md5/md5.cpp:104-116 | the carry test adds a length to the two-word count modulo 2^64 |
| Md5.LengthWords | src/libwebsockets/lib/md5/md5.cpp:428-439 | the two words at the end are the bit count modulo 2^64, low-order word first |
| Md5.HeldBlocks | src/libwebsockets/lib/md5/md5.cpp:334-349 | compressing the whole blocks in front of the outstanding bytes leaves the message the same |
| Md5.PaddingFits | src/libwebsockets/lib/md5/md5.cpp:400-412 | the pad length is right for every number of outstanding bytes from 0 to 64 |
| Md5.Context.OneBlock | src/libwebsockets/lib/md5/md5.cpp:122-211 | the 64 unrolled operations are the four rounds of section 3.4 of RFC 1321 |
| Md5.Context.ProcessBlock | src/libwebsockets/lib/md5/md5.cpp:84-218 | hashes the whole blocks of a buffer and counts their bytes |
| Md5.Context.Process | src/libwebsockets/lib/md5/md5.cpp:316-366 | however the input is cut, and whether 0 or 64 bytes are kept, the context stands for everything given so far; the copy leaves the internal buffer exactly when bytes are kept and their number plus that of the piece reaches 2^32 |
| Md5.Context.Finish | src/libwebsockets/lib/md5/md5.cpp:386-446 | the digest is that of the whole message |
| Md5.Hash | src/libwebsockets/lib/md5/md5.cpp:470-483 | md5_buffer in one call |
| Base64.EncodeDecodes | src/libwebsockets/lib/base64-decode.c:51-93 | the text of any bytes decodes, by section 4 of RFC 4648, to those bytes |
| Base64.GroupDecodes | src/libwebsockets/lib/base64-decode.c:74-82 | each group of one to three bytes decodes to itself, padding included |
| Base64.EncodeLength | src/libwebsockets/lib/base64-decode.c:84-92 | the text takes four characters for every three bytes begun |
| Base64.LwsB64EncodeString | src/libwebsockets/lib/base64-decode.c:51-93 | succeeds exactly when the output has room for the text and two more characters, then writes text and NUL |
| TripleBuffer.StoreKeeps | src/irsdk/irsdk x.xx/irsdk/irsdk_server/irsdk_memserver.cpp:382-412 | a byte written during a poll touches only the buffer being refilled |
| TripleBuffer.StampKeeps | src/irsdk/irsdk x.xx/irsdk/irsdk_server/irsdk_memserver.cpp:414-420 | publishing the tick makes the buffer that tick's data |
| TripleBuffer.NextKeeps | src/irsdk/irsdk x.xx/irsdk/irsdk_utils.cpp:130-188 | every step of either side keeps what both sides rely on |
| TripleBuffer.RunKeeps | src/irsdk/irsdk x.xx/irsdk/irsdk_utils.cpp:130-188 | and so does every interleaving of any length |
| TripleBuffer.AcceptedCopies | src/irsdk/irsdk x.xx/irsdk/irsdk_utils.cpp:130-188 | every copy the client keeps is, byte by byte, its tick's data or the refill three ticks later, and exactly its tick's data if fewer than two more polls had completed when its last byte was read |
| TripleBuffer.AcceptedTicksIncrease | src/irsdk/irsdk x.xx/irsdk/irsdk_utils.cpp:130-188 | while the server stays connected the ticks given to a client strictly increase, although the scan is not atomic |
| TripleBuffer.TornCopyReachable | src/irsdk/irsdk x.xx/irsdk/irsdk_utils.cpp:130-188 | without the bound on polls a run from the start keeps a copy that is no tick's data |
| VarLayout.RegistrationsTile | src/irsdk/irsdk x.xx/irsdk/irsdk_server/irsdk_memserver.cpp:193-264 | after any registrations names are unique, slots tile the first bufLen bytes of the buffer and nothing registered has moved |
| VarLayout.RegisterKeeps | src/irsdk/irsdk x.xx/irsdk/irsdk_server/irsdk_memserver.cpp:193-264 | one registration: a name ends up registered exactly when it was, or the header is open and there is room; a final header does not change; a new variable gets a slot of its size right behind the others |
| VarLayout.SlotsOrdered | src/irsdk/irsdk x.xx/irsdk/irsdk_server/irsdk_memserver.cpp:229-235 | slots lie in order and do not overlap |
| VarLayout.SlotOf | src/irsdk/irsdk x.xx/irsdk/irsdk_server/irsdk_memserver.cpp:229-235 | every byte below bufLen belongs to a slot |
| VarLayout.PollFills | src/irsdk/irsdk x.xx/irsdk/irsdk_server/irsdk_memserver.cpp:394-412 | one poll makes every slot with a source hold the source's value and leaves every other slot as it was |
| VarLayout.PollRuns | src/irsdk/irsdk x.xx/irsdk/irsdk_server/irsdk_memserver.cpp:394-412 | a poll reaches the shared memory as a run of byte stores of the interleaving model |
| VarLayout.MemServer.RegVar | src/irsdk/irsdk x.xx/irsdk/irsdk_server/irsdk_memserver.cpp:193-264 | registers or re-points a variable and returns its index |
| VarLayout.MemServer.VarNameToIndex | src/irsdk/irsdk x.xx/irsdk/irsdk_server/irsdk_memserver.cpp:438-452 | the first variable of that name |
| VarLayout.MemServer.SetVar | src/irsdk/irsdk x.xx/irsdk/irsdk_server/irsdk_memserver.cpp:294-314 | writes one slot of the current buffer, or nothing |
| VarLayout.MemServer.ResetSampleVars | src/irsdk/irsdk x.xx/irsdk/irsdk_server/irsdk_memserver.cpp:382-392 | clears the current buffer and no other |
| VarLayout.MemServer.PollSampleVars | src/irsdk/irsdk x.xx/irsdk/irsdk_server/irsdk_memserver.cpp:394-436 | fills the current buffer from the sources, stamps it and moves on to the next |
| OrderStats.SortSorts | src/irplugin/LapFuelData.cpp:351-351 | sorting orders the values and loses none |
| OrderStats.MedianSplits | src/irplugin/LapFuelData.cpp:353-364 | at least half of the values lie on either side of the median |
| OrderStats.MadCovers | src/irplugin/LapFuelData.cpp:366-381 | at least half of the values are within one deviation of the median |
| OrderStats.MadBound | src/irplugin/LapFuelData.cpp:366-381 | the deviation is never more than the distance from the median to a lower bound of the values |
| LapFuel.KeepsHalf | src/irplugin/LapFuelData.cpp:320-336 | the three-deviation filter keeps at least half of the values |
| LapFuel.TwoPassesSound | src/irplugin/LapFuelData.cpp:385-401 | for positive values both passes find a deviation of at least 0 and below the median, the second is never empty, and its median is within three deviations of the first |
| LapFuel.LapFuelData.CalcMedian | src/irplugin/LapFuelData.cpp:303-383 | median and deviation of the values that are not outliers, by in-place loops |
| LapFuel.LapFuelData.CalcOptimalLapTimeFuelValues | src/irplugin/LapFuelData.cpp:406-470 | the lap time estimate is positive and at most the median, the fuel estimate at least the median, and the cap is at least 10 |
| LapFuel.LapsInTank | src/irplugin/LapFuelData.cpp:456-469 | the cap above the minimum is the number of whole laps a tank lasts for, and no other number |
| LapFuel.LapFuelData.AddLapData | src/irplugin/LapFuelData.cpp:224-301 | records a lap exactly when it has a time, a level and less fuel than before |
| LapFuel.FuelConserved | src/irplugin/LapFuelData.cpp:224-301 | over any run the fuels recorded since the last rebase sum to the fuel at the rebase minus the stored level |
| LapFuel.RunKeepsLatest | src/irplugin/LapFuelData.cpp:224-301 | over any run the two lists are equally long suffixes of the recorded laps, all positive |
| LapFuel.LengthBounded | src/irplugin/LapFuelData.cpp:271-290 | under a cap the lists never outgrow it by more than one, and a longer list is not cut back |
| LapFuel.LoadSaved | src/irplugin/LapFuelData.cpp:76-186 | loading a saved file gives both lists as their values were printed (six digits by default) |
| LapFuel.LoadSavedExactly | src/irplugin/LapFuelData.cpp:76-186 | it gives both lists back exactly when every value survives being printed |
| LapFuel.LapFuelData.LoadSessionData | src/irplugin/LapFuelData.cpp:139-187 | the two reading loops split the lines at the separator |
| DeltaSync.ParseFinds | irPitCrew_install/Client/parseYaml.js:68-106 | a name's value is found in the text exactly when its line was sent |
| DeltaSync.FoundAfter | irPitCrew_install/Client/UpdateData.js:243-249 | the data marker is found behind session text free of it |
| DeltaSync.FoundInMessage | src/WebServer/WebServerLWS.cpp:494-600 | what the client finds in a message is what the lines of that message say, session text or not |
| DeltaSync.LookupSent | src/WebServer/WebServerLWS.cpp:540-578 | a new or changed value is sent, an unchanged one is not |
| DeltaSync.StripBody | src/WebServer/WebServerLWS.cpp:586-588 | removing characters outside 0..127 from the text strips each value and keeps the lines |
| DeltaSync.ServedExactly | src/WebServer/WebServerLWS.cpp:494-600 | after any message any client holds of a field the server's value exactly when the field was sent and not refused, or held already |
| DeltaSync.InStepExactly | src/WebServer/WebServerLWS.cpp:494-600 | a served client is in step exactly when that is so of every field |
| DeltaSync.WriteableSyncs | src/WebServer/WebServerLWS.cpp:494-600 | one message brings the only client served in step, whether full or a delta, but for the values it refuses |
| DeltaSync.RefusedKeeps | irPitCrew_install/Client/UpdateData.js:557-586 | a refused value leaves the client with what it had under that name |
| DeltaSync.ClearedStays | irPitCrew_install/Client/UpdateData.js:557-571 | a run after which the page still holds IsOnTrack 1 although the server's value was emptied and delivered |
| DeltaSync.RunSyncs | src/WebServer/WebServerLWS.cpp:494-600 | over any run of updates, resets, connections of loaded or reconnecting pages and deliveries to one client, each delivery leaves it with the stripped server value of exactly the names not refused, also of names that went and came back; refused are only empty values of the four names the page does not clear |
| DeltaSync.SecondServedExactly | src/WebServer/WebServerLWS.cpp:62-63 | the flag and the last sent map are shared: a client served right after another holds of the current values exactly those it held before |
| DeltaSync.SecondClientMisses | src/WebServer/WebServerLWS.cpp:452-455 | two pages are loaded, connect and are served in turn: the first is in step, the second holds none of the fields |
| DeltaSync.IracingData.ServerWriteable | src/WebServer/WebServerLWS.cpp:494-600 | the callback builds the message and remembers what it sent |
| DeltaSync.IracingData.StripUnicode | src/WebServer/WebServerLWS.cpp:636-644 | remove_if over the text |
| PollFds.InsertKeeps | src/libwebsockets/lib/pollfd.c:50-54 | insertion keeps lookup and positions mutual inverses and adds one socket that waits for input |
| PollFds.RemoveKeeps | src/libwebsockets/lib/pollfd.c:107-124 | swap-removal keeps them mutual inverses and forgets one socket; the moved descriptor keeps its event mask |
| PollFds.ChangeKeeps | src/libwebsockets/lib/pollfd.c:145-155 | changing one mask disturbs no other |
| PollFds.CountsMatch | src/libwebsockets/lib/pollfd.c:25-134 | there are as many descriptors as live connections |
| PollFds.Context.InsertSocket | src/libwebsockets/lib/pollfd.c:25-67 | refuses exactly when the table is full or the socket number too high, else adds the connection to the map |
| PollFds.Context.RemoveSocket | src/libwebsockets/lib/pollfd.c:70-134 | takes the connection out of the map |
| PollFds.Context.ChangePollfd | src/libwebsockets/lib/pollfd.c:136-155 | clears and sets bits of one connection |
| PollFds.Context.CallbackOnWritableAllProtocol | src/libwebsockets/lib/pollfd.c:230-247 | every connection of the protocol, and no other, waits for output too |
| MinilexProgram.Minilex.constructor | src/libwebsockets/lib/minilex.c:78-88 | an empty state table with one state in use |
| MinilexProgram.Minilex.Lookup | src/libwebsockets/lib/minilex.c:143-150 | finds the first branch of a state for a character |
| MinilexProgram.Minilex.NewChild | src/libwebsockets/lib/minilex.c:155-161 | a branch to the next free state, if the state array and the branch arrays have room |
| MinilexProgram.Minilex.Advance | src/libwebsockets/lib/minilex.c:141-164 | one character of a string: follow or grow, keeping all that was inserted, or show that the strings do not fit |
| MinilexProgram.Minilex.InsertWord | src/libwebsockets/lib/minilex.c:132-168 | one string more is held by the trie, or the strings do not fit |
| MinilexProgram.Minilex.EmitEntry | src/libwebsockets/lib/minilex.c:206-271 | the bytes of one branch in the form its target asks for, or the failing code |
| MinilexProgram.Minilex.EmitState | src/libwebsockets/lib/minilex.c:205-272 | the bytes of one state, positions kept in step |
| MinilexProgram.Minilex.TryString | src/libwebsockets/lib/minilex.c:281-302 | the index found for a string in the table compiled in, or the failure of the walk |
| WsConnection.Connection.constructor | src/libwebsockets/lib/server.c:400-440 | a fresh connection: parser at a new frame, nothing buffered or pending |
| WsConnection.Connection.HandleFirst | src/libwebsockets/lib/parsers.c:690-704 | opcode, reserved bits, FIN and the binary flag of a first header byte |
| WsConnection.Connection.StoreByte | src/libwebsockets/lib/parsers.c:857-866 | one payload byte goes to the buffer and the length counts down |
| WsConnection.Connection.ServerHdrLenByte | src/libwebsockets/lib/parsers.c:706-740 | the 7 bit length byte, for server connections |
| WsConnection.Connection.ServerLen16Byte | src/libwebsockets/lib/parsers.c:742-755 | the 16 bit length |
| WsConnection.Connection.ServerLen64Byte | src/libwebsockets/lib/parsers.c:757-815 | the 64 bit length, byte by byte |
| WsConnection.Connection.ServerKeyByte | src/libwebsockets/lib/parsers.c:817-849 | the masking key, byte by byte |
| WsConnection.Connection.ServerPayloadByte | src/libwebsockets/lib/parsers.c:852-887 | a payload byte, unmasked unless the key is all zero, and the two spill conditions |
| WsConnection.Connection.ClientAfter | src/libwebsockets/lib/client-parser.c:98-112 | what follows a complete length on the client side |
| WsConnection.Connection.ClientHdrLenByte | src/libwebsockets/lib/client-parser.c:58-91 | the 7 bit length byte, for client connections |
| WsConnection.Connection.ClientLen16Byte | src/libwebsockets/lib/client-parser.c:93-112 | the 16 bit length |
| WsConnection.Connection.ClientLen64Byte | src/libwebsockets/lib/client-parser.c:114-178 | the 64 bit length, byte by byte |
| WsConnection.Connection.ClientKeyByte | src/libwebsockets/lib/client-parser.c:180-213 | the masking key, byte by byte |
| WsConnection.Connection.ClientPayloadByte | src/libwebsockets/lib/client-parser.c:215-250 | a payload byte and the two spill conditions |
| WsConnection.Connection.Retain | src/libwebsockets/lib/output.c:195-228 | what the socket did not take is buffered, in a larger buffer if need be |
| WsConnection.Connection.PendingSent | src/libwebsockets/lib/output.c:163-182 | what was sent, of the pending buffer or of a new one, is counted off the pending buffer, in 32 bits |
| WsConnection.Connection.FreshSent | src/libwebsockets/lib/output.c:184-231 | a new send that was partial is returned to the caller or buffered |
| WsConnection.Connection.WriteLength64 | src/libwebsockets/lib/output.c:394-411 | the eight length bytes, in place |
| WsConnection.Connection.WriteLongHead | src/libwebsockets/lib/output.c:392-411 | the head of a frame of 64K and more |
| WsConnection.Connection.FrameMaskGenerate | src/libwebsockets/lib/output.c:25-43 | a fresh key and mask index, or a failure |
| WsConnection.Connection.MaskFrame | src/libwebsockets/lib/output.c:463-483 | masks the payload with a fresh key and puts the key in front of it |
| WsConnection.Connection.BuildPlain | src/libwebsockets/lib/output.c:331-413 | a server frame around a payload |
| WsConnection.Connection.BuildMasked | src/libwebsockets/lib/output.c:331-483 | a client frame around a payload |
| WsConnection.Connection.SendRaw | src/libwebsockets/lib/output.c:485-500 | hands the frame on and reports a data write as complete unless the socket failed |
| WsConnection.Connection.WriteWs | src/libwebsockets/lib/output.c:298-500 | the framing path of a write |
| WsRoundTrip.ServerHead | src/libwebsockets/lib/parsers.c:604-815 | reading back the head of a masked data frame leaves the server waiting for the key, with opcode, FIN and length known |
| WsRoundTrip.ClientLength | src/libwebsockets/lib/client-parser.c:58-178 | reading back any of the three length encodings on the client side |
| WsRoundTrip.UnmaskedMessage | src/libwebsockets/lib/client-parser.c:24-393 | one unmasked frame is delivered as its message |
| RxFlow.Receiver.constructor | src/libwebsockets/lib/server.c:400-410 | reception allowed, nothing stashed |
| RxFlow.Receiver.CallbackOnWritable | src/libwebsockets/lib/pollfd.c:192-217 | the event mask gets POLLOUT and nothing else changes |
| RxFlow.Receiver.RxFlowControl | src/libwebsockets/lib/libwebsockets.c:540-551 | a change is noted and left pending |
| RxFlow.Receiver.RxSm | src/libwebsockets/lib/parsers.c:986-993 | parsing a byte, seen as the callback it may cause |
| RxFlow.Receiver.ParseNext | src/libwebsockets/lib/parsers.c:1205-1213 | a byte is accounted for in the stash and parsed |
| RxFlow.Receiver.StashRest | src/libwebsockets/lib/parsers.c:1186-1203 | the rest of a chunk is stashed unless a stash exists |
| RxFlow.Receiver.DrainStash | src/libwebsockets/lib/service.c:375-384 | the drain and what follows it |
| RxFlow.Receiver.ReadSocket | src/libwebsockets/lib/service.c:388-430 | a read from the socket, parsed at once |
| RxFlow.StepSound | src/libwebsockets/lib/service.c:365-480 | every fair step keeps the conservation and the poll mask |
| HeaderTable.Headers.constructor | src/libwebsockets/lib/parsers.c:58-70 | no header, no data |
| HeaderTable.Headers.StrCpy | src/libwebsockets/lib/parsers.c:101-103 | copies up to and with the NUL |
| HeaderTable.Headers.CopyPiece | src/libwebsockets/lib/parsers.c:101-104 | appends one fragment |
| HeaderTable.Headers.CopyChain | src/libwebsockets/lib/parsers.c:101-106 | appends the fragments of a chain in order |
| HeaderTable.Headers.IssueChar | src/libwebsockets/lib/parsers.c:168-180 | files a character, counted unless it is a NUL, or finds no room |
| HeaderTable.Headers.TakeCharBack | src/libwebsockets/lib/parsers.c:313-314 | gives the last character back |
| HeaderTable.Headers.OpenFragment | src/libwebsockets/lib/parsers.c:508-512 | the next fragment, empty, at the end of the data |
| HeaderTable.Headers.SealArgs | src/libwebsockets/lib/parsers.c:362-382 | closes the fragment and heads the arguments, if there is room |
| HeaderTable.Headers.WalkToEnd | src/libwebsockets/lib/parsers.c:520-523 | the last fragment of a chain |
| HeaderTable.Headers.CollectChar | src/libwebsockets/lib/parsers.c:385-387 | a character filed or the parse failed |
| HeaderTable.Headers.SwallowTest | src/libwebsockets/lib/parsers.c:391-428 | when the challenge body completes the parse |
| HeaderTable.Headers.EolChar | src/libwebsockets/lib/parsers.c:351-428 | end of line, question mark or another character of a value |
| HeaderTable.Headers.PathByte | src/libwebsockets/lib/parsers.c:281-349 | squashing of slashes and dots |
| HeaderTable.Headers.EscByte | src/libwebsockets/lib/parsers.c:242-279 | percent escapes |
| HeaderTable.Headers.FalseEscape | src/libwebsockets/lib/parsers.c:263-274 | a false escape is given back to the parser |
| HeaderTable.Headers.ValueByte | src/libwebsockets/lib/parsers.c:183-428 | a character of a header value |
| HeaderTable.Headers.NameByte | src/libwebsockets/lib/parsers.c:432-500 | a character of a header name |
| Sha1.Context.constructor | src/libwebsockets/lib/sha-1.c:192-201 | the initial hash value and an empty block |
| Sha1.Context.NextWord | src/libwebsockets/lib/sha-1.c:151-155 | the word of a round, stored back into its slot |
| Sha1.Context.RoundLoop | src/libwebsockets/lib/sha-1.c:150-179 | some of the eighty rounds |
| Sha1.Context.AllRounds | src/libwebsockets/lib/sha-1.c:150-179 | the four loops are the eighty rounds of section 6.1 of RFC 3174 |
| Sha1.Context.LoadWords | src/libwebsockets/lib/sha-1.c:110-145 | the sixteen words of the block |
| Sha1.Context.ClearBlock | src/libwebsockets/lib/sha-1.c:187-187 | the block is zeroed |
| Sha1.Context.TakeIn | src/libwebsockets/lib/sha-1.c:246-258 | one turn of the input loop |
| Sha1.Context.PutPad | src/libwebsockets/lib/sha-1.c:94-100 | a padding byte, not counted as message |
| Sha1.Context.FillZeros | src/libwebsockets/lib/sha-1.c:220-222 | zeros up to the length field |
| Sha1.Context.FillBlock | src/libwebsockets/lib/sha-1.c:213-219 | zeros to the end of the block, which is then compressed |
| Sha1.Context.PutLength | src/libwebsockets/lib/sha-1.c:223-235 | the bit count, most significant byte first |
| Md5.Context.constructor | src/libwebsockets/lib/md5/md5.cpp:281-291 | the initial registers, no bytes counted or kept |
| Md5.Context.Operate | src/libwebsockets/lib/md5/md5_loc.h:74-94 | one operation on a register |
| Md5.Context.FourOps | src/libwebsockets/lib/md5/md5.cpp:135-138 | four operations are one line of section 3.4 of RFC 1321 |
| Md5.Context.Round1 | src/libwebsockets/lib/md5/md5.cpp:134-150 | round 1 |
| Md5.Context.Round2 | src/libwebsockets/lib/md5/md5.cpp:152-168 | round 2 |
| Md5.Context.Round3 | src/libwebsockets/lib/md5/md5.cpp:170-186 | round 3 |
| Md5.Context.Round4 | src/libwebsockets/lib/md5/md5.cpp:188-204 | round 4 |
| Md5.Context.LoadWords | src/libwebsockets/lib/md5/md5_loc.h:74-82 | the words of a block, little end first |
| Md5.Context.AddTotal | src/libwebsockets/lib/md5/md5.cpp:104-116 | the two-word byte count |
| Md5.Context.KeepRemainder | src/libwebsockets/lib/md5/md5.cpp:340-343 | the remainder moves to the front of the buffer |
| Md5.Context.FillBuffer | src/libwebsockets/lib/md5/md5.cpp:325-349 | completes and empties the internal buffer, or copies past its end exactly when the 32 bit sum of both lengths wraps |
| Md5.Context.CompressFront | src/libwebsockets/lib/md5/md5.cpp:338-345 | whole blocks leave the internal buffer |
| Md5.Context.TakeBlocks | src/libwebsockets/lib/md5/md5.cpp:351-356 | whole blocks straight from the input |
| Md5.Context.Store | src/libwebsockets/lib/md5/md5.cpp:358-362 | the rest is kept |
| Md5.Context.PadBuffer | src/libwebsockets/lib/md5/md5.cpp:406-440 | padding and length behind the kept bytes |
| Md5.Context.PutWord | src/libwebsockets/lib/md5/md5.cpp:432-440 | four bytes of the length |
| VarLayout.MemServer.constructor | src/irsdk/irsdk x.xx/irsdk/irsdk_server/irsdk_memserver.cpp:53-102 | no variables, three buffers without a tick |
| VarLayout.MemServer.FinalizeHeader | src/irsdk/irsdk x.xx/irsdk/irsdk_server/irsdk_memserver.cpp:348-375 | the header becomes final once |
| VarLayout.MemServer.WriteVar | src/irsdk/irsdk x.xx/irsdk/irsdk_server/irsdk_server.cpp:309-361 | the bytes of one slot and no others |
| VarLayout.MemServer.WriteSamples | src/irsdk/irsdk x.xx/irsdk/irsdk_server/irsdk_memserver.cpp:401-412 | the loop over the variables |
| LapFuel.LapFuelData.constructor | src/irplugin/LapFuelData.cpp:46-53 | no history, no level, no cap |
| LapFuel.LapFuelData.FilterOutliers | src/irplugin/LapFuelData.cpp:326-338 | the values within the limits, in order |
| LapFuel.LapFuelData.MiddleOf | src/irplugin/LapFuelData.cpp:353-364 | the middle value or the average of the middle two |
| LapFuel.LapFuelData.Deviate | src/irplugin/LapFuelData.cpp:366-371 | the deviations replace the values |
| LapFuel.LapFuelData.CalcMedianValues | src/irplugin/LapFuelData.cpp:385-401 | both passes over both lists |
| LapFuel.LapFuelData.LoadFuels | src/irplugin/LapFuelData.cpp:171-183 | the second reading loop |
| LapFuel.LengthAfterAdd | src/irplugin/LapFuelData.cpp:271-296 | the length after a recorded lap |
| LapFuel.LedgerIsLatest | src/irplugin/LapFuelData.cpp:224-301 | the laps since the rebase are the latest recorded |
| LapFuel.StatsOrdered | src/irplugin/LapFuelData.cpp:303-383 | of positive values the deviation is below the median |
| LapFuel.SecondPassClose | src/irplugin/LapFuelData.cpp:385-401 | the second median is within three deviations of the first |
| DeltaSync.IracingData.constructor | src/WebServer/WebServerLWS.cpp:62-63 | a full message is due and nothing was sent |
| DeltaSync.IracingData.Established | src/WebServer/WebServerLWS.cpp:452-455 | a new connection asks for a full message |
| DeltaSync.IracingData.AppendUnsent | src/WebServer/WebServerLWS.cpp:543-583 | the loop appends exactly the fields that changed |
| DeltaSync.ReceiveAllGets | irPitCrew_install/Client/UpdateData.js:243-275 | each name ends up as found, or as it was when nothing was found or an empty value is refused |
| PollFds.Context.constructor | src/libwebsockets/lib/context.c:140-175 | empty tables |
| PollFds.Context.MoveLast | src/libwebsockets/lib/pollfd.c:107-108 | the last descriptor takes the vacant slot |
| PollFds.Context.Resettle | src/libwebsockets/lib/pollfd.c:116-118 | the moved connection learns its position |
| PollFds.Context.Unsettle | src/libwebsockets/lib/pollfd.c:121-122 | a removed connection has no position |
| PollFds.Context.AskSlot | src/libwebsockets/lib/pollfd.c:237-244 | one turn of the loop |
| RxFlow.StartsSound | src/libwebsockets/lib/server.c:407-407 | a new connection satisfies what every run keeps |
| HeaderStore.StartsInOrder | src/libwebsockets/lib/parsers.c:58-70 | so does an empty header table |
| WsControl.ControlDealt | src/libwebsockets/lib/parsers.c:896-939 | what becomes of a masked ping, pong or close frame of any length: an overlong one ends the connection at its length, a close is echoed as far as it fits the buffer and ends it, a ping is echoed in one pong per full buffer and the rest, and a server that is closing itself answers nothing and ends at a ping |
| WsControl.AnsweredExactly | src/libwebsockets/lib/parsers.c:896-939 | a ping or close is answered once with its own data exactly when that has fewer than 126 bytes and fits the buffer and the server is not closing itself |
| WsControl.LongControlDies | src/libwebsockets/lib/parsers.c:710-723 | a control frame announcing 126 bytes or more ends the connection |
| WsControl.ControlPayload | src/libwebsockets/lib/parsers.c:852-939 | the payload of a control frame, with some of it buffered, spilled at each full buffer and at its end |
| WsControl.EmptyFrame | src/libwebsockets/lib/parsers.c:838-849 | a control frame without payload is dealt with when its key is complete |
| WsControl.ControlHead | src/libwebsockets/lib/parsers.c:689-738 | the head of a masked control frame |
| WsControl.MixedRoundTrip | src/libwebsockets/lib/parsers.c:604-1002 | any sequence of data messages, pings, pongs and closes a client frames, also between the fragments of a message and for a server that is closing itself, is dealt with in order up to the first message that ends the connection; if none does the server ends ready for a new frame |
| WsControl.ClientControlDealt | src/libwebsockets/lib/client-parser.c:251-330 | what becomes of an unmasked ping, pong or close frame of any length at a client: an overlong one ends the connection at its length, a close is echoed as far as it fits the buffer and ends it, a ping is echoed in one pong per full buffer and the rest unless the client is closing, and a pong is handed over in pieces with the length still to come |
| WsControl.ClientControlPayload | src/libwebsockets/lib/client-parser.c:225-330 | the payload of an unmasked control frame, with some of it buffered, spilled at each full buffer and at its end |
| WsControl.ClientMixedRoundTrip | src/libwebsockets/lib/client-parser.c:24-393 | any sequence of data messages, pings, pongs and closes a server frames is dealt with by the client in order up to the first message that ends the connection; if none does the client ends ready for a new frame |
| WsControl.EndsExactly | src/libwebsockets/lib/parsers.c:896-939 | at either end all messages are dealt with exactly when there is no close, no control frame of 126 bytes or more and, for a server that is closing itself, no ping among them |
| WsControl.EndsAtFirst | src/libwebsockets/lib/parsers.c:896-939 | what follows the first message that ends the connection makes no difference |
| WsControl.ClosingAnswersNothing | src/libwebsockets/lib/output.c:287-288 | an end that is closing itself echoes no ping and no close |
| WsTransmission.AfterAdds | src/libwebsockets/lib/output.c:264-529 | a write the socket takes adds its whole frame to socket and pending bytes, or less of it exactly when a clean buffer is cut or inside_frame was set; one it fails adds nothing |
| WsTransmission.FramesSentExactly | src/libwebsockets/lib/output.c:264-529 | over any run of writes and flushes on either end, whatever the socket takes or fails, socket and pending bytes are the frames of the writes taken exactly unless a clean buffer was cut or a write was taken behind a failed data write |
| WsTransmission.LosesExactly | src/libwebsockets/lib/output.c:484-529 | the same condition, step by step through inside_frame |
| WsTransmission.BareAfterFailure | src/libwebsockets/lib/output.c:498-521 | a run: the socket fails one data write and takes the next, whose payload goes out without head, key or mask |
| WsTransmission.WrittenIsDelivered | src/libwebsockets/lib/output.c:264-529 | end to end from a client without clean buffers: if no write is taken behind a failed data write, what the socket took and what is pending make an idle server deal with exactly the messages taken, and what the socket took does so once nothing is pending |
| WsTransmission.ServedIsDelivered | src/libwebsockets/lib/output.c:264-529 | the same from a server to a client |
| WsTransmission.SendOne | src/libwebsockets/lib/output.c:264-529 | one write or flush on the connection's fields, inside_frame included, is the step the run is made of |
| WsTransmission.Transmit | src/libwebsockets/lib/output.c:264-529 | a run of calls of libwebsocket_write and POLLOUT flushes, failed ones included, is such a run |
| HeaderNames.AskedIsFed | src/libwebsockets/lib/parsers.c:432-463 | along the bytes of a name the answers of the table to the parser, one character at a time from lextable_pos, are those of feeding the name to the table in one go |
| HeaderNames.MemberNamed | src/libwebsockets/lib/parsers.c:432-463 | on the table made for a set a name of the set, in any mix of cases, is answered as its header at its last character |
| HeaderNames.OtherVersion | src/libwebsockets/lib/parsers.c:409-424 | what atoi makes of the version header matters only while the body of a challenge is read |
| HeaderNames.ReadsName | src/libwebsockets/lib/parsers.c:432-490 | reading a known name byte by byte, whatever atoi makes of the version header, is the run of the parser with those answers |
| HeaderNames.HostIsRead | src/libwebsockets/lib/parsers.c:432-463 | the host name of the runs is what any such table with "host:" in its place answers |
| HeaderNames.HostTextRunsOver | src/libwebsockets/lib/parsers.c:362-382 | from text to overflow: 74 lines "host:" and then "host:?" make the parser with such a table write past its fragments |
| PollFds.RunRefines | src/libwebsockets/lib/pollfd.c:25-247 | after any run of insertions, refused ones included, removals and changes of event masks the lookup and the positions are mutual inverses and the tables stand for the map the same run makes |
| PollFds.RunFromEmpty | src/libwebsockets/lib/pollfd.c:25-247 | the same from the empty tables, with as many descriptors as live sockets |
| PollFds.TableStepKeeps | src/libwebsockets/lib/pollfd.c:25-155 | each operation on the tables is the one on the map |
| PollFds.MapCounts | src/libwebsockets/lib/pollfd.c:53-54 | as many live sockets as descriptors |
| Bytes.XorExactly | src/libwebsockets/lib/output.c:474-478 | a byte is the exclusive or of two others exactly when each of its bits is the sum of theirs modulo 2 |
| WsFrame.MaskedExactly | src/libwebsockets/lib/output.c:462-483 | section 5.3 of RFC 6455: a payload is masked, as far as the loop reaches its end, by exactly the bytes whose bits are the sums of those of its octet i and of octet i modulo 4 of the key |
| WsFrame.LengthFieldIs | src/libwebsockets/lib/output.c:378-412 | section 5.2 of RFC 6455: the shortest of three forms, the mask bit on top, 126 or 127 in front of two or eight bytes in network order that make the length |
| WsFrame.CloseCode | src/libwebsockets/lib/output.c:352-367 | section 5.5.1 of RFC 6455: the body of a close with a reason starts with it as two bytes in network order |
| WsVectors.TextHello | src/libwebsockets/lib/output.c:331-483 | the unmasked and the masked text frame of section 5.7 of RFC 6455 |
| WsVectors.FragmentedHello | src/libwebsockets/lib/output.c:331-412 | the two fragments of section 5.7 of RFC 6455 |
| WsVectors.PingPongHello | src/libwebsockets/lib/output.c:331-483 | the ping and the masked pong of section 5.7 of RFC 6455 |
| WsVectors.LongBinary | src/libwebsockets/lib/output.c:378-412 | the heads of 256 bytes and of 64K in section 5.7 of RFC 6455 |
| WsRefusal.ServerRunRefused | src/libwebsockets/lib/parsers.c:888-1002 | over any bytes, with callbacks or pong writes that do not succeed: the events of the undisturbed run up to the first one refused, and its result is returned |
| WsRefusal.ClientRunRefused | src/libwebsockets/lib/client-parser.c:251-387 | the same at a client, which returns 1 |
| WsRefusal.MaskedFrameMisread | src/libwebsockets/lib/client-parser.c:57-86 | a short frame with the mask bit makes a client wait for 128 bytes more than its payload |
| TripleCalls.AcceptedFresh | src/irsdk/irsdk x.xx/irsdk/irsdk_utils.cpp:130-188 | in every interleaving a copy given to the caller is no older than the last tick published before the call that gave it, and newer than everything published before the call that found the server again |
| TripleCalls.NewerIsTaken | src/irsdk/irsdk x.xx/irsdk/irsdk_utils.cpp:144-151 | in every interleaving a copy is taken behind the scan if any tick the scan read, or the last one published before the call, is above the last one given |
| TripleCalls.NextKeepsCall | src/irsdk/irsdk x.xx/irsdk/irsdk_utils.cpp:130-188 | every step of either side keeps the freshness of the call in progress |
| TripleCalls.CallAlone | src/irsdk/irsdk x.xx/irsdk/irsdk_utils.cpp:144-183 | a call that meets no step of the server gives the newest buffer whole if its tick is above the last one given, nothing otherwise, and the last tick is then that one |
| TripleCalls.OfflineForgets | src/irsdk/irsdk x.xx/irsdk/irsdk_utils.cpp:137-142 | a call that finds the server offline forgets the last tick: the next one that finds it gives nothing and takes note of the newest tick |
| TripleCalls.SecondCopyDecides | src/irsdk/irsdk x.xx/irsdk/irsdk_utils.cpp:156-169 | left alone from some point of its copying, a call gives a copy unless the tick had already changed under its second copy |
| TripleCalls.CallEnds | src/irsdk/irsdk x.xx/irsdk/irsdk_utils.cpp:130-188 | whatever the server does, what is left of a call shrinks with each of its steps |
| TripleCalls.CallIsBounded | src/irsdk/irsdk x.xx/irsdk/irsdk_utils.cpp:130-188 | a call takes at most 2 len + 11 steps, whatever the server does meanwhile |
| TripleCalls.NeverStuck | src/irsdk/irsdk x.xx/irsdk/irsdk_utils.cpp:130-188 | a call in progress can always take a step |
| OrderStats.MedianMirrored | src/irplugin/LapFuelData.cpp:352-364 | the median of the negated values is the negated median, so neither of two middle values is preferred |
| OrderStats.MadReached | src/irplugin/LapFuelData.cpp:366-381 | at least half of the values are no nearer to the median than one deviation |
| LapFuel.OutliersExactly | src/irplugin/LapFuelData.cpp:318-341 | the second pass leaves out exactly the values more than three deviations from the median, if both are positive, and looks at every other one as often as it occurs |
| LapFuel.RunIsOfEvents | src/irplugin/LapFuelData.cpp:225-289 | over any run the stored level is that of the last call, and the laps recorded are those that calls with a lap time and a level below the one before make up |
| LapFuel.RecordedExactly | src/irplugin/LapFuelData.cpp:225-260 | of two calls in a row the second records a lap exactly when it has a lap time and a level from 0 up and below the first one's |
| LapFuel.HoldsLatestLaps | src/irplugin/LapFuelData.cpp:225-289 | a new history holds, after any run, the latest of the laps the calls themselves make up |
| Sha1Vector.Choice | src/libwebsockets/lib/sha-1.c:72-75 | in rounds 0 to 19 the bits of b choose between those of c and d |
| Sha1Vector.Majority | src/libwebsockets/lib/sha-1.c:72-75 | in rounds 40 to 59 the majority of the three bits decides |
| Sha1Vector.ParityFlips | src/libwebsockets/lib/sha-1.c:72-75 | in the other rounds complementing an argument complements the result |
| Sha1Vector.ParityCancels | src/libwebsockets/lib/sha-1.c:72-75 | and two equal arguments cancel |
| Sha1Vector.Roots | src/libwebsockets/lib/sha-1.c:67-69 | the four constants are the square roots of 2, 3, 5 and 10 times 2^30 |
| Sha1Vector.Rotation1 | src/libwebsockets/lib/sha-1.c:77 | a rotation by one as a multiplication |
| Sha1Vector.Rotation5 | src/libwebsockets/lib/sha-1.c:77 | a rotation by five as a multiplication |
| Sha1Vector.Rotation30 | src/libwebsockets/lib/sha-1.c:77 | a rotation by thirty as a multiplication |
| Sha1Vector.AbcDigest | src/libwebsockets/lib/sha-1.c:84-175 | the digest of "abc" is the one of section 7.3 of RFC 3174 |
| Md5Vector.ChoiceB | src/libwebsockets/lib/md5/md5.cpp:84-218 | F of section 3.4 of RFC 1321 chooses between c and d by the bits of b |
| Md5Vector.ChoiceD | src/libwebsockets/lib/md5/md5.cpp:84-218 | G chooses between b and c by the bits of d |
| Md5Vector.ParityIs | src/libwebsockets/lib/md5/md5.cpp:84-218 | H is the parity of three bits |
| Md5Vector.Complements | src/libwebsockets/lib/md5/md5.cpp:84-218 | I is c where b is 0 and d is 1, and its complement elsewhere |
| Md5Vector.AbcDigest | src/libwebsockets/lib/md5/md5.cpp:84-440 | the digest of "abc" is the one of appendix A.5 of RFC 1321 |
| HeaderValues.LineReadsBack | src/libwebsockets/lib/parsers.c:362-425 | the value law: after a line the header reads as its value without leading spaces, or as the old text, a space and the value, without any space if the first value was empty; every other header reads as before |
| HeaderValues.LinesReadBack | src/libwebsockets/lib/parsers.c:362-546 | over any lines with simple headers, in any order and repeated at will, each header reads as the values its lines gave it |
| HeaderValues.RequestReadsBack | src/libwebsockets/lib/parsers.c:362-546 | the same for a header the table did not hold before |
| HeaderValues.UnknownLine | src/libwebsockets/lib/parsers.c:441-460 | a line with an unknown name leaves the store as it was behind a method line, and fails the parse without one |
| HeaderValues.SecondMethod | src/libwebsockets/lib/parsers.c:468-476 | a second GET or POST line fails the parse |
| HeaderValues.OriginByAnotherName | src/libwebsockets/lib/parsers.c:478-481 | Sec-WebSocket-Origin is filed as Origin |
| HeaderValues.EmptyLineEnds | src/libwebsockets/lib/parsers.c:488-499 | the empty line ends a request that is no upgrade, or one with a version, and files nothing |
| HeaderValues.ChallengeReadsBack | src/libwebsockets/lib/parsers.c:404-425 | the challenge behind an upgrade without a version is the next eight bytes: the request is complete with the eighth and not before, and they are what reads back |
| HeaderUri.UriReadsBack | src/libwebsockets/lib/parsers.c:202-425 | the URI law: behind a request line the method's header reads as the path with its escapes undone and its slashes and dots walked, the arguments as they are with their escapes undone, or as a slash if there are none, and every other header as before |
| HeaderUri.PathRun | src/libwebsockets/lib/parsers.c:236-382 | the characters of a path, escaped or not and in either case of the digits, are walked one by one |
| HeaderUri.FalseEscapeKept | src/libwebsockets/lib/parsers.c:251-258 | a percent sign in front of no digit is filed as it is, with what follows |
| HeaderUri.HalfEscapeKept | src/libwebsockets/lib/parsers.c:264-274 | so are a percent sign and a single digit |
| HeaderUri.FalseEscapeInName | src/libwebsockets/lib/parsers.c:251-258 | the same inside a name of the path |
| HeaderPaths.PathIsResolved | src/libwebsockets/lib/parsers.c:282-350 | whatever names, empty segments and "." segments a path is made of: the names are filed as they are, each behind one slash, and nothing else |
| HeaderPaths.UpExactly | src/libwebsockets/lib/parsers.c:316-349 | a path with one ".." comes out as intended exactly when there is at most one directory to leave and the next name, if any, survives: longer than one character or the last, with no dot in front, and none behind its first character that another one, a slash or the end follows |
| HeaderPaths.UpGoesWrong | src/libwebsockets/lib/parsers.c:316-349 | "/a/b/../c" is filed as "/ac" and "/a/../b/c" as "/bc" |
| HeaderText.TextReadsBack | src/libwebsockets/lib/parsers.c:432-546 | from bytes to values: header lines read through the table made for a set of names, whatever the case of the names, leave each header the values its lines gave it |
| LexTable.LoweredExactly | src/libwebsockets/lib/parsers.c:30-56 | folding case makes a text without capitals of exactly the texts that differ from it in capitals for small letters |
| DeltaSync.SessionReaches | src/WebServer/WebServerLWS.cpp:513-531 | what stands in front of the data marker is the stripped session text and a line end in a full message, and nothing in any other |
| DeltaSync.StripExactly | src/WebServer/WebServerLWS.cpp:636-644 | stripping keeps every character below 128 as often as it occurs, and no other |
| RxFlow.InterpretFailsExactly | src/libwebsockets/lib/parsers.c:1182-1215 | the parse of a chunk fails exactly at a byte that fails or whose callback returns less than 0, and stops there |
| RxFlow.ClosesExactly | src/libwebsockets/lib/service.c:365-480 | a service call closes the connection exactly when its writeable callback returns less than 0, the last byte it parsed ends the parse, or, with nothing to drain, the socket reports an error or the end of the stream |
| PollFds.ChangedExactly | src/libwebsockets/lib/pollfd.c:145-155 | an event is waited for exactly if it is set now, or was before and is not cleared |
| WsVectors.Opcodes | src/libwebsockets/lib/output.c:331-376 | the opcodes of section 11.8 of RFC 6455 |
| LexTable.AbAcTable | src/libwebsockets/lib/minilex.c:200-262 | the table of the strings "ab" and "ac", byte by byte |
| DeltaSync.MessageExamples | src/WebServer/WebServerLWS.cpp:508-588 | a full message and two deltas, character by character |
| WsSend.SentExactly | src/libwebsockets/lib/output.c:93-232 | a send or flush, whatever is pending, puts on the socket exactly what that takes from the front of what it is offered, and answers -1 exactly for a socket error |
| WsSend.ReportedFailureExactly | src/libwebsockets/lib/extension.c:130-172 | the wrapper fails exactly when the socket does |
| HttpBody.ReadRefused | src/libwebsockets/lib/handshake.c:64-119 | a callback that refuses is the last one of its read, the calls before it are as ever, and the connection is to be closed |
| HeaderUri.DigitsExactly | src/libwebsockets/lib/parsers.c:154-166 | the parser takes exactly 0 to 9, a to f and A to F for digits of an escape |
| HeaderValues.VersionNeverAsked | src/libwebsockets/lib/parsers.c:415-420 | in the challenge the version is never looked at: it is only entered without one |

## Left out

- Sockets, TLS, poll, threads, random sources, clocks, file handles and memory mapping: what they answer is a parameter.
- Extensions of libwebsockets: none is active.
- The spec-revision-0 framing and the receive states only it enters (mask nonce 1 to 3, first frame header): revision 13 only.
- Close frames a client sends with a reason code: libwebsocket_write would put the key over the reason bytes; excluded by a precondition of WsConnection.Connection.WriteFrame and Write.
- WsConnection.Connection.Write: payloads of 2^31 bytes and more are excluded, because the source casts lengths to int there; WsFrame.MaskCountFull says exactly where masking would stop short. A write while something is pending is modelled from lws_issue_raw on (WsConnection.Connection.IssueRaw, WsSend.AnyRunConservesExactly).
- WsConnection: the bit-fields of the connection are separate fields, and the numbered parser states carry their number.
- WsControl.ControlDealt: the write of an answer succeeds while the connection is established (a failed one is an outcome of WsReceive.ServerStep).
- WsControl.ClientControlDealt: the callback for a pong returns 0 (another result is an outcome of WsReceive.ClientStep).
- WsConnection.Connection.ServerSpills: the writes of close and pong answers appear as events with a given result, as in ClientSpills.
- WsConnection.Connection.IssueRaw: a failing malloc for the truncated-send buffer, and what is sent once the length still pending has wrapped, which is a result of its own.
- WsTransmission.Transmit: the loop around the calls stands for an application; it waits for pending bytes, as the source asserts.
- WsRoundTrip.MaskedRoundTrip: messages are non-empty and their lengths below 2^31 minus 4, where the masking loop still covers the payload.
- RxFlow.Receiver.RxSm: the parser is replaced by the callback a byte causes.
- RxFlow: data a TLS layer holds back, platforms on which changing an event mask can fail, and the client side, which does not stash.
- MinilexProgram.Minilex.Generate: what a write outside the arrays does; it is a result of its own, as is leaving the compiled-in table.
- LexTable.MembersDecode: characters below 0x09 and above 0x7f, which collide with the markers of the table.
- HeaderStore: the name table appears as the answer of the lookup, and atoi as its result (in HeaderNames as any function of the stored text).
- HeaderTable.Headers.NameByte: the walk of the name table is replaced by its answer, and the negotiated revision is not recorded.
- HeaderStore.StepKeepsExactly: says nothing about the store when the NUL is the character that completes the parse.
- HeaderTable.Headers.Parse: what a write outside the tables does; it is a result of its own.
- HeaderPaths: paths with more than one `..`, names that start with two dots, and false escapes behind a slash (the steps are modelled).
- HeaderValues.LineReadsBack: values with a NUL or a question mark, and values that do not fit, whose results are those of HeaderStore.StepKeepsExactly and OverflowExactly.
- HttpBody: the request line, the callbacks before the body and requests answered with a file.
- HttpBody.HttpRequest.EndHeaders: what lies behind the service buffer, when the read that ends the headers nearly fills it; and bytes a TLS read leaves there, which HttpBody.RequestDelivers covers as any bytes.
- Sha1: the byte shuffle of little-endian machines is modelled as reading words most significant byte first.
- Md5.Context.Process: what a copy past the end of the internal buffer does; it is a result of its own.
- Md5: the conversions of a signature to and from hexadecimal text.
- Base64: the decoder of the same file.
- TripleBuffer: memory is sequentially consistent; fewer than 2^31 polls; the call without a data pointer and the time stamps.
- VarLayout: scaling of values by writeVar (a source is the bytes it converts to), the session string, the log to disk and the server in front of both.
- VarLayout.MemServer.FinalizeHeader: the copy of both headers to shared memory and the status flag.
- VarLayout.MemServer.WriteVar: multiplier and offset; the source is given as the bytes it converts to.
- VarLayout.MemServer.RegVar: names are shorter than 32 characters and sizes not negative, as the source asserts.
- LapFuel: rounding (values are real numbers) and the mean-based variants; a line of the file is the number it reads as, which printing may change.
- LapFuel.LapFuelData.CalcOptimalLapTimeFuelValues: the cast of the lap count to int is exact.
- DeltaSync.RunSyncs: in-order delivery; names are ASCII without line ends and semicolons, values without line ends and not the not-set text, session text without the data marker. The numbers and texts the page makes of a value are not modelled.
- DeltaSync: the parsing of the session text.
- PollFds.Context.RemoveSocket: removing the last descriptor, for which the source skips the clean-up, and calls into user code for external poll loops.
- PollFds.Context.ChangePollfd: failing platform hooks and the cancelled poll.
- PollFds.Context.InsertSocket: a socket number is inserted again only after its connection was removed.
- Canvas drawing, widgets, configuration files, telemetry file writers and demo programs.
