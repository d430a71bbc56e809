# Network programming lab: a Dafny model

The repository is a set of small network programs in C and C++. This project models the six that
have real protocol or text logic and proves what they keep:

- a **TFTP client** (`tftp_get`, `tftp_put`). The `put` sender and the `get` receiver are composed
  over two unreliable channels. Each end is also an object over the packet buffer, tied to the step
  functions that the protocol theorems are about, and to the bytes on the wire;
- a **chatroom server**: the accepting thread, one thread per client, the lock and the kernel's
  descriptor table, as interleaved steps, with the three critical sections as methods, and with what the threads can
  always still do;
- the **percent codec**: `url_encode` with its bounded buffer and the pointer-walking `url_decode`;
- **file sharing**: the length-prefixed transfer, the REG table, and the LIST text printed by the
  server and read back by the client;
- the **HTTP file server**: the header scanner, the upload loop, and the links of its listing against
  its own routing;
- the **directory scanner**: the path buffer edited in place, as a stack of folders.

## How the TFTP part is laid out

`Endpoints` has one function per loop; a call is one iteration. The receiver is the code. The sender
comes in two variants, because the code differs from the protocol it implements at four points, listed
at the top of `Endpoints.dfy` with their lines. `AsWritten` is the code; `Intended` resends the last
DATA on a timeout, sends an empty last block, knows "no block sent yet" from a wrapped block number,
and waits for the last ACK like for any other. Safety is proved for both variants. So is progress: for
each variant, the exact condition under which a reachable state can still complete. For `Intended` only
an exhausted retry limit with nothing in flight, or a lost last ACK, is in the way; for `AsWritten` any
lost DATA is, and a file whose length is a multiple of 512. `Complete` is "Transfer complete!" (line
317) and `GaveUp` is leaving at line 322, which also returns 0.

`Answers` says what either loop does about each event from the history alone, without its registers,
and `Transfers` runs each end against a peer that answers byte by byte as the protocol has it.

`Network` has the channels. A run is a list of labels: take, drop and repeat make the FIFO network,
replay makes one that also reorders and delays without bound. Numbers on the wire are 16 bits wide;
unbounded numbers appear only as stamps that neither end can see.

Where a property that one would expect does not hold of the code for all inputs, the lemma says
exactly for which inputs it does (`...Iff`), and its proof builds the failing run or input.

## Model

| member | source | states |
|---|---|---|
| Wire.DecodeEncode | trivial-file-transfer-protocol.c:155-157 | what one end puts on the wire (big-endian opcode and number, then data) the other end reads back, for every packet |
| Wire.EncodeDecode | trivial-file-transfer-protocol.c:285-286 | a DATA or ERROR datagram is determined by its decoding, and an ACK by its first four bytes |
| Wire.LayoutIs | trivial-file-transfer-protocol.c:285-286 | the bytes of each packet: 0 3, 0 4 or 0 5, the number with its high byte first, then the data |
| Wire.ReadsAs | trivial-file-transfer-protocol.c:145-157 | every datagram is read by those bytes: DATA, ACK, ERROR and nothing else are told by 0 3, 0 4 and 0 5 |
| Wire.RequestReads | trivial-file-transfer-protocol.c:95-104 | a request is its opcode and then two C strings, the file name and `octet` |
| Blocks.OnlyLastShort | trivial-file-transfer-protocol.c:298-309 | of the blocks read from a file the last one, and no other, is shorter than 512 bytes; its length is the file's modulo 512 |
| Blocks.SplitAndJoin | trivial-file-transfer-protocol.c:298-309 | cutting a file into blocks and joining full blocks closed by a short one are inverse, both ways |
| FifoSafety.StepKeeps | trivial-file-transfer-protocol.c:110-188 | every timeout, delivery, loss and duplication keeps the lock-step invariant, for the code and the intended protocol |
| FifoSafety.FifoSafe | trivial-file-transfer-protocol.c:155-188 | for files of any length, through every wrap: B <= E <= B+1, DATA and ACKs in flight are blocks B-1 and B, and the output is exactly the first E-1 blocks |
| FifoSafety.Agreement | trivial-file-transfer-protocol.c:298-323 | the receiver stops at the whole file and nowhere else; a sender that reports completion has a receiver that is complete |
| Progress.DeliverData | trivial-file-transfer-protocol.c:155-188 | delivering a DATA brings the exchange strictly closer to its end, in blocks left and then datagrams pending |
| Progress.Nudge | trivial-file-transfer-protocol.c:114-127 | with both channels empty, timeouts alone take one end a block further, also when one end has used up its retries or the expected number has wrapped |
| Progress.Completes | trivial-file-transfer-protocol.c:241-257 | from a hopeful state a lossless schedule of timeouts and deliveries completes at both ends |
| Progress.ProgressIff | trivial-file-transfer-protocol.c:241-263 | with both ends running, a lossless completing schedule exists if and only if a datagram is in flight, the receiver has a retry left, or the sender has one and has sent a block; otherwise no run completes |
| Progress.LastAckIff | trivial-file-transfer-protocol.c:174-177 | once the receiver has gone, the sender can complete if and only if the last ACK is in flight |
| Progress.WrapLeavesDuplicateUnanswered | trivial-file-transfer-protocol.c:178-187 | a duplicate DATA stays unanswered if and only if the expected number is 0 after a wrap |
| CodeAsWritten.LostForEver | trivial-file-transfer-protocol.c:247-257 | without retransmission, once a DATA is lost no run takes either end one block further |
| CodeAsWritten.CodeCompletesIff | trivial-file-transfer-protocol.c:300-323 | the code can complete a transfer if and only if the file's length is not a multiple of 512; otherwise neither end ever completes |
| CodeProgress.CodeProgressIff | trivial-file-transfer-protocol.c:247-323 | from any state the code reaches, some run completes if and only if both ends are complete, or the length is not a multiple of 512 and the awaited DATA or ACK is in flight or the receiver can still repeat the ACK |
| CodeAsWritten.StopsWhenWholeIff | trivial-file-transfer-protocol.c:174-177 | "complete exactly when the output is the whole file" holds in every run if and only if the length is not a multiple of 512 |
| UnorderedSafety.UnorderedSafe | trivial-file-transfer-protocol.c:159-188 | under loss, duplication and reordering, with no delivery 65536 or more blocks stale: lock-step, an output that begins the file, and agreement |
| UnorderedSafety.ShortFileSafe | trivial-file-transfer-protocol.c:73-73 | for files below 65535 * 512 bytes all of it holds however old the replayed datagrams are |
| UnorderedSafety.OutputSafeIff | trivial-file-transfer-protocol.c:159-160 | the output begins the file in every unordered run if and only if blocks with the same 16-bit number are equal; otherwise a run that writes a stale block after a wrap is built round by round |
| UnorderedSafety.AgreementIff | trivial-file-transfer-protocol.c:288-320 | completion at the sender means completion at the receiver in every unordered run if and only if the file is below 65535 * 512 bytes |
| Traffic.NoSorcerersApprentice | trivial-file-transfer-protocol.c:285-307 | in every run of any labels: each block is first sent once and in order, DATA sent <= blocks started + timeouts the sender took, ACKs sent <= DATA the receiver took in + its timeouts |
| Traffic.BoundedByDeliveries | trivial-file-transfer-protocol.c:247-272 | with the retry limit: DATA sent <= blocks started + 5 per packet that reached the sender + 7; ACKs sent <= 6 per packet that reached the receiver + 6 |
| Traffic.EndsRunAlone | trivial-file-transfer-protocol.c:110-188 | in every run each end is where its own loop, alone with the events it took in, would be |
| Traffic.MatchedByReplays | trivial-file-transfer-protocol.c:155-188 | every run, FIFO or mixed, is matched by one of replays and timeouts with the same ends, the same events taken in, and channels that hold exactly the datagrams sent |
| Traffic.ShortFileSafeInEveryRun | trivial-file-transfer-protocol.c:73-73 | so short files are transferred safely in runs of any mix of loss, duplication, reordering and replay |
| Traffic.OldDataAnswered | trivial-file-transfer-protocol.c:159-187 | in any run, a running receiver answers a DATA, however old, with the ACK of that DATA's block if and only if its 16-bit number is not above the expected one, and writes it if and only if they are equal |
| Retries.GetRetries | trivial-file-transfer-protocol.c:110-142 | with p packets consumed, at most 5p+6 timeouts and 6p+6 receives; "max retries" if and only if the history ends in exactly six timeouts, failure if and only if it ends in an error |
| Retries.PutRetries | trivial-file-transfer-protocol.c:241-272 | the same for the main receive of the sender |
| Retries.SingleReceiveIsLast | trivial-file-transfer-protocol.c:309-323 | the single receive is the last one, all before it is the main loop's, so the bounds rise by one |
| Answers.GetStateIs | trivial-file-transfer-protocol.c:159-177 | at any point of a history the file is the payloads of the DATA that each carried the number after the one before, and the transfer is complete if and only if the last event was such a DATA of less than 512 bytes |
| Answers.GetAnswerIs | trivial-file-transfer-protocol.c:114-187 | what the receiver sends at each event, from the history: on up to five timeouts in a row the ACK of the last block taken, to a DATA not above the expected number its own ACK, nothing else |
| Answers.PutStateIs | trivial-file-transfer-protocol.c:288-322 | the blocks read are the ACKs that each carried the number after the one before; the sender completes if and only if the ACK of the last block comes, and as written gives up on anything else in its place |
| Answers.PutAnswerIs | trivial-file-transfer-protocol.c:247-307 | what the sender sends at each event, from the history: on the awaited ACK the next block, on up to five timeouts in a row what its variant repeats, nothing else |
| Answers.RequestRepeated | trivial-file-transfer-protocol.c:247-263 | while nothing has arrived, each of the first five timeouts sends the write request again, and the sixth ends the transfer |
| Answers.ToServerIff | trivial-file-transfer-protocol.c:250-252 | the sender turns to port 69 if and only if it times out with retries left and no block read; as written, also in mid-transfer whenever the block number has wrapped to 0 |
| Clients.ArrivesAsSent | trivial-file-transfer-protocol.c:155-157 | the datagram that one end sends is, at the other end, the event of that very packet |
| Clients.BuildRequest | trivial-file-transfer-protocol.c:95-104 | the request is built in the packet buffer: opcode, name, NUL, `octet`, NUL |
| Clients.GetClient.constructor | trivial-file-transfer-protocol.c:71-104 | the buffer holds the read request of opcode 1, and block 1 is expected |
| Clients.PutClient.constructor | trivial-file-transfer-protocol.c:204-235 | the buffer holds the write request of opcode 2, and no block is read |
| Clients.GetClient.Iterate | trivial-file-transfer-protocol.c:110-189 | one iteration over the packet buffer is one step of the receiver, and the bytes sent are the encoding of its answer |
| Clients.GetClient.Receive | trivial-file-transfer-protocol.c:110-189 | the loop over a history of arrivals reaches the state of the receiver's run, the datagrams sent are the encoded answers of its steps, one by one, and it stops only at a verdict |
| Clients.PutClient.Iterate | trivial-file-transfer-protocol.c:241-326 | one receive of the sender as written is one step of it; what it sends to port 69 at block number 0 is the head of the buffer as it then is |
| Clients.PutClient.SendNext | trivial-file-transfer-protocol.c:289-307 | the next 512 bytes of the file leave as the next block and stay at the head of the receive buffer; nothing is sent or copied if there are none |
| Clients.PutClient.Send | trivial-file-transfer-protocol.c:241-326 | the transfer over a history of arrivals, the single final receive included, reaches the state of the sender's run, sends the answers of its steps, one by one, and stops only at a verdict; before any packet arrives, its first five timeouts send the request as it was built |
| Transfers.DownloadWhole | trivial-file-transfer-protocol.c:110-189 | from the datagrams of a whole file, given byte by byte and for any length, the receiver gets the file, answers block k with the four bytes of ACK k modulo 65536, and completes |
| Transfers.UploadWhole | trivial-file-transfer-protocol.c:241-326 | given the ACKs of the request and of every block, the sender sends the file's datagrams, byte by byte, each once and in order but for an empty last one, and completes |
| Chatroom.SafeStep | multithread-chatroom-server.cpp:36-42 | every step of every thread keeps the registered, pending and closing descriptors apart |
| Chatroom.DescriptorSafety | multithread-chatroom-server.cpp:47-52 | in every interleaving with reused descriptor numbers: filled slots are distinct and hold open descriptors of the clients registered there, and the sending loop addresses exactly the other registered clients |
| Chatroom.SendEffect | multithread-chatroom-server.cpp:49-51 | one turn of the sending loop appends the message to the stream of the client at that slot, if registered and not the sender, and to no other |
| Chatroom.TotalOrder | multithread-chatroom-server.cpp:47-53 | each client's stream is the one log of broadcasts, cut to its registered interval (short of a broadcast still on its way to it), without its own messages |
| Chatroom.CommonOrder | multithread-chatroom-server.cpp:47-53 | two clients' streams are the log read at two ascending lists of positions, those delivered to each, so no two common broadcasts are seen in opposite orders |
| Chatroom.LogIsReceived | multithread-chatroom-server.cpp:34-50 | in every interleaving, the messages that arrived from a client are what the log has of that client, in order, then the one message its thread may hold |
| ChatProgress.ListensIff | multithread-chatroom-server.cpp:32-54 | a client's thread is in its loop if and only if its peer has not hung up, however much it has relayed |
| ChatProgress.GetsThrough | multithread-chatroom-server.cpp:34-53 | from every reachable room, a message that a thread receives, holds or is sending can reach all other registered clients, as the last of their streams, with that thread back in `recv` and nobody hung up |
| ChatProgress.ComesToRest | multithread-chatroom-server.cpp:32-54 | no deadlock: from every reachable room the threads alone come to rest with the lock free, clients that have not hung up in `recv`, the others closed, and no other descriptor open |
| ChatProgress.OpenIff | multithread-chatroom-server.cpp:36-42 | the open descriptors are exactly those of clients not yet closed and the one just accepted |
| ChatProgress.Joins | multithread-chatroom-server.cpp:79-97 | while there are slots, a new connection can get the next slot, with an empty stream from the end of the log on |
| ChatProgress.GoesAway | multithread-chatroom-server.cpp:36-42 | a peer that hangs up can have its slot cleared and its descriptor number free again, with nobody else's registration changed |
| ChatServer.Server.Register | multithread-chatroom-server.cpp:93-97 | fills the slot at the count, and no other; on variables that mirror a room it is that room's registering step |
| ChatServer.Server.Deregister | multithread-chatroom-server.cpp:38-40 | clears that slot and no other; on variables that mirror a room it is that room's clearing step |
| ChatServer.Server.Broadcast | multithread-chatroom-server.cpp:48-52 | sends once, in slot order, to each filled slot that is not the sender's descriptor; in a safe room these are the other registered clients |
| ChatServer.TargetsAreOthers | multithread-chatroom-server.cpp:48-49 | though the loop compares descriptor numbers, it leaves out its own client and no other registered one |
| ChatServer.LoopIsSteps | multithread-chatroom-server.cpp:48-52 | the sending steps of the interleaved model make exactly the calls of the loop |
| Percent.RoundTrip | multithreading-http-server.c:30-47 | decoding undoes encoding for every byte string |
| Percent.EncodeInjective | multithreading-http-server.c:30-47 | no two byte strings have the same encoding |
| Percent.EncodeIs | multithreading-http-server.c:35-43 | letters, digits and `-_.~/` are written as they are, and every other byte as `%` and two digits of `0123456789ABCDEF` |
| Percent.EncodeFixedIff | multithreading-http-server.c:35-38 | a string is its own encoding if and only if it has no other bytes than those |
| Percent.SpellingsDecode | np20.c:119-138 | however a string is spelled, each byte bare, as `+` for a blank or as an escape with digits of either case, decoding gives the string |
| Percent.LoneSign | np20.c:119-119 | a `%` without two hexadecimal digits after it stands for itself |
| Percent.CanonicalIff | np20.c:114-141 | encoding undoes decoding on exactly the strings made of bare plain bytes and upper-case escapes of other bytes |
| Percent.CanonicalCStringIff | np20.c:140-140 | the same on C strings, where a decoded NUL ends the string |
| Percent.DecodeSplitIff | np20.c:117-139 | decoding distributes over a cut if and only if the cut is not inside an escape, malformed and cut-off escapes included |
| Percent.Truncation | multithreading-http-server.c:34-46 | what fits is the whole encoding of a prefix and decodes to it, ends two short of the buffer, keeps at least a third of the limit; complete if and only if all but the last character encodes below the limit |
| PercentCodec.UrlEncode | multithreading-http-server.c:30-47 | the loop writes that prefix's encoding and a NUL, stops as the limit says, and leaves the rest of the buffer alone; a source that fits stays as it is if and only if it has only letters, digits and `-_.~/` |
| PercentCodec.UrlDecode | np20.c:114-141 | the pointer walk writes the recursive decoding and a NUL on every input, also when both pointers are to the same buffer |
| PercentCodec.EncodeThenDecode | multithreading-http-server.c:30-47 | encoding into one buffer and decoding into another always gives a beginning of the source, and the source if and only if all but its last character encodes within the limit; three bytes a character and two to spare suffice |
| PercentCodec.Take | np20.c:119-138 | each turn reads the byte that the input at hand stands for and passes over exactly its token |
| FileTransfer.SendFile | file-sharing-server-client.cpp:278-289 | the stream is the size modulo 2^32, its most significant byte first, and then the whole file |
| FileTransfer.ReceiveFile | file-sharing-server-client.cpp:171-185 | for any segmentation: the file written is the first `size` bytes of what follows the header (all of it on early end), nothing more is consumed, the counter neither passes the size nor wraps; size bytes that the unchecked first `recv` does not bring are what memory held |
| FileTransfer.TransferIff | file-sharing-server-client.cpp:278-289 | the receiver's file is the sender's, whatever follows on the stream, if and only if it is shorter than 2^32 bytes |
| FileTransfer.WholeHeaderIff | file-sharing-server-client.cpp:171-173 | the receiver's file is right whatever its memory held, if and only if the first `recv` brings the whole header and the file is shorter than 2^32 bytes |
| FileTransfer.EarlyEnd | file-sharing-server-client.cpp:180-185 | a stream cut short leaves exactly the delivered part of the file |
| ClientList.TableIs | file-sharing-server-client.cpp:79-87 | after any datagrams the table holds the last registration of each name and nothing else, in name order |
| ClientList.RegistersIff | file-sharing-server-client.cpp:79-81 | a datagram registers a name if and only if its C string is `REG`, a blank and that name |
| ClientList.LessIff | file-sharing-server-client.cpp:100-100 | the order of the table is that of strings: a proper beginning first, else by the first byte that differs |
| ClientList.PrintIs | file-sharing-server-client.cpp:98-102 | the answer is `LIST`, the number of entries in decimal, and for each entry a blank, the name, a blank and the address |
| ClientList.DecimalIs | file-sharing-server-client.cpp:99-99 | the digits printed for a number have its value in base ten and no leading zero |
| ClientList.SignedCount | file-sharing-server-client.cpp:227-227 | the client reads a count with a sign too, and 0 where there is no number |
| ClientList.ParsePrintIff | file-sharing-server-client.cpp:223-234 | the client reads the printed table back if and only if every name in it is non-empty and without whitespace |
| ClientList.ListRoundTripIff | file-sharing-server-client.cpp:96-107 | from datagrams to the client's list, when the answer fits the buffer: exactly the last registrations in name order, if and only if every registered name is a word |
| Registry.Server.Register | file-sharing-server-client.cpp:79-86 | the table updated in place is the insertion of the name, or unchanged when the datagram does not start with REG and a blank |
| Registry.Server.Serve | file-sharing-server-client.cpp:65-87 | over all datagrams, the table is the last registration of each name |
| Registry.Server.List | file-sharing-server-client.cpp:96-107 | the answer to LIST is the printed table; other datagrams get none |
| Registry.ReadList | file-sharing-server-client.cpp:223-234 | the client's loop reads what the specification of the text says |
| Upload.ReadHeader | np20.c:166-177 | one byte at a time, the shortest prefix with its end is read and the rest left, or all of a stream that has none |
| Upload.HeaderEndsWithEnd | np20.c:268-280 | a header without NUL ends in the CR LF CR LF it was read up to |
| Upload.ScanIff | np20.c:166-166 | the scanner stops at the shortest prefix containing CR LF CR LF if and only if that prefix has no NUL |
| Upload.Store | np20.c:306-325 | bytes read = part header + bytes written, and these are the file; it is what followed the header without a gap, ends early only with the stream, and overshoots the content length by less than 1024 |
| Upload.Post | np20.c:268-326 | the file follows the shortest part header without a gap; it is exactly the rest of the body when the stream ends at the content length, all there is on a shorter stream, and overshoots by less than 1024 on a longer one |
| Upload.PostForm | np20.c:268-326 | on a form of any header, data and boundary the part header is found whole and the file is the data and the closing boundary after it, so never the data as sent |
| Upload.FormSplit | np20.c:268-280 | whatever the data and the boundary hold, the part header read from a form is the form's own |
| Upload.SendAll | np20.c:143-155 | what is sent is a beginning of the data as long as the successful calls took together; it calls while something is left and stops at the first call that takes nothing |
| Links.LinkRoutingIff | np20.c:74-99 | a followed link leads to its entry and kind if and only if the path has no whitespace, quote, plus sign, escape or favicon name, and a directory's no final question mark |
| Links.OtherRoutes | np20.c:196-230 | an undisturbed path with the favicon's name leads to the icon, and a directory whose name ends in a question mark to a file without it |
| Links.LinkGoesDown | np20.c:74-84 | in the listing of a stack of folders a folder's link leads to that folder pushed, exactly under the condition above |
| Links.ArrivesIff | np20.c:192-194 | the decoded path is the href if and only if the href is one word without quote, plus sign and escape |
| Links.HandleGet | np20.c:190-230 | decoding, copying back and cutting the question mark in place route the request as the specification says, which tells each route by the decoded path: empty, with the favicon's name, ending in a question mark, or neither |
| Paths.DownIsPush | scandir-mo-rong.c:71-79 | going down is pushing a folder |
| Paths.UpIsPop | scandir-mo-rong.c:50-69 | going up is popping one, and the root stays |
| Paths.RenderIs | scandir-mo-rong.c:50-79 | the path of a stack is a slash before each folder, and a lone slash for no folder |
| Paths.ThereAndBack | scandir-mo-rong.c:142-168 | down through any folders and up n times leaves the stack without its last n folders, the root at most |
| Paths.NoDirectory | scandir-mo-rong.c:155-167 | a name that is not a directory changes nothing, wherever it is entered |
| Paths.UpAfterDownIff | scandir-mo-rong.c:50-79 | up after down restores the text if and only if it is the root or does not end in a slash |
| PathEditor.Editor.UpdateRootUp | scandir-mo-rong.c:50-69 | the backward scan cuts the buffer at its last slash, but keeps the root's |
| PathEditor.Editor.UpdateRootDown | scandir-mo-rong.c:71-79 | the buffer gets one separator and the folder, given room |
| PathEditor.Editor.Run | scandir-mo-rong.c:142-168 | after any commands the buffer is the path of the stack they leave, given room on the way |

## Left out

- Clients.BuildRequest: the file name fits the buffer with the request around it, which the code does not check.
- Addresses, ports and transfer identifiers: a request goes to port 69 and so into neither channel, and the peer of a transfer is the other end of the model; the receiver's first timeout, whose ACK number is 0, starts the sender.
- Error messages in ERROR datagrams, and `send_error`, which nothing calls: no ERROR is ever in a channel of the composed network, though both loops handle one.
- Datagrams shorter than the 4-byte header: the loops would then read bytes left from an earlier datagram, and a DATA would have a negative length.
- Wire.EncodeDecode: says nothing of bytes after the first four of an ACK, which the code ignores.
- Clients.PutClient.Iterate: the single receive at lines 310-322 is a call of its own, made when the last block has been read, instead of a nested one.
- Chatroom.TotalOrder: the server's `send` is taken to send the whole message, a received chunk (up to 1023 bytes) is a message, and there are at most 1024 connections, as the array has no more slots.
- Chatroom.SafeStep: registering and clearing a slot are single steps, since nothing else touches the slots while the lock is held; a failing `accept` and a signal on a broken connection are not modelled.
- ChatProgress.GetsThrough: says that a schedule exists, not that the scheduler takes it.
- ChatServer.Server.Broadcast: returns the list of its `send` calls instead of making them.
- FileTransfer.SendFile: every `send` is complete.
- ClientList.ListRoundTripIff: the count is an unbounded integer, which a reply of under 4096 bytes cannot make overflow; a longer reply would fill the buffer without a NUL; the unbound reply sockets of the LIST client are not modelled.
- Registry.Server.Register: the ordered map is a sorted sequence of entries.
- Upload.Post: the content length is a parameter, the file name and the answer are left out, and a stream that ends before any part byte, where the code reads a null pointer, stores nothing.
- Upload.ReadHeader: the buffer has an explicit length; the code's has no NUL at its end.
- Links.LinkRoutingIff: the browser takes the attribute up to the next quote and sends it as it is; a browser that cuts at `#` or encodes blanks does otherwise.
- Links.HandleGet: the method and path of a request fit their buffers; an empty path, for which the code reads before the buffer, is a route of its own.
- PathEditor.Editor.Run: folder names are as line 2 of the program assumes, whether each is a directory is part of the command, and every path on the way fits the 1024 bytes.
- Percent.RoundTrip: is about byte strings; a NUL ends the C string before the encoder sees it.
- Directory scanning, sorting, HTML boilerplate, favicon bytes, response headers, `Append`, the three comparison functions, usage text and printing: no property beyond concatenation; `Compare` is no consistent order when two different non-directory types meet.
- tcl-chatroom-server.cpp: the parent closes each descriptor after the fork and children share only numbers, so there is no such invariant to keep.
- The other small programs (UDP servers, netcat, ssh and telnet simulations, exercises): I/O plumbing, or weaker copies of what is here.
