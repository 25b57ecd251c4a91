# Protocols and structures of the eltex homeworks, in Dafny

The repository is a collection of small C programs. This project models the ones that hold a real
protocol or a stateful structure, and proves what they keep over whole runs. Run
`dafny verify dfyconfig.toml` to check everything.

| component | files | what is modelled |
|---|---|---|
| spiral fill | `Spiral` | the greedy walk through an n x n matrix |
| pipeline shell | `ShellParser`, `Pipeline` | the in-place tokeniser; the pipe/fork/close loop over descriptor tables |
| message-queue chat | `MqWire`, `MqServer`, `MqClient`, `MqReplication` | text messages, truncated history, replay and broadcast, and the user list a client rebuilds from its stream |
| work queue | `WorkQueue`, `WorkQueueProtocol` | the linked queue in the heap, and every interleaving of acceptors and workers around mutex and semaphore |
| phone book | `SortedList`, `Dictionary` | the sorted doubly linked list in the heap |
| raw UDP echo counter | `UdpChecksum`, `UdpPackets`, `UdpClients`, `UdpServer` | the header checksum, frames byte by byte, the slot table, and the server's loop from frame to frame |
| shared-memory chat | `ShmRing`, `ShmServer`, `ShmTables` | every interleaving of the ring's writer and readers; both user tables and the history |
| taxi drivers | `Driver`, `DriverPipes` | the timed state machine of one driver, and its command and response pipes |
| shared counter | `CounterThreads`, `Counter`, `CounterLocked` | increments without and with the mutex |
| shared definitions | `Options`, `CStrings`, `Arrays` | optional values, C string functions, and appending to and deleting from an array with a counter |

Programs that change memory step by step are methods with loops over arrays, or over nodes in the
heap. Each is proved equal to a function, and the lemmas about the function state what the program
is for. Threads and processes are state machines whose steps are the single loads, stores and calls
of the source, and the lemmas hold for every sequence of steps. Fixed sizes of the source (number of
threads, increments, pipeline length, queue capacity, ring size, matrix size) are parameters there.
Calls into the kernel are abstract steps: a descriptor table, a queue that remembers everything sent
to it, a clock reading, a pipe as a character sequence.

## Where the code does less than one would expect

* **Poll without a timeout while busy** (`22_fork_poll/main.c:99`). The remaining milliseconds are
  converted to `int`. For tasks of at most 2147483 seconds this is harmless; for every longer task
  there is a moment at which the driver polls without a timeout although it is BUSY
  (`Driver.RunsPollBoundedIff`, over all runs; `Driver.LongTaskRun` is a run for each such timer).
* **Stale answers after a timeout** (`22_fork_poll/main.c:57-64`). The parent gives up but the command
  stays in the pipe. Responses belong to their commands exactly in the runs in which nothing is read
  after a poll timed out (`DriverPipes.OwnAnswersIff`); otherwise the first response read begins with
  the answer to the command that timed out, even if the same command was sent again
  (`DriverPipes.StaleAfterTimeout`). `DriverPipes.StatusAnsweredOk` is a run in which a status request
  comes back with "OK".
* **Replies longer than the client's buffer** (`21_raw_sockets/client.c:163-165`). The client sets a
  NUL where the UDP length says. It prints the reply exactly if the 42 bytes of headers, the text, a
  blank, the counter and the NUL fit its 256 bytes; for every longer reply it writes behind its buffer
  (`UdpPackets.Exchange`). The client program itself can send such texts.
* **Replies longer than the server's buffer** (`21_raw_sockets/server.c:135-137`). `snprintf` cuts
  the reply text to 255 characters but returns its whole length, which then counts as the payload's.
  What is sent is the reply text exactly if text, blank and counter are shorter than 256 characters
  (`UdpPackets.ReplySentIff`).
* **Locked-out readers** (`14_shared_memory/chat/client.c:104`). When the history becomes full,
  `current_pos` returns to 0, so a client that has read nothing by then never reads anything
  (`ShmRing.CheckFailsIff`, `ShmRing.LockedOutForever`); `ShmRing.LockedOutHappens` is a run to such a
  state for every size of the history.
* **Second join of a present process** (`13_mqueue/chat/server.c:125-135`). Its one queue gets a second
  entry, the history once more, and every later message twice. The streams are right throughout a run
  exactly if this does not happen in it (`MqServer.RejoinSpoilsStream`, `MqServer.AlwaysRightIff`); two
  NEW_USER messages in a row are the shortest such run (`MqServer.RejoinHappens`).
* **Leaving under another name** (`13_mqueue/chat/client.c:72-82`). The server deletes by process id,
  the clients by name. In any run of well-formed messages, second joins included, the lists agree in
  every state exactly if every leave carries the name that is stored for its process
  (`MqReplication.AlwaysReplicatedIff`; one step is `MqReplication.LeaveReplicatesIff`, and
  `MqReplication.MisnamedHappens` is the shortest run in which they differ). The stored name is cut to
  19 characters; the client program reads at most 9.
* **Messages as long as the receiver's buffer** (`13_mqueue/chat/client.c:91-93`). The server sends all
  256 bytes of its buffer whatever the length of the text, so the NUL that the client adds behind them
  always lands one byte behind its own buffer. What the client reads does not depend on it, because
  every message has a NUL of its own before that (`MqWire.MessagesFit`).
* **Replies longer than the packet** (`21_raw_sockets/server.c:277-280`). The whole reply frame fits the
  packet exactly if 42 bytes of headers, the text, a blank and the counter make at most 1024 bytes, as
  they always do for the client program; longer ones are written behind the packet
  (`UdpPackets.CreateReplyPacket`, `UdpPackets.PacketOverrunHappens`).
* **Writers hold a read end of their own output pipe** (`12_channels/p3.c:86-92`). The child inherits
  it and never closes it, so a stage whose reader has exited blocks instead of failing
  (`Pipeline.Readers`, `Pipeline.NeverBrokenPipe`).
* **One command line that cannot be run** (`12_channels/p3.c:44-45`). Every command line within the
  limits is parsed back as it was printed, except a single command without arguments; and the command
  `exit` alone ends the shell (`ShellParser.InterpretInvertsPrint`).

## Model

| member | source | states |
|---|---|---|
| Spiral.Fill | 02_arrays/p4.c:33-50 | for every size the loop ends with each cell holding its spiral number, and the cells it writes, in that order, are each inside the matrix and written once, so still 0 before |
| Spiral.GreedyStepIsNext | 02_arrays/p4.c:41-49 | before the last number, one turn at most always leads from a number's cell to its successor's, which is inside the grid and free, although the code does not check again |
| Spiral.EachNumberOnce | 02_arrays/p4.c:39-40 | every number from 1 to n*n is in exactly one cell |
| Spiral.NumbersDistinctInRange | 02_arrays/p4.c:39-40 | every cell has a number from 1 to n*n, and two cells have the same number only if they are the same cell |
| Spiral.ConsecutiveNumbersAdjacent | 02_arrays/p4.c:41-49 | consecutive numbers lie in cells that share an edge |
| Spiral.RingStart | 02_arrays/p4.c:33-50 | ring r starts at (r,r) with 4r(n-r)+1 |
| Spiral.RingGoesRight | 02_arrays/p4.c:33-50 | and its upper side is numbered from left to right |
| Spiral.CellsIsSquare | 02_arrays/p4.c:39 | counting ring by ring gives size*size, the bound of the loop |
| CStrings.TokensSplit | 12_channels/p3.c:51-63 | a delimiter anywhere in a text splits its strtok_r tokens into those before and those after it |
| CStrings.AtoiOfDecimal | 13_mqueue/chat/server.c:123 | atoi reads back what %d printed, for negative numbers too |
| ShellParser.StrtokR | 12_channels/p3.c:51-63 | strtok_r in the buffer: yields the first token, leaves the others for later calls, and only overwrites characters of its string with NUL |
| ShellParser.TrimInPlace | 12_channels/p3.c:54-60 | the two trimming loops leave the trimmed segment in the buffer |
| ShellParser.TrimIs | 12_channels/p3.c:54-60 | trimming takes away blanks at both ends, all of them and nothing else |
| ShellParser.SplitSegments | 12_channels/p3.c:47-64 | the bar loop yields at most ten trimmed segments, which do not overlap |
| ShellParser.SplitArguments | 12_channels/p3.c:66-75 | the argument loop yields the first 32 blank-separated words of a segment, as pointers into it |
| ShellParser.ParseLine | 12_channels/p3.c:47-76 | after the whole in-place parse every argument pointer still reads as its argument: no later NUL hits an earlier command |
| ShellParser.TrimIsRedundant | 12_channels/p3.c:54-60 | on any segment the explicit trim leaves the argument list unchanged |
| ShellParser.ParseInvertsPrint | 12_channels/p3.c:47-76 | parsing the printed form of up to 10 commands of up to 32 words gives the commands back, exactly unless it is one command without words |
| ShellParser.LongLinesAreCut | 12_channels/p3.c:47-76 | of a longer line exactly the first ten commands are kept, and of each exactly the first 32 words |
| ShellParser.InterpretInvertsPrint | 12_channels/p3.c:41-76 | the shell runs exactly the commands printed, unless their line is empty or reads `exit` |
| Pipeline.Shell.Pipe | 12_channels/p3.c:86 | pipe opens both ends of a new pipe under unused descriptors |
| Pipeline.Shell.ExecuteCommand | 12_channels/p3.c:11-32 | the child has the shell's table with both standard streams redirected and the redirected descriptors closed; without a fork there is no child |
| Pipeline.Shell.RunPipeline | 12_channels/p3.c:81-109 | for any number of commands and any failing forks: the shell's table is as before, each child's table is exactly as it should be, and the shell held at most three pipe descriptors at once (exactly 3 from three commands on) |
| Pipeline.OnlyWriter | 12_channels/p3.c:81-109 | the write end of pipe i is held by child i alone, as its standard output |
| Pipeline.Readers | 12_channels/p3.c:81-109 | child i+1 reads pipe i as its standard input; besides it only child i holds a read end, left open |
| Pipeline.EndsOfPipeline | 12_channels/p3.c:81-109 | the first child reads what the shell reads, the last one writes where the shell writes, and all other descriptors of the shell are handed on unchanged |
| Pipeline.EofWhenWriterGone | 12_channels/p3.c:81-109 | whatever other stages run, a stage can get more input exactly while its predecessor runs |
| Pipeline.NeverBrokenPipe | 12_channels/p3.c:81-109 | a running stage never finds its output pipe without a reader |
| MqWire.DecodeInvertsPrinting | 13_mqueue/chat/client.c:161-168 | the server recovers from a client's text message the event that was meant, and its own notice of it reads as the same event |
| MqWire.NoticeFields | 13_mqueue/chat/server.c:141-160 | strtok_r splits every notice into exactly the fields of its event |
| MqWire.MessagesFit | 13_mqueue/chat/server.c:141-160 | no message is cut off by the buffers or the history |
| MqServer.ChatServer.Find | 13_mqueue/chat/server.c:30-35 | the first entry with that process id, or -1 |
| MqServer.ChatServer.RecordAndBroadcast | 13_mqueue/chat/server.c:163-166 | records the message while there is room and sends it once to every user |
| MqServer.ChatServer.HandleJoin | 13_mqueue/chat/server.c:120-152 | NEW_USER on the arrays and queues: entry, replay of the history, record and broadcast, in this order; nothing when ten users are present |
| MqServer.ChatServer.HandleLeave | 13_mqueue/chat/server.c:172-198 | USER_LEFT: entry removed by shifting, queue name removed, record and broadcast; nothing for an unknown process |
| MqServer.ChatServer.HandleMessage | 13_mqueue/chat/server.c:105-199 | one turn of the loop is one step of the model |
| MqServer.PostKeepsConsistent | 13_mqueue/chat/server.c:143-146 | recording and broadcasting extends every user's stream by one message |
| MqServer.RemovalKeepsConsistent | 13_mqueue/chat/server.c:184-186 | shifting the array keeps every other user with its own queue and stream |
| MqServer.RejoinSpoilsStream | 13_mqueue/chat/server.c:125-146 | at a second join of a present process its queue gets the history again and the notice twice, so that its stream is not what it should be |
| MqServer.JoinConsistentIff | 13_mqueue/chat/server.c:125-146 | a join leaves every user with exactly its stream if and only if the process is not a user yet, or there is no room |
| MqServer.HandleConsistentIff | 13_mqueue/chat/server.c:119-199 | a message that has its fields leaves every user with exactly its stream, unless, and only unless, it is a second join of a present user |
| MqServer.OneMessage | 13_mqueue/chat/server.c:119-199 | an event that is accepted (any message, a join that finds room, a leave of a present user) adds one message to the log that reads as the event, sends exactly that once to everyone who was there and stays, and changes the users accordingly; any other event changes nothing |
| MqServer.ServeConsistent | 13_mqueue/chat/server.c:105-199 | over any run without such a join, every user has been sent the first min(j,100) log messages followed by those from its join at j on |
| MqServer.AlwaysRightIff | 13_mqueue/chat/server.c:105-199 | all streams are right in every state of a run if and only if no present user joins again in it |
| MqServer.RejoinHappens | 13_mqueue/chat/server.c:120-152 | two NEW_USER messages of one process are a run that spoils its stream |
| MqServer.StreamIsWholeLog | 13_mqueue/chat/server.c:37-44 | a stream is the whole log exactly for users that joined within the first 100 messages |
| MqClient.Receiver.Add | 13_mqueue/chat/client.c:60-70 | appends the name while there are fewer than ten |
| MqClient.Receiver.Remove | 13_mqueue/chat/client.c:72-82 | removes the first entry of that name by shifting |
| MqClient.Receiver.HandleMessage | 13_mqueue/chat/client.c:94-135 | one received message changes user list and chat lines as the model says: nothing without a name, a blank line for an unknown type or a missing text, and the last slot overwritten when the lines are full |
| MqReplication.JoinNeverDropped | 13_mqueue/chat/client.c:64-69 | add_user has room for every join that the server admitted |
| MqReplication.LogIsRecorded | 13_mqueue/chat/server.c:119-199 | over any run the log, read back message by message, is exactly the events that were accepted, in order |
| MqReplication.LinesTell | 13_mqueue/chat/client.c:104-135 | the chat lines of a client are the first 99 events of its stream, in the words of the source |
| MqReplication.LeaveReplicatesIff | 13_mqueue/chat/client.c:72-82 | deletion by pid and deletion by name keep the same multiset of names exactly if the message carries the stored name |
| MqReplication.AlwaysReplicatedIff | 13_mqueue/chat/server.c:119-199 | over any run of well-formed messages, second joins included, both lists have the same names in every state if and only if nobody leaves under another name than the stored one |
| MqReplication.MisnamedHappens | 13_mqueue/chat/client.c:72-82 | a process that joins and leaves under another name is such a run |
| MqReplication.BehaveIsHonest | 13_mqueue/chat/client.c:161-193 | processes that join once and use one name always leave under the name the server has for them |
| MqReplication.RunReplicates | 13_mqueue/chat/server.c:119-199 | in every state of every such run the whole log shows the server's users, up to order, and all streams are right |
| MqReplication.RunReplicatesInOrder | 13_mqueue/chat/client.c:72-82 | while no two users share a name the order agrees too |
| MqReplication.ClientFollowsServer | 13_mqueue/chat/client.c:84-138 | a client that joined before anything was dropped shows, after any prefix of its stream, the users the server had at that point of the log, in the server's order if no two users had shared a name by then |
| WorkQueue.ThreadQueue.constructor | 16_sockets/part2/consumer_producer/queue.c:3-10 | an empty queue of the given capacity |
| WorkQueue.ThreadQueue.Enqueue | 16_sockets/part2/consumer_producer/queue.c:15-40 | appends the descriptor, or refuses with -1 exactly when the queue is full or malloc fails; front, rear, links and size stay consistent |
| WorkQueue.ThreadQueue.Dequeue | 16_sockets/part2/consumer_producer/queue.c:47-64 | takes the oldest descriptor and frees its node, or returns -1 exactly when the queue is empty |
| WorkQueue.ThreadQueue.Cleanup | 16_sockets/part2/consumer_producer/queue.c:67-79 | closes every queued descriptor once, oldest first, and frees exactly the nodes of the queue |
| WorkQueueProtocol.LinkOnNodes | 16_sockets/part2/consumer_producer/queue.c:15-40 | the locked part of enqueue on the linked nodes does exactly what the linking step of the interleaving model does |
| WorkQueueProtocol.TakeFromNodes | 16_sockets/part2/consumer_producer/queue.c:47-64 | the locked part of dequeue on the linked nodes does exactly what the taking step does |
| WorkQueueProtocol.AcceptedIsQueued | 16_sockets/part2/consumer_producer/queue.c:12-40 | while there is room an accepted connection is queued last and announced by one permit, in five steps |
| WorkQueueProtocol.AcceptedIsRefused | 16_sockets/part2/consumer_producer/server.c:84-91 | without room or node it is closed at once and nothing else changes |
| WorkQueueProtocol.QueuedIsServed | 16_sockets/part2/consumer_producer/server.c:93-128 | a worker uses one permit, takes the oldest connection and closes it |
| WorkQueueProtocol.StepKeepsExclusion | 16_sockets/part2/consumer_producer/queue.c:13-61 | at most the holder of the mutex is between lock and unlock |
| WorkQueueProtocol.StepKeepsPermits | 16_sockets/part2/consumer_producer/queue.c:29-60 | semaphore + linked but not posted + passed but not unlinked = nodes in the queue, in every step |
| WorkQueueProtocol.StepKeepsPlaces | 16_sockets/part2/consumer_producer/server.c:75-128 | every accepted connection stays in exactly one place: queued, closed, or one thread's to close |
| WorkQueueProtocol.RunKeepsInv | 16_sockets/part2/consumer_producer/queue.c:12-65 | all of this, and handed out + queued = linked with size within capacity, in every state of every interleaving |
| WorkQueueProtocol.DequeueFindsNode | 16_sockets/part2/consumer_producer/queue.c:43-52 | a dequeuer that passed the semaphore never finds front == NULL |
| WorkQueueProtocol.NoLostWakeup | 16_sockets/part2/consumer_producer/queue.c:38-44 | with nobody in between, the semaphore counts exactly the queued connections |
| WorkQueueProtocol.DeadlockFree | 16_sockets/part2/consumer_producer/server.c:75-128 | some thread can always go on, unless all are workers waiting for an empty queue |
| WorkQueueProtocol.ClosedExactlyOnce | 16_sockets/part2/consumer_producer/server.c:84-109 | once no thread is busy with it, a connection is closed exactly once by the rejecting loop, by handle_client or by the final cleanup |
| WorkQueueProtocol.NeverClosedTwice | 16_sockets/part2/consumer_producer/server.c:84-109 | a thread that still has a connection to close has one that is open and not queued |
| WorkQueueProtocol.ServedInAcceptOrder | 16_sockets/part2/consumer_producer/server.c:75-91 | with one acceptor, connections are handed out in the order of their acceptance |
| Dictionary.StrcmpEqual | 04_structures/list.c:26-38 | strcmp is 0 exactly for equal strings, and antisymmetric |
| Dictionary.StrcmpIsDictionary | 04_structures/list.c:26-38 | strcmp is negative exactly if the first string is a proper prefix of the second or has the smaller character at the first difference |
| SortedList.List.Add | 04_structures/list.c:16-50 | insert on the nodes is insertion before the first name not smaller; links in both directions stay matched and acyclic |
| SortedList.List.Remove | 04_structures/list.c:52-67 | delete_node removes and frees the first record of that name, or returns 1 and changes nothing |
| SortedList.List.Find | 04_structures/list.c:69-76 | find_by_name returns the first node of that name, or NULL |
| SortedList.List.FreeAll | 04_structures/list.c:78-84 | free_list frees every node once and no other |
| SortedList.RunSorted | 04_structures/list.c:16-67 | the list is sorted by name after any run of inserts and deletes |
| SortedList.RunInDictionaryOrder | 04_structures/list.c:16-67 | after any run no record stands before one whose name comes first in the dictionary |
| SortedList.FindAfterInsert | 04_structures/list.c:43-49 | a lookup straight after an insert finds the new record, which stands before all equal names |
| SortedList.DeleteUndoesInsert | 04_structures/list.c:52-67 | deleting the name straight after inserting it restores the list |
| SortedList.RunIsStackPerName | 04_structures/list.c:16-67 | after any run the records of each name are a stack, newest first |
| SortedList.FindsTopOfStack | 04_structures/list.c:69-76 | a lookup finds the newest record of that name that was not deleted, exactly if there is one |
| UdpChecksum.IpChecksum | 21_raw_sockets/server.c:79-92 | the loop computes the RFC 1071 checksum without overflowing 32 bits, folds at most twice, and its stored bytes do not depend on the host's byte order |
| UdpChecksum.ChecksumMakesIntact | 21_raw_sockets/server.c:150-151 | storing the checksum makes the words of the header sum to 0xFFFF |
| UdpChecksum.FoldsToOnes | 21_raw_sockets/client.c:37-39 | exactly the positive multiples of 0xFFFF fold to all ones |
| UdpChecksum.OneWordError | 21_raw_sockets/client.c:29-42 | a change of one word of an intact header is noticed, except exactly the changes between 0 and 0xFFFF |
| UdpPackets.WriteHeaders | 21_raw_sockets/client.c:230-250 | the headers that the client prepares once, byte by byte |
| UdpPackets.FillClientPacket | 21_raw_sockets/client.c:92-110 | each line of input turns the reused packet into exactly the frame for that text |
| UdpPackets.CreateReplyPacket | 21_raw_sockets/server.c:118-169 | if headers, text, blank and counter fit the packet of 1024 bytes, the reply is the frame with all addresses and ports swapped whose payload is what snprintf and memcpy make of the text, a blank and the counter; otherwise, and only then, it is written behind the packet |
| UdpPackets.PacketOverrunHappens | 21_raw_sockets/server.c:215-280 | replies to the client program always fit the packet; a text of 981 characters from another program is accepted and its reply never does |
| UdpPackets.ServerReceive | 21_raw_sockets/server.c:215-248 | the filter and payload extraction on the server's buffer, with 16-bit length arithmetic, on hosts of either byte order |
| UdpPackets.ClientReceive | 21_raw_sockets/client.c:143-166 | the filter and payload extraction on the client's buffer; a terminator behind the buffer is an outcome of its own |
| UdpPackets.FrameIsCarried | 21_raw_sockets/server.c:215-234 | all header fields and the payload of a received frame read back as they were built, whatever is behind them in the buffer |
| UdpPackets.ServerReadsFrame | 21_raw_sockets/server.c:215-246 | of whatever carries a client frame that fits, the server reads path and payload as they were sent |
| UdpPackets.ClientReadsFrame | 21_raw_sockets/client.c:143-166 | a client accepts every reply, cut off by its buffer or not; it reads the same payload if that fits its buffer, and writes behind the buffer for every longer one |
| UdpPackets.LengthsAndChecksum | 21_raw_sockets/client.c:96-107 | total length, UDP length and checksum of a frame agree with its bytes |
| UdpPackets.FrameLayout | 21_raw_sockets/client.c:230-250 | every byte of a frame but its checksum and lengths, at its offset |
| UdpPackets.ReplySwaps | 21_raw_sockets/server.c:124-156 | in the bytes of a reply both hardware addresses, both IP addresses and both ports of the request are exchanged |
| UdpPackets.ServerTakesIff | 21_raw_sockets/server.c:215-248 | of all frames that fit, the server takes exactly those for its address and port 9999 that are not empty |
| UdpPackets.ServerTakesOnly | 21_raw_sockets/server.c:215-248 | any bytes it takes are IPv4 and UDP to its address and port, not empty and completely received |
| UdpPackets.ClientTakesIff | 21_raw_sockets/client.c:143-161 | a client takes exactly the frames from its server's address and port 9999 to its own address and port 7777 |
| UdpPackets.ReplySays | 21_raw_sockets/server.c:135-137 | a reply text is the payload, a blank and decimal digits whose value is the counter |
| UdpPackets.SentTextIff | 21_raw_sockets/server.c:135-164 | memcpy sends exactly the reply text if and only if it has fewer than 256 characters |
| UdpPackets.ReplySentIff | 21_raw_sockets/server.c:135-164 | the same as a condition on the text received and the counter |
| UdpPackets.Exchange | 21_raw_sockets/server.c:118-169 | from typed text to printed reply: the server reads the text as typed, and the client prints text, blank and counter exactly if they fit its buffer behind the headers |
| UdpClients.Clients.GetClientIndex | 21_raw_sockets/server.c:52-69 | the slot of the key, or a free slot newly taken; -1 exactly when the key is absent and ten clients are in |
| UdpClients.Clients.ResetClient | 21_raw_sockets/server.c:72-77 | takes the client out of the table |
| UdpClients.Clients.HandleMessage | 21_raw_sockets/server.c:258-280 | slots with holes behave as a map bounded at ten: admission, quit and counting |
| UdpClients.CountersCount | 21_raw_sockets/server.c:258-280 | over any run a counter is the number of admitted messages since admission or last quit, and a client is in the table exactly when that is positive |
| UdpClients.AfterQuitIsLast | 21_raw_sockets/server.c:267-272 | no admitted quit comes after the point from which messages are counted |
| UdpClients.AfterQuitIsQuit | 21_raw_sockets/server.c:267-272 | and that point is straight behind an admitted quit of the client, or at the start |
| UdpClients.ReplyCounts | 21_raw_sockets/server.c:274-280 | the counter in a reply is that number, this message included |
| UdpClients.TableBounded | 21_raw_sockets/server.c:44-69 | never more than ten clients |
| UdpClients.RefusedIff | 21_raw_sockets/server.c:258-264 | a client is refused exactly if it has no counter while ten others have one; it gets no answer then, and no message changes the counter of another client |
| UdpServer.KeysDistinct | 21_raw_sockets/server.c:46-49 | two senders have the same key exactly if address and port are the same |
| UdpServer.HandleFrame | 21_raw_sockets/server.c:204-297 | one turn of the loop, from the bytes received to the bytes sent: filter, slot table and reply, or a write behind the packet exactly if the reply does not fit it; nothing is sent for frames that are not accepted, for quit, or when ten other clients are in |
| UdpServer.QuitIff | 21_raw_sockets/server.c:258-280 | a frame of an admitted sender is not answered, and takes its client out of the table, exactly if its payload is the four bytes of "quit" |
| UdpServer.RefusedSilently | 21_raw_sockets/server.c:259-264 | a frame of a sender that is not admitted changes nothing and is not answered |
| UdpServer.QuitRestarts | 21_raw_sockets/server.c:266-280 | after a typed "quit" the next text of that client is answered with 1 |
| UdpServer.ConversationCounts | 21_raw_sockets/server.c:204-297 | after any conversation, text typed by a client is answered with the number of its messages admitted since it first came or last quit, and the client prints that answer exactly if it fits its buffer |
| ShmRing.RunKeepsInv | 14_shared_memory/chat/server.c:30-39 | in every interleaving the ring is written once, front to back, and only the slot behind the published ones is ever half written |
| ShmRing.ReadersDeliverPrefix | 14_shared_memory/chat/client.c:103-115 | in every interleaving each reader has delivered a prefix of the accepted messages, of which there are at most as many as slots, chat_lines equals last_read_pos between messages, and what it copies is a whole message |
| ShmRing.NeverOverwritten | 14_shared_memory/chat/server.c:31-38 | a published slot is never written again |
| ShmRing.CheckFailsIff | 14_shared_memory/chat/client.c:104 | the reader's loop test fails exactly when it has read everything, or has read nothing of a full history |
| ShmRing.Drain | 14_shared_memory/chat/client.c:103-115 | a reader left alone stops, by a decreasing measure, with everything published read, exactly unless it is locked out |
| ShmRing.DrainsUnlessLockedOut | 14_shared_memory/chat/client.c:103-115 | it drains everything exactly if it is not locked out, which it never is after one message or before the history is full |
| ShmRing.LockedOutForever | 14_shared_memory/chat/client.c:104 | a reader that is locked out never reads anything, whatever happens later |
| ShmRing.LockedOutHappens | 14_shared_memory/chat/server.c:30-39 | for every size of the history there is a run in which a reader comes to be locked out |
| ShmServer.Server.Record | 14_shared_memory/chat/server.c:30-39 | add_to_history on the ring: appends while there is room, and position and count agree |
| ShmServer.Server.Join | 14_shared_memory/chat/server.c:131-148 | a join enters the user in both tables, or in none when ten are present |
| ShmServer.Server.Leave | 14_shared_memory/chat/server.c:156-174 | a leave shifts both tables over the same entry, found by process id |
| ShmServer.RunInStep | 14_shared_memory/chat/server.c:130-174 | after any messages both counters are equal and at most ten, and both tables have the same name at every index |
| ShmTables.TablesListJoins | 14_shared_memory/chat/server.c:130-174 | after any messages both tables list, in order, exactly the joins that found room and were not taken out by a later leave of their process, with their names as stored; second joins of a process included |
| ShmTables.StaysUntilLeave | 14_shared_memory/chat/server.c:156-174 | the entry of a process that was not present when it joined stays exactly until its first leave |
| ShmTables.HistoryIsAccepted | 14_shared_memory/chat/server.c:130-174 | the history is the first hundred of the messages, admitted joins and leaves of present users |
| ShmServer.LeaveUndoesJoin | 14_shared_memory/chat/server.c:156-174 | a leave right after the join restores both tables |
| ShmServer.WriterStepsRecord | 14_shared_memory/chat/server.c:30-39 | the four steps of the ring's writer together are one add_to_history |
| Driver.TakeTurn | 22_fork_poll/main.c:90-147 | one turn of the driver's loop: expiry at top and bottom, poll timeout, answer |
| Driver.DriverProcess | 22_fork_poll/main.c:80-152 | the loop answers every turn as the state machine does, until EXIT |
| Driver.TasksDisjoint | 22_fork_poll/main.c:111-121 | under a clock that never goes back, accepted tasks occupy disjoint, ordered intervals |
| Driver.AnswersHonest | 22_fork_poll/main.c:111-135 | AVAILABLE and OK only when the latest task is over; BUSY carries its timer and is not said when it was over at the start of the turn |
| Driver.AnswerDecided | 22_fork_poll/main.c:111-135 | in any run every answer, and every task accepted, is decided by whether the latest task was over when the turn began: a free driver accepts every task, a busy one names the timer of its task |
| Driver.TimeoutDecided | 22_fork_poll/main.c:91-103 | the poll timeout is the time left of the latest task in milliseconds, cut to 32 bits, and -1 without one |
| Driver.RunTracks | 22_fork_poll/main.c:90-147 | in every state BUSY is with the latest accepted task, with its end time and timer |
| Driver.BusyPollIff | 22_fork_poll/main.c:91-103 | poll has no timeout while BUSY exactly when the remaining milliseconds come out negative in 32 bits |
| Driver.PollBoundedIff | 22_fork_poll/main.c:99 | every moment of a task is polled with a timeout exactly if its timer is at most 2147483 seconds |
| Driver.RunPollsBounded | 22_fork_poll/main.c:91-103 | in runs of such tasks the driver polls without a timeout exactly when AVAILABLE |
| Driver.LongTaskRun | 22_fork_poll/main.c:91-103 | for every longer timer there is a run of a new driver that polls without a timeout while BUSY |
| Driver.RunsPollBoundedIff | 22_fork_poll/main.c:91-103 | accepted timers up to a bound are harmless in every turn of every run if and only if the bound is at most 2147483 seconds |
| DriverPipes.ReadInvertsWrite | 22_fork_poll/main.c:111-136 | the driver understands every command text as it was meant |
| DriverPipes.ResponsesMatch | 22_fork_poll/main.c:39-78 | in any run of a new driver without a timeout both pipes are empty between commands, the commands are answered once each in order, and each response is the driver's answer to that command |
| DriverPipes.OwnAnswersIff | 22_fork_poll/main.c:39-78 | in any run of a new driver, every response is the driver's answer to its own command if and only if nothing is read after a poll that timed out |
| DriverPipes.CommandAnswered | 22_fork_poll/main.c:39-78 | the driver's next turn answers a command, and the parent reads exactly that answer |
| DriverPipes.AnswersSayRight | 22_fork_poll/main.c:111-136 | in every run under a clock that does not go back, each text written reads "OK" or "AVAILABLE" if the latest task was over, and "BUSY" with its timer if not; the same for every text returned if nothing was read after a timeout |
| DriverPipes.CommandToldRight | 22_fork_poll/main.c:39-78 | what comes back for a command sent to a waiting driver, in literal text, as decided by the tasks it has accepted |
| DriverPipes.AnswersConserved | 22_fork_poll/main.c:39-78 | in every run, timeouts included, no character of an answer is lost, repeated or overtaken |
| DriverPipes.StaleAfterTimeout | 22_fork_poll/main.c:57-64 | the next response after a timeout begins with the whole answer to the command that timed out, however many commands, the same or others, were sent or timed out in between |
| DriverPipes.StatusAnsweredOk | 22_fork_poll/main.c:57-64 | a run in which a status request gets the answer to the task before it, and none of its own |
| Counter.RacyBounds | 11_threads/p2.c:8-32 | for N >= 1 threads and K >= 2 increments every interleaving of loads and stores ends between 2 and N*K |
| Counter.RacyOutcomes | 11_threads/p2.c:8-32 | for N >= 2 and K >= 2 exactly the values from 2 to N*K are outcomes |
| CounterLocked.LockedExact | 11_threads/p3.c:8-36 | every interleaving of the locked threads ends with exactly N*K |
| CounterLocked.LockedProgress | 11_threads/p3.c:11-16 | and none gets stuck before |
| CounterLocked.LockedCompletes | 11_threads/p3.c:8-36 | there is an interleaving to the end, for any number of threads and increments |

## Left out

- System calls and their failures: sockets, `mq_*`, `mmap`, `poll` errors, `execvp`; pipe creation that fails (fork and malloc failures are modelled in `Pipeline` and `WorkQueue`).
- Shutdown and signal paths (`signal_handler`, `cleanup_resources`, `cleanup_driver`), which end the runs; `cleanup_queue` is modelled.
- Memory models weaker than sequential consistency, and tearing of single machine words.
- Blocking of `mq_send` on a full kernel queue: `MqServer` records what is sent, not when it is read.
- The client's wait for its own queue and the messages it sends to a server that is full: both leave the server's state alone.
- `\n` handling and the 1024-byte limit of `fgets` in the shell: the parser starts from the NUL-terminated line.
- WorkQueueProtocol: descriptors are numbered per connection, so the kernel's reuse of a closed descriptor number is not modelled.
- Reading the shared user table while the server changes it (`14_shared_memory/chat/client.c:118-124`): the copy is not protected by anything the server uses, and no consistency is claimed for it.
- UdpPackets.ClientReceive: what happens after the client wrote behind its buffer is not modelled.
- UdpPackets.CreateReplyPacket: what happens after a write behind the packet is not modelled; what lies in memory behind the buffer of the reply text is a parameter.
- UdpServer.HandleFrame: the same holds for the reply that it builds.
- MqClient.Receiver.HandleMessage: the byte that the client overwrites behind its buffer is not modelled.
- MqServer.ChatServer.HandleMessage: a message without all of its fields, which no client sends, is ignored, where the source passes NULL to atoi, strncpy or snprintf; an empty one likewise.
- Signed overflow of counters and of `size * size`: integers are unbounded where the source's `int` is not at stake; widths are written out for the checksum, the UDP lengths and the poll timeout.
- The table of drivers and the search by pid (`22_fork_poll/main.c:28-37`): every driver has its own two pipes, so one channel is modelled; `get_drivers` and the command loop of `main` only call it.
- `06_dynamic_memory/list.c` and `11_threads/p4.c`, which repeat modelled code; user interfaces; and the small exercises without state, which would only add easy members.
