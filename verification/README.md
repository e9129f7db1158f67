# Word streaming over POSIX: a Dafny model

The C programs modelled here cut a file into words, frame the words, and move them between processes
or threads: over a pipe paced by two semaphores, over sockets to a server that multiplexes many clients
with poll or select, through a one-slot mailbox, and through shared memory. The last one is a broadcast
barrier. The model keeps each program's own shape: buffers and tables are arrays updated in place by
loops, servers are classes, and the concurrent programs are step systems in which every system call,
semaphore operation, mutex operation and unlocked access is one step.

| file | models |
|---|---|
| `Words.dfy` | words as maximal runs, concatenation, the 255-byte limit |
| `Framing.dfy` | the length-prefixed wire format |
| `PipeIo.dfy` | the loops of the reliable pipe, each process run alone |
| `LineClient.dfy`, `Agreement.dfy` | the `fgets`/`strtok_r` tokeniser, and when it agrees with the byte-at-a-time one |
| `SocketClient.dfy` | the socket client, from a file to the bytes it sends |
| `ReliablePipe.dfy`, `ReliablePipeRuns.dfy`, `ReliablePipeReach.dfy` | both processes of the reliable pipe interleaved: invariant, then whole runs, then what they can do |
| `ClientTable.dfy` | the client table as a sequence, passes over it, growth |
| `Sockets.dfy`, `FrameServer.dfy`, `PassEffects.dfy` | descriptors and sessions, reading one frame, what a pass does to the sessions |
| `ServerRuns.dfy` | one turn of a server's main loop as a relation, and what holds in every run |
| `PollServer.dfy`, `SelectServer.dfy` | the two servers |
| `Mailbox.dfy`, `SharedMemory.dfy`, `Barrier.dfy` | the three remaining protocols |
| `Counting.dfy` | a truth value as a count |

`dafny verify dfyconfig.toml` checks everything.

## What is assumed of the system

- A `read` or `write` that succeeds moves at least one byte, unless a `read` is at end of file; how
  many is arbitrary. Calls may fail. Only finitely many reads are interrupted by signals.
- The semaphores of the pipe and of the shared-memory programs are fresh, with the initial values
  passed to `sem_open`. The pipe holds at least 512 bytes.
- `accept` returns a descriptor that is not open and fits a C `int`; `close` of an open descriptor
  succeeds; `poll` and `select` report only what they were asked about; a blocking `read` from a socket
  returns only once the client has sent something or hung up, or it fails. What is said of a server's
  turns and runs is said of the turns that come to an end; the reads that wait are counted.
- A socket client of `io-multiplexing/client.c` gets each `send` through whole.
- Between two turns of a server, and while a server blocks, all clients may send and hang up.
- `pthread_cond_wait` releases the mutex and falls asleep in one step; threads may wake spuriously.

## Where the code does less than one might expect

- The reliable pipe ends cleanly exactly when every word of the file fits in 255 bytes
  (`ReliablePipeRuns.Termination`, `ReliablePipeRuns.LongWordStrandsParent`); otherwise the child exits and
  the parent waits for good.
- The word buffers of its two processes have 255 slots (pipe/reliable/main.c:246 and 295), so the NUL after
  a word of 255 bytes is stored outside them, at pipe/reliable/main.c:258, 275 or 315
  (`ReliablePipeRuns.LongestWordOverruns`). No NUL is stored outside a buffer exactly when none of the words
  that are sent, those before the first one over 255 bytes, is too long for it
  (`ReliablePipeRuns.NulsStayInsideIff`); a run ends cleanly and without that exactly when every word of the
  file has fewer than 255 bytes (`ReliablePipeRuns.DeclaredBuffers`). One slot more would always do.
- The two tokenisers agree exactly when the file has no NUL and no chunk ends inside a word
  (`Agreement.TokenisersAgree`). With the 255-byte limit the two senders get the same words through, for
  any file, exactly when its chunks are `Harmless` (`Agreement.SendersAgree`, `Agreement.CutParts`).
- One pass of the poll server can miss ready clients, up to half (`ClientTable.PollPassIsFair`,
  `ClientTable.PollPassCanMissHalf`): exactly those that a drop moves down past it, so none exactly when,
  counting the clients to be dropped from the front, no k-th one has a ready client k places from the
  end behind it (`ClientTable.PollPassMissesExactly`, `ClientTable.PollPassMissesNobodyIff`,
  `ServerRuns.PollRoundMissesNobodyIff`). In all the passes that come to an end, a client at position p is
  missed at most p times before it is dropped (`ServerRuns.NoStarvation`). A pass of the select server
  misses none.
- A client that sends part of a frame and then stalls holds up either server, and with it every other
  client: serving it returns only once it has sent the rest or hung up, or a read fails. No client is
  waited for when each ready one has a whole frame unread or has hung up (`FrameServer.ServeFrame`,
  `PollServer.Server.HandleClientData`, `SelectServer.Server.ServeClients`).
- The poll server's cleanup skips descriptor 0 and closes all others (`PollServer.Server.Cleanup`,
  `ServerRuns.DescriptorZeroStaysOpen`).
- The mailbox does not deliver each word exactly once (`Mailbox.WordCanBeLost`); a run does exactly when
  every read comes before the producer stores the next word (`Mailbox.ExactlyOnceIff`). It can also print
  a word that has been freed (`Mailbox.FreedWordCanBePrinted`, `Mailbox.PrintsFreedIff`). Neither happens in
  a run that finishes exactly when the producer never frees a word between the consumer's unlock and the end of its
  print (`Mailbox.CorrectIffNeverFreesTooEarly`).
- In the shared-memory programs exactly one of the two processes finishes (`SharedMemory.Rendezvous`),
  because both wait on `server_sem` at the end.

## Model

| member | source | states |
|---|---|---|
| `Words.SplitIsMaximalRuns` | pipe/reliable/main.c:252-277 | the words of a file are exactly its maximal runs of bytes other than space, newline and tab, in order |
| `Words.SplitAtDelimiter` | io-multiplexing/client.c:66-91 | cutting at a delimiter, the words of the whole are those of the two parts |
| `Words.SplitByte` | pipe/reliable/main.c:254 | a byte alone is a word exactly if it is not 9, 10 or 32 |
| `Words.SplitAtBlank` | io-multiplexing/client.c:70 | a byte 9, 10 or 32 anywhere parts the words before it from those after it |
| `Words.WordsKeepBytes` | pipe/reliable/main.c:252-277 | the bytes of the words, in order, are exactly the bytes of the file other than 9, 10 and 32 |
| `Words.SplitDirtyJoin` | io-multiplexing/client.c:66-91 | cutting inside a word fuses the last word of one part with the first of the other, and changes nothing else |
| `Words.DeliverPrefix` | pipe/reliable/main.c:265-268 | what gets through is the words before the first one over 255 bytes, and something is refused exactly when there is one |
| `Framing.FramesOfEncode` | io-multiplexing/poll/main.c:361-387 | parsing an encoding gives the words back, whatever bytes follow |
| `Framing.EncodeOfFrames` | io-multiplexing/poll/main.c:361-387 | every byte string is the encoding of its complete frames followed by an incomplete one |
| `Framing.DecodeExactly` | pipe/reliable/main.c:206-222 | a stream decodes to given words up to the terminator exactly when it is their encoding, the terminator and the rest |
| `Framing.FramesOfPrefix` | io-multiplexing/poll/main.c:361-387 | parsing a part of an encoding gives a prefix of its words |
| `Framing.EncodeInjective` | pipe/reliable/main.c:206-222 | different word sequences never have the same encoding |
| `PipeIo.WriteFully` | pipe/reliable/main.c:164-182 | appends exactly the given bytes however the writes are split; only after a failed write, a prefix of them |
| `PipeIo.ReadFully` | pipe/reliable/main.c:184-204 | for any stream, fills the buffer with exactly the next bytes however the reads are split; a stream that is too short is read to its end, and the loop then spins until the process is killed |
| `PipeIo.SendWord` | pipe/reliable/main.c:206-222 | appends the frame of the word, the terminator for length 0 |
| `PipeIo.ChildProcess` | pipe/reliable/main.c:243-290 | with a word buffer of any size from 255 up: writes the frames of the file's words up to the first one too long, and the terminator if there is none; which exit it takes, the I/O one only after a failed write; stops short of storing a NUL outside the buffer only if a word that could be sent is too long for it, and gets through only if none is; the uint8_t counter never wraps |
| `PipeIo.SendLast` | pipe/reliable/main.c:273-279 | after the scan, the word at the end of the file and the terminator complete the child's output, unless the NUL after that word does not fit the buffer |
| `PipeIo.ParentProcess` | pipe/reliable/main.c:292-329 | for any stream and a word buffer of any size from 255 up: stops with exactly the words that decoding up to the terminator gives, having consumed exactly that much; if there is no terminator, has received exactly the complete frames when it begins to spin; stops short of storing a NUL outside the buffer exactly at the first word too long for it |
| `PipeIo.ParentUndoesChild` | pipe/reliable/main.c:252-316 | the child's output decodes to the file's words, and decodes at all exactly when they all fit |
| `LineClient.Fgets` | io-multiplexing/client.c:66 | takes the bytes through the first newline, the buffer's limit or the end of the file, and ends them with a NUL |
| `LineClient.StrtokR` | io-multiplexing/client.c:70-89 | cutting the buffer in place, yields the first remaining word as a C string and leaves the words after it |
| `LineClient.Strlen` | io-multiplexing/client.c:77 | the length of the C string at a position |
| `SocketClient.SendWord` | io-multiplexing/client.c:161-178 | puts the frame of the word on the stream; part of it only if a send fails |
| `SocketClient.SendLine` | io-multiplexing/client.c:70-90 | puts the frames of the words of one line on the stream, up to the first one too long |
| `SocketClient.SendFile` | io-multiplexing/client.c:66-91 | for any file, the bytes sent are the encoding of the words found chunk by chunk, up to the first one over 255 bytes, and a prefix of that if a send fails; which exit it takes |
| `Agreement.TokenisersAgree` | io-multiplexing/client.c:66-91 | for every file and buffer size the chunked words are the file's words if and only if the file has no NUL and no chunk ends inside a word |
| `Agreement.CutsCountExtraWords` | io-multiplexing/client.c:66-91 | without NULs, the chunked tokeniser finds one word too many for each chunk that ends inside a word |
| `Agreement.ShortLinesAreNotCut` | io-multiplexing/client.c:50-66 | no chunk ends inside a word when every line fits the buffer |
| `Agreement.SendersAgree` | io-multiplexing/client.c:66-91 | for every file, NULs included, and every buffer size, the length-limited senders get the same words through, and both or neither refuse one, if and only if chunk by chunk: a word before the chunk's first NUL is refused; or the chunk has no NUL, does not end inside a word, and the same holds for the rest; or the byte-at-a-time sender refuses the word that the NUL begins and the other one the first word of the next chunks |
| `Agreement.CutParts` | io-multiplexing/client.c:50-66 | for every buffer size, a file without NULs that a cut makes the two senders disagree on |
| `Agreement.NulParts` | io-multiplexing/client.c:66-77 | a file with a NUL on which the two tokenisers differ |
| `ReliablePipeRuns.NulsStayInside` | pipe/reliable/main.c:246-316 | in every run and for every size of the word buffers, neither process stores a NUL outside, if no word that can be sent is too long |
| `ReliablePipeRuns.NulsStayInsideIff` | pipe/reliable/main.c:246-316 | in every run that cannot be continued, no NUL was stored outside if and only if no word that can be sent is too long for the buffer |
| `ReliablePipeRuns.DeclaredBuffers` | pipe/reliable/main.c:246-316 | with the declared 255 slots, a run that cannot be continued has ended cleanly and stored no NUL outside if and only if every word of the file has fewer than 255 bytes; with 256 slots none is ever stored outside |
| `ReliablePipeRuns.LongestWordOverruns` | pipe/reliable/main.c:246-275 | a run on a file of one word of 255 bytes, which fits the protocol and whose NUL does not fit the declared buffer |
| `ReliablePipeRuns.LongWordStrandsParent` | pipe/reliable/main.c:265-268 | a run on a file of one word of 256 bytes, after which the child has failed and the parent waits for good |
| `ReliablePipe.InitInv` | pipe/reliable/main.c:65-72 | the invariant holds at the start, with the semaphores at 0 and 1 |
| `ReliablePipe.CompleteFrameAhead` | pipe/reliable/main.c:302-314 | once the parent has passed sem_wait, the rest of the next frame is at the head of the pipe |
| `ReliablePipe.StepKeepsInv` | pipe/reliable/main.c:206-329 | every step of either process keeps the invariant on the file position, the semaphore counts and the bytes in flight |
| `ReliablePipeRuns.PipeBounded` | pipe/reliable/main.c:217-235 | at most two frames, 512 bytes, are in the pipe, counting what is still to be written |
| `ReliablePipeRuns.NeitherEndRunsDry` | pipe/reliable/main.c:184-204 | read_fully always has its bytes in the pipe, and after the parent has closed its end the child writes nothing more |
| `ReliablePipeRuns.Progress` | pipe/reliable/main.c:206-235 | with room for two frames, some step is open in every unfinished state |
| `ReliablePipeRuns.Outcome` | pipe/reliable/main.c:279-329 | where a finished run leaves the pipe, the semaphores and the received words |
| `ReliablePipeRuns.StepDecreases` | pipe/reliable/main.c:164-329 | every step lowers a measure of scanning, writing, reading and semaphore operations left |
| `ReliablePipeRuns.WritesChildOutput` | pipe/reliable/main.c:243-290 | in every interleaving the child sends byte for byte what it writes when it runs alone |
| `ReliablePipeRuns.Safety` | pipe/reliable/main.c:164-329 | in every run the received words are a prefix of the deliverable ones, and all the file's words once the parent has stopped |
| `ReliablePipeRuns.Termination` | pipe/reliable/main.c:65-329 | every run is finite, and every maximal run ends cleanly if and only if all words fit; otherwise exactly the words before the long one arrive |
| `ReliablePipeReach.ParentStepsAreLocal` | pipe/reliable/main.c:292-329 | the child can hold up the parent only through the pipe and the parent's semaphore |
| `ReliablePipeReach.ChildStepsAreLocal` | pipe/reliable/main.c:206-290 | and the parent the child only through the room in the pipe and the child's semaphore |
| `ReliablePipeReach.FrameInPieces` | pipe/reliable/main.c:164-182 | however a frame's body is split into writes, there is a run that writes it like that, and then the frame is in the pipe |
| `ReliablePipeReach.ReadInPieces` | pipe/reliable/main.c:184-204 | however the body is split into reads, there is a run that reads it like that, and then the word is received |
| `ReliablePipeReach.BoundIsReached` | pipe/reliable/main.c:65-72 | the bound of 512 bytes in the pipe is reached, before the parent has taken a step |
| `ClientTable.SwapRemoveMembers` | io-multiplexing/select/main.c:315-325 | removal takes out exactly the given entry and keeps the entries distinct |
| `ClientTable.SelectPassServesAll` | io-multiplexing/select/main.c:184-236 | a pass that re-checks the slot serves every ready client exactly once, and removes exactly the ready ones that are gone |
| `ClientTable.PollPassIsFair` | io-multiplexing/poll/main.c:352-392 | a pass that moves on serves each ready client at most once; those it misses were moved down and stay in the table; it misses no more than it drops, so it serves at least half |
| `ClientTable.PollPassCanMissHalf` | io-multiplexing/poll/main.c:352-367 | a table on which the bound of one half is met |
| `ClientTable.PollPassMissesExactly` | io-multiplexing/poll/main.c:352-417 | exactly which ready clients a pass misses: those that the k-th drop, not yet among the last k entries, moves down from k places from the end |
| `ClientTable.PollPassMissesNobodyIff` | io-multiplexing/poll/main.c:352-417 | a pass misses nobody if and only if no such entry is ready |
| `ClientTable.PassRemoves` | io-multiplexing/poll/main.c:362-367 | one served and removed client takes a pass in progress to the next position with the rest of the pass unchanged |
| `Sockets.DescriptorConservation` | io-multiplexing/select/main.c:156-180 | when open descriptors and unclosed sessions correspond, accepted connections are the open ones plus the closed ones |
| `Sockets.AlignedIsSound` | io-multiplexing/poll/main.c:361-387 | a stream read up to a frame boundary has exactly the logged words as its complete frames |
| `FrameServer.ReadFull` | io-multiplexing/poll/main.c:319-345 | delivers exactly the next bytes of the client's stream, however they were chunked or interrupted; 0 only at end of file |
| `FrameServer.ServeFrame` | io-multiplexing/poll/main.c:356-387 | prints exactly the next frame of this client and stays at a frame boundary; or, only after a failed read or with the client's stream ended and read to its end, leaves the client to be closed with a sound log; no other session is touched; returns only when the client has sent a whole frame or hung up, or a read has failed, and waits for nobody if the frame is there or the client gone at the call |
| `FrameServer.StreamIntegrity` | io-multiplexing/poll/main.c:347-393 | for each session the printed words are exactly the complete frames read of its own stream, and for a live one what was sent is their encoding and the unread bytes |
| `FrameServer.LogIsPrefix` | io-multiplexing/poll/main.c:356-387 | if a client has sent part of the frames of some words, what is printed for it is a prefix of those words, and all of them once everything is read |
| `PassEffects.InPassTurn` | io-multiplexing/select/main.c:193-235 | serving one client extends a pass in progress by exactly that client |
| `ServerRuns.RoundOfParts` | io-multiplexing/poll/main.c:80-101 | waiting, accepting and one pass make one turn: exactly the served clients get one more word printed or are closed for a reason, nobody else is touched, and there is a new session exactly if the listening socket was reported |
| `ServerRuns.SelectRoundServesAll` | io-multiplexing/select/main.c:183-236 | in one turn of the select server exactly the live clients reported ready get a word printed or are closed, whichever others are dropped |
| `ServerRuns.PollRoundServesHalf` | io-multiplexing/poll/main.c:352-392 | one turn of the poll server serves at least half of the clients reported ready, each once |
| `ServerRuns.PollRoundMissesExactly` | io-multiplexing/poll/main.c:80-101 | in one turn of the poll server, a client reported ready is not served if and only if it is so moved, the client just accepted included in the table |
| `ServerRuns.PollRoundMissesNobodyIff` | io-multiplexing/poll/main.c:80-101 | the turn serves all that were reported ready if and only if no such entry is ready |
| `ServerRuns.PollRoundLeavesOvertaken` | io-multiplexing/poll/main.c:352-417 | a live session reported ready is left alone by the turn if and only if its client is so moved; otherwise it gets a word printed or is closed |
| `ServerRuns.GrowthInRun` | io-multiplexing/poll/main.c:265-307 | after every turn of every run of either server, the table fits its capacity, which is 0 or 4 times a power of 2, at most max(4, 2·peak − 2) and never smaller than before; all growths together have copied no entries, or fewer than twice the peak |
| `ServerRuns.NoStarvation` | io-multiplexing/poll/main.c:352-417 | in every run of the poll server, a client at position p of the table is missed, from then on until it is dropped, at most p times in all |
| `ServerRuns.WordsForReports` | io-multiplexing/poll/main.c:352-417 | and its session has at least as many more words printed as it was reported ready, less p |
| `ClientTable.PassRaisesNone` | io-multiplexing/poll/main.c:395-417 | whatever a pass serves and removes, no entry of the table ends further up than it was |
| `ServerRuns.NoWordLost` | io-multiplexing/poll/main.c:352-392 | in every run, a session that the server has closed was out of range for select, had a failed read, or had hung up with every complete frame of its stream printed |
| `ServerRuns.FileArrives` | io-multiplexing/client.c:66-91 | from a client's file through framing, any interleaving of clients and turns, to the server: what is printed is a prefix of what the client sends |
| `ServerRuns.WholeFileArrives` | io-multiplexing/client.c:66-91 | all of it when the client sent everything and the session ended without a failed read; for a file with harmless chunks, the words of the file up to the first one too long |
| `ServerRuns.ShortLinedFileArrives` | io-multiplexing/client.c:38-91 | in particular for a file without NULs whose lines have at most 1023 bytes |
| `ServerRuns.AllWordsCanBePrinted` | io-multiplexing/poll/main.c:80-101 | for any words and any descriptor there is a run of either server in which a client connects, sends their frames and hangs up, and all of them are printed and its session closed |
| `ServerRuns.OneWordPerTurn` | io-multiplexing/select/main.c:184-236 | in every run, as many words are printed for a session as it was served without being dropped |
| `ServerRuns.NoDescriptorLost` | io-multiplexing/select/main.c:156-180 | after every turn of every run, accepted connections are the entries of the table plus the closed ones; the entries are distinct and none is the listener |
| `ServerRuns.DescriptorZeroStaysOpen` | io-multiplexing/poll/main.c:105-116 | a run whose only client, on descriptor 0, a closing loop that starts above 0 leaves open |
| `ServerRuns.CleaningEnds` | io-multiplexing/select/main.c:239-246 | the closing loop closes exactly the live sessions with a high enough descriptor, each once |
| `PollServer.RemovalMirrors` | io-multiplexing/poll/main.c:402-415 | removal keeps the two arrays in step slot by slot and clears the freed slot |
| `PollServer.RemovalSwaps` | io-multiplexing/poll/main.c:402-417 | removal from the array is the swap removal of the table |
| `PollServer.Server.constructor` | io-multiplexing/poll/main.c:205-245 | capacity 4, an empty table, the listener in slot 0 |
| `PollServer.Server.Grow` | io-multiplexing/poll/main.c:265-307 | doubles both arrays, keeps the entries and clears the new slots; the capacity and the entries copied so far change as the law of growth says |
| `PollServer.Server.HandleNewConnection` | io-multiplexing/poll/main.c:247-317 | exactly if the listener was reported, appends the accepted client to both arrays, growing them when full; the storage changes only to make room for it, and leaves the new client out of this pass; false only if accept failed |
| `PollServer.Server.HandleClientDisconnection` | io-multiplexing/poll/main.c:395-418 | closes the client and swap-removes it from both arrays |
| `PollServer.Server.HandleReady` | io-multiplexing/poll/main.c:356-389 | one client with input: a word printed and its bit cleared, or the client closed and removed |
| `PollServer.Server.HandleClientData` | io-multiplexing/poll/main.c:347-393 | the loop computes the poll pass; each served client got one more word or was closed, all other sessions are untouched, every invariant is kept; no read waits if each ready client has a whole frame unread or has hung up |
| `PollServer.Server.Poll` | io-multiplexing/poll/main.c:82 | poll is asked about exactly the listener and the table, and the kernel's report set as POLLIN in exactly the slots of the ready descriptors |
| `PollServer.Server.Round` | io-multiplexing/poll/main.c:80-101 | one iteration of the main loop asks poll about the listener and the whole table, is one turn on what poll reported, growth included, keeps arrays, table, descriptors and streams consistent, and ends the program only if poll or accept failed |
| `PollServer.Server.Cleanup` | io-multiplexing/poll/main.c:105-116 | closes exactly the open clients with a descriptor above 0 |
| `PollServer.Server.MainLoop` | io-multiplexing/poll/main.c:80-101 | the iterations are a run that deals with every call of poll, each about exactly the listener and the table as it was then, and ends as the server stands; it is cut short exactly by a failed poll or accept |
| `PollServer.Serve` | io-multiplexing/poll/main.c:45-123 | the server's iterations are a run that deals with every call of poll, each about exactly the listener and the table as it was then, and in which growth is bounded by the peak; each session's log is sound; the exit is normal exactly if no poll or accept failed, and has then closed each session exactly once, except one on descriptor 0 |
| `SelectServer.StepBackAndForth` | io-multiplexing/select/main.c:207-208 | i-- then i++ on a size_t returns to the same index, at 0 by wrapping twice |
| `SelectServer.Server.IndexFits` | io-multiplexing/select/main.c:184 | the index over the table never wraps by counting up |
| `SelectServer.Server.BuildSet` | io-multiplexing/select/main.c:103-133 | the set is exactly the listener and the table, max_fd is its maximum, and exactly the out-of-range clients were dropped |
| `SelectServer.Server.GrowClients` | io-multiplexing/select/main.c:289-313 | makes room from 0 to 4 or by doubling and keeps the table |
| `SelectServer.Server.RemoveClient` | io-multiplexing/select/main.c:315-325 | swap removal of the table |
| `SelectServer.Server.AcceptClient` | io-multiplexing/select/main.c:149-181 | exactly if the listener was reported, appends an accepted client in range or closes one out of range; the new client is not among the ready ones; false only if accept failed |
| `SelectServer.Server.ServeReady` | io-multiplexing/select/main.c:193-235 | one client with input: a word printed, or the client closed and removed |
| `SelectServer.Server.ServeClients` | io-multiplexing/select/main.c:183-236 | the loop computes the re-checking pass; each served client got one more word or was closed, all other sessions are untouched; it terminates; no read waits if each ready client has a whole frame unread or has hung up |
| `SelectServer.Server.Round` | io-multiplexing/select/main.c:101-237 | one iteration of the main loop asks select about the listener and the whole rebuilt table, the greatest descriptor included, and is one turn on what select reported, nothing if it was interrupted; keeps every entry below FD_SETSIZE, table, descriptors and streams consistent; ends the program only if select or accept failed |
| `SelectServer.Server.Cleanup` | io-multiplexing/select/main.c:239-246 | closes every open client |
| `SelectServer.Server.MainLoop` | io-multiplexing/select/main.c:101-237 | the iterations are a run that deals with every call of select, each about exactly the listener and the table as it was then, and ends as the server stands; it is cut short exactly by a failed select or accept |
| `SelectServer.Serve` | io-multiplexing/select/main.c:85-254 | the server's iterations are a run that deals with every call of select, each about exactly the listener and the table as it was then, and in which growth is bounded by the peak; each session's log is sound; the exit is normal exactly if the listener is in range and no select or accept failed, and has then closed each session exactly once |
| `Mailbox.StepKeepsInv` | pthread-condition/pthread_cond_wait-pthread_cond_signal/main.c:151-284 | every step of either thread, and every spurious wake-up, keeps mutual exclusion, the distance between the threads, the wake-ups and the observations right |
| `Mailbox.ReadIsExactIff` | pthread-condition/pthread_cond_wait-pthread_cond_signal/main.c:275-276 | the unlocked read finds the word just consumed if and only if the next one has not been stored yet, and otherwise the next one |
| `Mailbox.NeverBothAsleep` | pthread-condition/pthread_cond_wait-pthread_cond_signal/main.c:155-157 | an unsignalled sleeping producer implies the flag is set, an unsignalled sleeping consumer that it is clear, whenever the mutex is free; so never both |
| `Mailbox.Progress` | pthread-condition/pthread_cond_wait-pthread_cond_signal/main.c:151-284 | no deadlock: without spurious wake-ups some thread can move until both are done |
| `Mailbox.StepMeasure` | pthread-condition/pthread_cond_wait-pthread_cond_signal/main.c:151-284 | a measure falls at every step and rises by one at a spurious wake-up |
| `Mailbox.Safety` | pthread-condition/pthread_cond_wait-pthread_cond_signal/main.c:151-284 | in every run over the words of a file, publications lead consumptions by 0 or 1; the i-th word printed is word i of the file or word i + 1; the null is found only last, and after all words but perhaps one have been looked at |
| `Mailbox.StepsAreLocal` | pthread-condition/pthread_cond_wait-pthread_cond_signal/main.c:151-284 | each thread can be held up only by the mutex and its own wait |
| `Mailbox.SpuriousWakeUpIsHarmless` | pthread-condition/pthread_cond_wait-pthread_cond_signal/main.c:155-157 | either thread, woken for nothing, goes back to sleep with nothing changed |
| `Mailbox.Termination` | pthread-condition/pthread_cond_wait-pthread_cond_signal/main.c:195-287 | runs are bounded by the spurious wake-ups, and one that cannot go on without them has both threads done |
| `Mailbox.InOrderIffInTime` | pthread-condition/pthread_cond_wait-pthread_cond_signal/main.c:252-284 | in every run from every reachable state, each observation made is of the publication whose turn it is, if and only if every read comes before the producer stores the next one |
| `Mailbox.ExactlyOnceIff` | pthread-condition/pthread_cond_wait-pthread_cond_signal/main.c:252-284 | in a run in which both threads finish, the consumer has seen every publication exactly once and in order, if and only if every read came in time |
| `Mailbox.InTimePrintsTheFile` | pthread-condition/pthread_cond_wait-pthread_cond_signal/main.c:195-287 | in a run in which both threads finish and every read came in time, what is printed is the words of the file, one after the other |
| `Mailbox.PrintsFreedIff` | pthread-condition/pthread_cond_wait-pthread_cond_signal/main.c:162-283 | in every run from every reachable state, a freed word is printed or about to be if and only if it was so before, or the producer freed a word under the consumer's pointer, or the consumer read the pointer between a free and the next store |
| `Mailbox.CorrectIffNeverFreesTooEarly` | pthread-condition/pthread_cond_wait-pthread_cond_signal/main.c:162-283 | in a run in which both threads finish, every publication was seen once, in order, and every printed word was still there, if and only if no free falls between the consumer's unlock and the end of its print |
| `Mailbox.FreedWordCanBePrinted` | pthread-condition/pthread_cond_wait-pthread_cond_signal/main.c:162-283 | a run in which a freed word is printed |
| `Mailbox.WordCanBeLost` | pthread-condition/pthread_cond_wait-pthread_cond_signal/main.c:267-281 | a run in which the only word is never seen |
| `SharedMemory.StepKeepsInv` | shared-memory/mmap-munmap/client.c:102-150 | every step of either process keeps the one turn, the buffer's contents and the printed words right |
| `SharedMemory.ReadsAndWritesAlternate` | shared-memory/mmap-munmap/server.c:82-104 | while the server reads the buffer the client does not write it, and it holds the last posted word or the empty string as a C string |
| `SharedMemory.PrintedIsPrefix` | shared-memory/mmap-munmap/server.c:95-107 | the printed words are a prefix of the client's, and all of them once the server has left its loop |
| `SharedMemory.Outcome` | shared-memory/mmap-munmap/client.c:145-150 | a run that cannot go on has printed everything and left exactly one process waiting, or the client gave up at a word too long for the buffer |
| `SharedMemory.StepsAreLocal` | shared-memory/mmap-munmap/server.c:82-108 | each process can be held up only by the semaphore it waits for |
| `SharedMemory.EitherCanFinish` | shared-memory/mmap-munmap/client.c:145-150 | from where both have come to their final waits, either can be the one that finishes |
| `SharedMemory.WordsArePrintedIff` | shared-memory/mmap-munmap/client.c:102-150 | for words from anywhere, a run that cannot go on has printed all of them if and only if each has fewer than 1023 bytes, and otherwise those before the first that has not |
| `SharedMemory.ShortLinesArePrinted` | shared-memory/mmap-munmap/client.c:102-150 | for a file without NULs whose lines have at most 99 bytes, the words printed are the words of the file |
| `SharedMemory.Rendezvous` | shared-memory/mmap-munmap/client.c:102-150 | for every file, stale buffer and run: one turn, a prefix printed, finite runs, everything printed and exactly one process done at the end |
| `Barrier.StepKeepsInv` | pthread-condition/pthread_cond_broadcast/main.c:57-94 | every step keeps mutual exclusion and the relation of sleepers and leavers to the counter, and the counter never falls |
| `Barrier.NobodyLeftAsleep` | pthread-condition/pthread_cond_broadcast/main.c:87-94 | at the last value, once main has broadcast it, nobody is asleep; who has exited has seen that value |
| `Barrier.Progress` | pthread-condition/pthread_cond_broadcast/main.c:57-70 | no deadlock: some step other than a spurious wake-up is open until main is done |
| `Barrier.CountsUp` | pthread-condition/pthread_cond_broadcast/main.c:57-64 | in every run from every reachable state, the values stored by main are the counter's next values one by one, and the counter changes no other way |
| `Barrier.AnnouncesEach` | pthread-condition/pthread_cond_broadcast/main.c:57-64 | and each is broadcast once, before the next is stored |
| `Barrier.EveryUpdateAnnounced` | pthread-condition/pthread_cond_broadcast/main.c:57-70 | a run in which main finishes has stored 1, 2, ... up to the number of updates, and broadcast each of them once |
| `Barrier.WorkerStepsAreLocal` | pthread-condition/pthread_cond_broadcast/main.c:80-96 | a worker can be held up only by the mutex and its own wait |
| `Barrier.MainStepsAreLocal` | pthread-condition/pthread_cond_broadcast/main.c:43-70 | main can be held up only by the mutex and the worker it joins |
| `Barrier.SpuriousWakeUpIsHarmless` | pthread-condition/pthread_cond_broadcast/main.c:87-92 | a worker woken for nothing goes back to sleep with nothing changed |
| `Barrier.EveryoneGetsThrough` | pthread-condition/pthread_cond_broadcast/main.c:43-94 | for any number of threads and updates, late starters included, runs are bounded by the spurious wake-ups and end with every worker exited and main done |

## Left out

- Argument parsing, `usage`, messages, and the errno text of failed calls; a failure that ends a program
  is an early exit of the method, or a state in which the process takes no more steps.
- Socket creation, `bind`, `listen`, `connect`, closing the listening socket, signal handlers, `unlink`,
  `mmap` and `ftruncate`; the number of turns a server makes before its exit flag is set is a parameter.
- ReadFully: `read_fully` has no end-of-file exit and would spin there for good; the model lets the
  reader make any given number of such reads and then has the process killed, so that the method
  returns. `ReliablePipeRuns.NeitherEndRunsDry` shows that it does not come to that.
- ReliablePipe: a `write` or `read` that fails is in `PipeIo` but not among the interleaved steps; a
  `sem_post` or `sem_wait` that fails, for example because a signal interrupts the wait, ends its process
  (pipe/reliable/main.c:225-235, 302-322) and is not modelled; after a NUL stored outside a buffer the steps
  go on as if it had done no harm, where `PipeIo` stops; the fclose and close calls at the end are
  part of the last step.
- Mailbox: what a program does once it has used freed memory; a print is one step, which ends it. The
  words come from any list, so the producer's own `fgets`/`strtok_r` loop is covered by `LineClient` only up
  to its buffer size and the newline it strips first. A failed `strdup` or condition-variable call ends
  the program and is not modelled.
- SharedMemory: the check for a null mapping, which cannot be true, is not modelled. Both programs ignore
  the results of `sem_wait` and `sem_post`, so a failed wait would be taken for a granted turn; the model
  assumes that they succeed.
- `realloc` and `malloc` failures, which end the programs.
- pipe/synchronized/main.c, whose semaphores get other initial values, and pipe/simple and domain-socket,
  which frame words the same way without the full-read loops.
- The client's random delays.
- The rest of the repository: single library calls with nothing between them to prove.
