# Emulator NetworkAccess: a verified model of the byte-stream engine

A Dafny model of the protocol engine in this repository: the C poll server that reassembles
requests from reads with arbitrary boundaries, its client table and poll loop, the reply functions,
the Rust client that prints requests and reads replies, and the memory read and savestate walk of the
dummy emulator. `dafny verify dfyconfig.toml` checks everything.

## How it is built

* **The parser as an automaton** (`Automaton.dfy`): one byte at a time, with an event log of handler
  calls, block writes and errors sent. `Conversation.dfy` gives the grammar of well-formed
  conversations, `Acceptance.dfy` which streams the automaton refuses, `Faults.dfy` which take it out of
  defined behaviour; `Requests.dfy` proves that it inverts the client's printer; `Tokeniser.dfy` does the
  same for one command line.
* **The parser as it is written** (`RequestParser.dfy`): a class with the fields of
  `generic_poll_server_client`, fixed arrays, cursors and a block allocated on demand. One method for
  each phase of the loop of `preprocess_data`, each proved against the automaton; the loop itself
  terminates by bytes left and then by state, because completing a block of size zero at the start of a
  read consumes nothing; it stops with a fault where the C loop would turn for ever. `Reads.dfy` relates
  sequences of reads to the bytes they carry, `Deliveries.dfy` judges them by their bytes alone.
* **The server** (`ServerModel.dfy`, `ServerRuns.dfy`): a state machine on values with theorems over every
  run; `PollServer.dfy` is the five-slot table, the six-entry poll array and the loop with its
  swap-with-last removal, proved to advance that machine. `SlotReuse.dfy` says when a slot's previous
  client can show, `SafeRuns.dfy` which runs stay in defined behaviour.
* **Replies** (`Replies.dfy`, `ReplyPrinter.dfy`, `ReplyReader.dfy`), **numbers and ranges**
  (`Numbers.dfy`, `MemoryArgument.dfy`), the client's writes (`RequestPrinter.dfy`), one read from end to end
  (`EndToEnd.dfy`) and the savestate walk (`Savestate.dfy`).
* **The same in literal bytes** (`WireLaws.dfy`, `CommandTable.dfy`, `Sessions.dfy`): what a command and its
  block lead to, said with the numbers and bytes of the wire instead of the model's constants and functions.

## How behaviour outside C is treated

No bytes that reach the server are excluded by a precondition. Where the C code would store outside a
buffer or loop for ever, the model says so: the machine becomes `Broken` with the fault, the method returns
`Undefined`, and nothing is promised afterwards. There are five faults:

* a command line of more than 2048 bytes (`LongLineBreaks`);
* more than 20 arguments (`TooManyArgumentsBreak`);
* for a block that no command takes, because the current command is not bCORE_WRITE, payload behind it or,
  when its size is zero, an endless loop (`BlockNobodyTakes`, `EndlessLoopExists`);
* a read that runs past the end of a part-filled block: the copy of payload bytes is bounded by the whole
  block (`generic_poll_server.c:478`) and not by what is left of it (`CutDataWithMoreBehindItBreaks`).

`FaultOf` searches a stream for the first four, line by line and block by block, and `FaultsAreExact` proves
that the parser meets exactly the fault found; `DeliveryFaultsAreExact` adds the fifth and covers every
delivery to a new connection. Requests as the client must print them meet none of the four
(`RequestsHaveNoFault`), and the fifth exactly when a read starts inside the data of a request and ends
behind it (`ConversationDelivered`), which never happens to a client that sends one request at a time.

The read handler of the dummy emulator is modelled only where C defines it (`EndToEnd.Readable`): three
arguments, a memory it knows, and a range inside that memory.

## Where the code differs from the protocol text

* `get_reply` never builds a list of maps for repeated keys; the last binding of a key wins.
* The dummy read handler reads the size with `atoi`, so a `$` size is taken for zero, although the
  draft allows hexadecimal numbers in arguments.
* The server skips every space before the first argument, where the draft asks for a single one.
* A name that no table knows leaves `current_command` as it was, so that a `b` line that is not
  recognised hands its block to the previous command, even that of the previous client of the slot.
  `StaleCommandInvisible` gives the exact streams, `PreviousCommandGetsBlock` the effect.
* A standard `b` command without a handler returns -1 and so swallows a block of exactly one byte.
* A header that can no longer become the expected size is refused only at its fifth byte.

## Model

| member | source | states |
|---|---|---|
| Bytes.ShiftAndAddNeverOverflows | proto-validator/src/nwa.rs:127-131 | the client's shift-and-add of the size bytes never leaves 32 bits at any partial sum, and is the network-order value |
| Bytes.SizeFieldRoundTrip | generic poll server/generic_poll_server.c:464 | size field and size are inverse to each other in both directions, for every 32-bit size |
| Protocol.LookupChooses | generic poll server/generic_poll_server.c:300-323 | the command chosen is 128 and the index of the first custom entry that is a prefix of the name, otherwise the standard command of exactly that name, otherwise none |
| CommandTable.StatusNumbers | c_includes/emulator_network_access_defines.h:6-70 | each name, unless a custom entry is a prefix of it, selects its own literal number: 1 to 4 |
| CommandTable.EmulationNumbers | c_includes/emulator_network_access_defines.h:6-70 | the same for 5 to 8 |
| CommandTable.CoreNumbers | c_includes/emulator_network_access_defines.h:6-70 | the same for 9 to 17, CORE_READ and bCORE_WRITE among them |
| CommandTable.DebugNumbers | c_includes/emulator_network_access_defines.h:6-70 | the same for 18 to 21 |
| Tokeniser.JoinSplit | generic poll server/generic_poll_server.c:389-405 | cutting at `;` loses nothing: the parts joined again are the text, empty parts included |
| Tokeniser.SplitJoin | generic poll server/generic_poll_server.c:389-405 | arguments without `;` that were joined are cut into the same arguments |
| Tokeniser.TokeniserInvertsPrinter | proto-validator/src/nwa.rs:143-157 | a printed command line tokenises to the name and the argument list it was printed from |
| Tokeniser.TokensRebuildLine | generic poll server/generic_poll_server.c:365-406 | every line without NUL bytes is its name, some spaces, its arguments joined with `;` and the newline |
| Automaton.InvariantAlways | generic poll server/generic_poll_server.c:439-532 | in every reachable state: a newline-free start of a line within 2048 bytes, one to four header bytes led by zero, stored payload within the declared size, a full block kept only when no command takes it |
| Automaton.RefusedBytes | generic poll server/generic_poll_server.c:440-510 | a byte closes the connection if and only if it is a bad line start, a non-zero block lead, or the fifth header byte of a wrong size; it logs exactly one protocol error |
| Automaton.DeadIsFinal | generic poll server/generic_poll_server.c:554-558 | after a refusal no byte changes the state or the log |
| Automaton.LogGrows | generic poll server/generic_poll_server.c:432-536 | events are only ever appended |
| Conversation.RunPayload | generic poll server/generic_poll_server.c:476-499 | payload bytes are stored whatever they are, and the block completes exactly at its declared size |
| Conversation.RunItem | generic poll server/generic_poll_server.c:432-536 | one line with its block takes a waiting machine to the state, command and log that the line and the block stand for |
| Conversation.Explain | generic poll server/generic_poll_server.c:439-532 | a stream the parser is alive on is a list of complete items and the received part of one more, which is what the state holds |
| Conversation.DisagreeingHeaderIsDoomed | generic poll server/generic_poll_server.c:453-473 | a header that cannot become the expected size stays a header until its fifth byte and is then refused |
| Conversation.ViableIsNotRejected | generic poll server/generic_poll_server.c:439-532 | no prefix of a well-formed conversation is refused, nor its header in disagreement |
| Conversation.AliveIsViable | generic poll server/generic_poll_server.c:439-532 | every stream the parser is alive on, with a header still in agreement, can be completed to a well-formed conversation |
| Acceptance.ExactAcceptance | generic poll server/generic_poll_server.c:439-510 | refused streams are not prefixes of conversations; a stream in which the search finds no fault is a prefix of one if and only if it is not refused and its header agrees |
| Acceptance.WrongSizeByteIsNotRefusedYet | generic poll server/generic_poll_server.c:453-473 | the input on which not being refused and being a prefix of a conversation differ: behind the line of a command that announces a size, a first size byte that cannot start that size |
| Acceptance.ExactRefusal | generic poll server/generic_poll_server.c:439-510 | a stream in which the search finds no fault is no prefix of a conversation if and only if it is refused, at once or whatever three bytes follow |
| Faults.SearchIsRun | generic poll server/generic_poll_server.c:432-536 | a search along the lines and blocks of a stream finds the fault the parser meets, or how many payload bytes it still lacks, from any waiting state |
| Faults.FaultsAreExact | generic poll server/generic_poll_server.c:432-536 | exactly which bytes of a new connection overflow the command buffer or the argument array, write behind a full block, or make the loop turn for ever |
| Faults.BlockNobodyTakes | generic poll server/generic_poll_server.c:340-353 | any byte behind the block of an unknown `b` line: an endless loop when the block is empty, otherwise a write behind it |
| Faults.EndlessLoopExists | generic poll server/generic_poll_server.c:437 | a concrete endless loop: `bX`, an empty block and one more byte |
| Faults.TooManyArgumentsBreak | generic poll server/generic_poll_server.c:389-405 | any printed command with more than 20 arguments breaks the argument array |
| Faults.LongLineBreaks | generic poll server/generic_poll_server.c:511-518 | any command text of more than 2048 bytes breaks the command buffer, whatever follows |
| Requests.RequestIsItem | proto-validator/src/nwa.rs:143-169 | a printed request is a well-formed item whose tokens are the request's own |
| Requests.RequestRoundTrip | proto-validator/src/nwa.rs:143-169 | one printed request makes the waiting server perform its events and wait again |
| Requests.ConversationRoundTrip | proto-validator/src/nwa.rs:143-169 | any list of printed requests makes exactly those calls with those arguments and one write with the same payload per accepted block, in order |
| Requests.RefusedRequestLeavesNoTrace | generic poll server/generic_poll_server.h:10-17 | when the handler returns -n its block, of exactly n bytes, is swallowed without a write, and all other requests are served as if it were absent |
| WireLaws.PlainCommandIsCalled | generic poll server/generic_poll_server.c:326-335 | a command that does not start with `b`, in literal bytes: one call of its handler with its arguments, and the server waits, whatever the handler returns |
| WireLaws.PlainCommandIsRefused | generic poll server/generic_poll_server.c:319-337 | an unknown name, or a command without a handler, is answered with its own error |
| WireLaws.RefusedBlockIsSwallowed | generic poll server/generic_poll_server.c:412-419 | a handler that returns -n, for n non-zero in 32 bits: a block of exactly n bytes is swallowed and the server waits |
| WireLaws.AcceptedBlockIsWritten | generic poll server/generic_poll_server.c:340-353 | a bCORE_WRITE handler that returns n: a block of exactly n bytes, or of any length when n is zero in 32 bits, is written once |
| WireLaws.OtherSizeIsRefused | generic poll server/generic_poll_server.c:468-473 | a block of any other length than n closes the connection, for n as for -n |
| WireLaws.UnimplementedSwallowsOneByte | generic poll server/generic_poll_server.c:336-337 | a standard `b` command without a handler: one error, and a block of one byte is swallowed while any other closes the connection |
| WireLaws.BadLeadIsRefused | generic poll server/generic_poll_server.c:445-449 | behind a `b` line any non-zero byte closes the connection |
| WireLaws.BadStartIsRefused | generic poll server/generic_poll_server.c:503-509 | between commands any byte but `!`, a digit or a letter closes the connection |
| WireLaws.WriteIsServed | proto-validator/src/nwa.rs:143-169 | bCORE_WRITE as a client sends it, on a server whose handler asks for what is sent, is an acceptable request, and its data are written |
| WireLaws.WriteIsSwallowed | proto-validator/src/nwa.rs:143-169 | when the handler refuses as many bytes it is acceptable too, and they are swallowed |
| Sessions.ReadSession | proto-validator/src/nwa.rs:143-157 | literal bytes: the line `CORE_READ WRAM;$7e;5` is one call of command 16 with these arguments |
| Sessions.WriteSession | proto-validator/src/nwa.rs:143-169 | literal bytes: a write of a newline, a `!` and a zero byte is one call of command 17 and one write |
| Reads.ChunkInvariance | generic poll server/generic_poll_server.c:476-498 | reads give the state and log of their bytes one at a time if and only if none runs past the end of a part-filled block; nothing else makes a copy leave its block |
| Reads.CutDataWithMoreBehindItBreaks | generic poll server/generic_poll_server.c:478-480 | data cut by a read boundary with anything behind the rest of it leaves the block, whatever the request |
| Reads.InsideBlock | generic poll server/generic_poll_server.c:476-499 | inside a block the bytes the parser still lacks are the bytes of the item still to come |
| Reads.LockstepNeverOverruns | proto-validator/src/nwa.rs:143-169 | requests sent one at a time, each in any number of reads with any boundaries, never overrun |
| Reads.DeliveredConversation | generic poll server/generic_poll_server.c:542-560 | the conversation round trip holds for every delivery in which no read overruns |
| Reads.LockstepConversation | generic poll server/generic_poll_server.c:542-560 | and so for every delivery of requests sent one at a time |
| Deliveries.OverrunsAreSeen | generic poll server/generic_poll_server.c:476-480 | whether a read runs past a part-filled block is decided by the bytes before it and its length |
| Deliveries.DeliveryFaultsAreExact | generic poll server/generic_poll_server.c:432-560 | for any delivery to a new connection: which of the five faults it meets, if any, judged by its bytes and read boundaries; for all others every read is finished with |
| Deliveries.RequestsHaveNoFault | proto-validator/src/nwa.rs:143-169 | no prefix of acceptable requests has a fault, whatever command the slot held |
| Deliveries.DataIsThere | proto-validator/src/nwa.rs:159-169 | the positions given to the data of a request are where they stand in the printed conversation |
| Deliveries.OverrunsByPosition | generic poll server/generic_poll_server.c:476-480 | for the bytes of requests, no read overruns if and only if none starts strictly inside the data of a request and ends behind it |
| Deliveries.ConversationDelivered | generic poll server/generic_poll_server.c:542-560 | acceptable requests in any reads: served exactly when no read does so, and a write outside the block otherwise |
| SlotReuse.StaleCommandInvisible | generic poll server/generic_poll_server.c:251-268 | a connection behaves the same in every slot if and only if its bytes do not bring a block before the first command that a table knows |
| SlotReuse.AskingStreams | generic poll server/generic_poll_server.c:319-353 | the parser comes to need a command that its connection never set exactly on the streams of unknown lines, an unknown `b` line and its complete block (one of size zero with a byte behind it) |
| SlotReuse.BlockBeforeCommandMeans | generic poll server/generic_poll_server.c:319-353 | the search along the stream finds exactly the streams composed in that way |
| SlotReuse.PreviousCommandGetsBlock | generic poll server/generic_poll_server.c:319-353 | for every unknown `b` line and non-empty data: behind a client that last used bCORE_WRITE the block is written, in a new slot only the error is sent |
| SlotReuse.UnknownBlockIsWritten | generic poll server/generic_poll_server.c:319-353 | a concrete stream: `bX` and a block of one byte |
| SlotReuse.RequestsDoNotAsk | proto-validator/src/nwa.rs:143-169 | nothing a client sends of acceptable requests, cut anywhere, is such a stream |
| RequestParser.ScanName | generic poll server/generic_poll_server.c:365-376 | the first loop yields the bytes before the first space or newline, and whether arguments follow |
| RequestParser.SkipSpaces | generic poll server/generic_poll_server.c:387-388 | the second loop stops at the first byte that is not a space |
| RequestParser.CutArguments | generic poll server/generic_poll_server.c:389-405 | the third loop yields the split at `;`, or that more than twenty arguments would be needed; no argument buffer overflows |
| RequestParser.ParseLine | generic poll server/generic_poll_server.c:355-406 | together they yield name and arguments of the line |
| RequestParser.SearchStandard | generic poll server/generic_poll_server.c:300-308 | the loop over the standard table finds its first entry of that name |
| RequestParser.SearchCustom | generic poll server/generic_poll_server.c:309-318 | the loop over the custom table finds its first entry that is a prefix |
| RequestParser.Client.ExecuteCommand | generic poll server/generic_poll_server.c:295-338 | returned size, event and new current command are those of the chosen command |
| RequestParser.Client.ProcessCommand | generic poll server/generic_poll_server.c:355-429 | the fields after a line are the automaton's state after it; a line with too many arguments changes nothing that counts |
| RequestParser.Client.FinishLine | generic poll server/generic_poll_server.c:518-530 | the same for the steps around it: the `b` check and the reset of the command buffer |
| RequestParser.Client.StoreCommandByte | generic poll server/generic_poll_server.c:513-518 | a byte is stored, ends the line, or would be the 2049th |
| RequestParser.Client.TakeCommandByte | generic poll server/generic_poll_server.c:513-530 | one turn of the command loop leaves the run over the rest of the read unchanged |
| RequestParser.Client.TakeLine | generic poll server/generic_poll_server.c:511-532 | the command loop takes bytes up to the newline or the end of the read |
| RequestParser.Client.TakeCommandBytes | generic poll server/generic_poll_server.c:501-532 | the check of the first byte and the loop agree with the automaton |
| RequestParser.Client.BeginBlock | generic poll server/generic_poll_server.c:440-450 | the header buffer is cleared; a non-zero lead byte is answered with one error |
| RequestParser.Client.CopyHeader | generic poll server/generic_poll_server.c:455-460 | the header is what it held and the bytes taken, up to five |
| RequestParser.Client.AllocateBlock | generic poll server/generic_poll_server.c:461-473 | the block gets the declared size, which is refused when it is not the non-zero expected one |
| RequestParser.Client.StoreHeader | generic poll server/generic_poll_server.c:453-474 | stored header bytes lead to the automaton's state for that header |
| RequestParser.Client.TakeHeader | generic poll server/generic_poll_server.c:440-474 | the header phase agrees with the automaton, refusals included |
| RequestParser.Client.ProcessBinaryBlock | generic poll server/generic_poll_server.c:340-353 | bCORE_WRITE gets the whole block in one write; for any other command nothing changes |
| RequestParser.Client.FinishBlock | generic poll server/generic_poll_server.c:483-497 | a full block is swallowed, written or left, and the swallow flag is cleared |
| RequestParser.Client.StorePayload | generic poll server/generic_poll_server.c:479-480 | the copied bytes stand behind those already stored |
| RequestParser.Client.StoreBlock | generic poll server/generic_poll_server.c:476-499 | the payload phase stores, completes, or names the fault it meets, each under its exact condition |
| RequestParser.Client.TakePayload | generic poll server/generic_poll_server.c:476-499 | the payload phase agrees with the automaton unless the read overruns |
| RequestParser.Client.Turn | generic poll server/generic_poll_server.c:439-532 | one turn of the loop agrees with the automaton and makes progress |
| RequestParser.Client.PreprocessData | generic poll server/generic_poll_server.c:432-536 | on every read the model's loop ends with the state, log and outcome of the automaton, or with the overrun fault exactly when the read overruns; where the C loop would turn for ever it ends with that fault, so the C loop terminates exactly on the deliveries for which Deliveries.DeliveryFaultsAreExact finds none; the representation invariant is kept |
| RequestParser.Client.ReadClientData | generic poll server/generic_poll_server.c:542-560 | a failed or empty read closes; any other is parsed |
| RequestParser.Client.Occupy | generic poll server/generic_poll_server.c:257-266 | whatever the slot held, its new client starts on a fresh parser; only the current command survives |
| RequestParser.Client.Vacate | generic poll server/generic_poll_server.c:240-243 | the block is dropped, the slot is free, the current command stays |
| ServerModel.AcceptAgrees | generic poll server/generic_poll_server.c:701-726 | accepting keeps the table, the polled descriptors and the callbacks in agreement, within six entries |
| ServerModel.UpdateAgrees | generic poll server/generic_poll_server.c:743-746 | so does a read |
| ServerModel.DropAgrees | generic poll server/generic_poll_server.c:733-742 | so does removing a client with the last entry moved into its place |
| ServerModel.EntryTurnAgrees | generic poll server/generic_poll_server.c:729-755 | and so does every turn of the loop over the clients |
| ServerModel.SwapRemoveMembers | generic poll server/generic_poll_server.c:737-739 | swap removal drops exactly that descriptor and keeps all others, also behind any earlier index |
| ServerModel.PolledIsFound | generic poll server/generic_poll_server.c:223-231 | `get_client` never misses for a polled descriptor |
| ServerModel.RoomForOne | generic poll server/generic_poll_server.c:717-720 | a free slot means room in the poll array |
| ServerRuns.PassIsPointwise | generic poll server/generic_poll_server.c:729-756 | the swap-removing pass gives every client present its own fate exactly once: hung-up ones leave unread, readable ones are read once, all others stay; each that leaves is handed over in this pass by exactly one callback, and nobody else is |
| ServerRuns.RoundIsPointwise | generic poll server/generic_poll_server.c:684-756 | in one turn every client's slot changes by its own events and bytes alone, one that leaves is handed over once in this turn, the first free slot takes the new connection with a fresh parser, and everything agrees again |
| ServerRuns.TableAgreesAlways | generic poll server/generic_poll_server.c:662-757 | after any run: taken slots and polled descriptors are the same duplicate-free set within the arrays, and add minus remove callbacks is 1 for connected descriptors and 0 for all others |
| ServerRuns.StartedServerAgrees | generic poll server/generic_poll_server.c:662-757 | so in every state reached from the start of the server |
| ServerRuns.ClientsAreIsolated | generic poll server/generic_poll_server.c:662-757 | in any interleaving that stays in defined behaviour (SafeRuns.HarmlessRun) a connection goes through exactly the life it would have alone: while open, its machine is in its slot and nobody on its descriptor was removed; once gone, its machine is the first that was handed over for that descriptor since |
| ServerRuns.AloneIsItsReads | generic poll server/generic_poll_server.c:542-560 | that life is the parser run on the reads delivered to it |
| ServerRuns.ConnectionSeesOnlyItsBytes | generic poll server/generic_poll_server.c:251-271 | in a run that stays in defined behaviour (SafeRuns.HarmlessRun), state and log of a connection are those of its own bytes, one at a time, on a clean parser, even in a reused slot, unless these bytes bring a block before the first command that a table knows |
| ServerRuns.CarefulClientSeesOnlyItsBytes | generic poll server/generic_poll_server.c:251-271 | in such a run, a client that has sent any part of acceptable requests needs no condition on its own bytes |
| ServerRuns.ServedInRun | generic poll server/generic_poll_server.c:662-757 | in a run that stays in defined behaviour a client that sends its requests one at a time is served exactly these |
| SafeRuns.AloneIsLost | generic poll server/generic_poll_server.c:542-560 | a connection alone is lost exactly when the reads delivered to it meet a fault |
| SafeRuns.HarmlessRun | generic poll server/generic_poll_server.c:662-757 | a run stays in defined behaviour when the reads of each connected client, and of each one still to come whatever its slot held, meet no fault |
| SafeRuns.HarmEndsRun | generic poll server/generic_poll_server.c:662-757 | a connected client whose own reads meet a fault does take the server out of defined behaviour |
| SafeRuns.CarefulClientsAreSafe | generic poll server/generic_poll_server.c:662-757 | a server that from its start only meets clients sending acceptable requests one at a time, in any number and interleaving, runs on in agreement |
| SafeRuns.ClientIsServed | generic poll server/generic_poll_server.c:662-757 | when the other clients' own reads meet no fault (no condition on the run), a client in any slot that sends its requests one at a time is served exactly these, in order, its parser waits, and the server runs on |
| PollServer.NewTable | generic poll server/generic_poll_server.c:192 | five separate clients, unconnected and without a command |
| PollServer.PollServer.constructor | generic poll server/generic_poll_server.c:662-665 | the server starts with the listening socket alone, in agreement with the state machine's start |
| PollServer.PollServer.FindClient | generic poll server/generic_poll_server.c:223-231 | the loop finds the first slot with the descriptor |
| PollServer.PollServer.FindFreeSlot | generic poll server/generic_poll_server.c:253-255 | the loop finds the first free slot |
| PollServer.PollServer.OccupySlot | generic poll server/generic_poll_server.c:251-271 | the chosen slot holds the new client, every other slot is untouched |
| PollServer.PollServer.VacateSlot | generic poll server/generic_poll_server.c:233-249 | the slot is free and keeps its last command, every other slot is untouched |
| PollServer.ReadClient | generic poll server/generic_poll_server.c:542-560 | a read does to the client what its fate says: kept, its fields are the machine after the read; closed, its log and command are those of the machine it leaves behind |
| PollServer.PollServer.ReadSlot | generic poll server/generic_poll_server.c:542-560 | a read changes one client by its fate, and no other |
| PollServer.PollServer.PushEntry | generic poll server/generic_poll_server.c:717-720 | the new entry stands behind the others, with no event |
| PollServer.PollServer.SwapOut | generic poll server/generic_poll_server.c:737-739 | the array is the swap removal of what it was |
| PollServer.PollServer.AcceptClient | generic poll server/generic_poll_server.c:701-726 | table, poll array and callbacks move as the state machine accepts; a full table changes nothing |
| PollServer.PollServer.DropEntry | generic poll server/generic_poll_server.c:733-742 | they move as the state machine drops a client, and the machine recorded has the log and command of the client dropped |
| PollServer.PollServer.ReadEntry | generic poll server/generic_poll_server.c:743-746 | the entry's own client is found and read; one that is closed has the log of its fate, protocol error included |
| PollServer.PollServer.HandleEntry | generic poll server/generic_poll_server.c:729-755 | one entry is dropped, read or passed over as the fate of its own client says |
| PollServer.PollServer.TurnEntry | generic poll server/generic_poll_server.c:729-755 | one turn of the loop is one turn of the state machine, with the same next index, and makes progress |
| PollServer.PollServer.PassClients | generic poll server/generic_poll_server.c:729-756 | the loop terminates and is the state machine's pass |
| PollServer.PollServer.PollEvents | generic poll server/generic_poll_server.c:684 | every entry gets its own events |
| PollServer.PollServer.ServeRound | generic poll server/generic_poll_server.c:684-756 | one turn of the server is one round of the state machine, and its invariant is kept |
| PollServer.PollServer.Serve | generic poll server/generic_poll_server.c:667-757 | the loop over any sequence of turns is the run of the state machine, so that every theorem on runs holds of the storage |
| Numbers.RenderedOffsets | generic poll server/generic_poll_server.c:139-148 | `$`-hexadecimal digits of any 64-bit number, each letter in either case, and decimal ones below 2^63 (the range of `atoll`), are read as that number |
| Numbers.SignedNumberIsRead | generic poll server/generic_poll_server.c:147 | `atoll` and `atoi`: blanks, either sign, the number, and anything behind it that is no digit |
| Numbers.BlankHexIsRead | generic poll server/generic_poll_server.c:141-145 | `sscanf` with `%zX`: blanks, and the digits in any case |
| Numbers.PrefixedHexIsRead | generic poll server/generic_poll_server.c:141-145 | the same behind `0x` or `0X` |
| Sessions.LowerCaseOffset | generic poll server/generic_poll_server.c:139-148 | literal bytes: `$7e`, `$7E` and `126` are the same offset |
| Numbers.RenderedSize | dummy/Dummy Emulator/dummy.c:276 | a decimal size below 2^31 (the range of `atoi`) arrives unchanged |
| Numbers.ReadPadded | dummy/Dummy Emulator/dummy.c:91 | zero-padded digits are read as the number they print |
| MemoryArgument.PairsAt | generic poll server/generic_poll_server.c:157-173 | max(1, ceil(n/2)) pairs, the k-th one of the values 2k and 2k+1, zero where there is none |
| MemoryArgument.AppendNode | generic poll server/generic_poll_server.c:166-170 | the list stays a chain without repetition, longer by a node of zeros, and holds the same pairs |
| MemoryArgument.TakeArgument | generic poll server/generic_poll_server.c:157-173 | one turn of the loop stores one argument, and makes a node exactly when a pair is full and arguments are left |
| MemoryArgument.ParseMemoryArgument | generic poll server/generic_poll_server.c:150-175 | the fresh, acyclic list holds exactly the pairs of the arguments, in order |
| MemoryArgument.RangesRoundTrip | generic poll server/generic_poll_server.c:150-175 | printing a list of ranges, with notation and letter case chosen anew for every number and letter, and parsing it is the identity |
| MemoryArgument.RenderedField | generic poll server/generic_poll_server.c:159-163 | a field keeps the low 32 bits of the number printed, in either notation |
| Replies.LastBindingWins | proto-validator/src/nwa.rs:101 | a key's last value is the one the client has |
| Replies.DecodePrinted | proto-validator/src/nwa.rs:68-102 | reading printed pairs inserts each in order, and stops the program if and only if one does not fit the buffers |
| Replies.HashRoundTrip | proto-validator/src/nwa.rs:65-118 | a printed hash reply is consumed exactly and gives Ok when empty, otherwise the map of its pairs, if and only if all keys and values fit |
| Replies.BinaryRoundTrip | proto-validator/src/nwa.rs:120-138 | a printed block is consumed exactly and gives its data |
| Replies.ErrorRoundTrip | proto-validator/src/nwa.rs:103-117 | a printed error gives its reason and the matching kind, if and only if the reason fits |
| Replies.ConcludesExactly | proto-validator/src/nwa.rs:68-118 | the reply for a finished map is fixed by: ok when it is empty, itself without `error`, otherwise an error with the reason sent, of a kind of its own exactly when `error` is the name the server prints for that type |
| Replies.LineWithoutColonIsMalformed | proto-validator/src/nwa.rs:82-92 | a line without a colon, behind any pairs, makes the reply malformed; one of more than 100 bytes stops the program first |
| Replies.OtherStartIsInvalid | proto-validator/src/nwa.rs:56-140 | what starts with neither a newline nor a zero byte is no reply |
| Replies.ShortBlockIsFilled | proto-validator/src/nwa.rs:132-138 | of a block that has not arrived completely the rest is zeros |
| Sessions.HashReply | proto-validator/src/nwa.rs:68-119 | literal bytes: a repeated key, and a value with a colon |
| Sessions.NotAllowedReply | proto-validator/src/nwa.rs:103-117 | literal bytes: a `not_allowed` error with any reason |
| Sessions.CommandErrorReply | proto-validator/src/nwa.rs:103-117 | literal bytes: `command_error` has no kind of its own |
| ReplyPrinter.Socket.SendPairs | generic poll server/generic_poll_server.c:82-100 | each pair is written as key, colon, value, newline from a buffer it fits exactly |
| ReplyPrinter.Socket.SendFullHashReply | generic poll server/generic_poll_server.c:122-129 | the pairs between two newlines |
| ReplyPrinter.Socket.SendBinaryBlock | generic poll server/generic_poll_server.c:131-137 | zero byte, network-order size, data |
| ReplyPrinter.Socket.SendError | generic poll server/generic_poll_server.c:273-293 | the whole formatted error is written, nothing truncated |
| ReplyPrinter.SearchErrorName | generic poll server/generic_poll_server.c:276-280 | the loop over the table of types and strings ends with the string of the type |
| ReplyPrinter.ErrorBufferIsExact | generic poll server/generic_poll_server.c:281-284 | the computed size is the printed length and one terminator |
| ReplyReader.ReadUntil | proto-validator/src/nwa.rs:71 | the bytes up to the first newline |
| ReplyReader.ScanKey | proto-validator/src/nwa.rs:82-88 | the key loop stops at the first colon or newline, or runs out of its buffer |
| ReplyReader.ScanValue | proto-validator/src/nwa.rs:94-100 | the value loop stops at the newline, or runs out of its buffer or of the line |
| ReplyReader.ScanEntry | proto-validator/src/nwa.rs:82-101 | both loops yield the entry of the line |
| ReplyReader.ConcludeMap | proto-validator/src/nwa.rs:103-118 | a map without `error` is the reply itself; `error` makes an error reply with the reason sent, or `Invalid reason` when there is none, and a kind of its own exactly for the names the server prints |
| ReplyReader.GetAsciiReply | proto-validator/src/nwa.rs:65-119 | the line loop terminates and yields what the stream decodes to |
| ReplyReader.GetBinaryReply | proto-validator/src/nwa.rs:120-139 | so does the binary branch |
| ReplyReader.GetReply | proto-validator/src/nwa.rs:56-141 | `get_reply` decodes every stream as specified, errors included |
| RequestPrinter.Connection.ExecuteRawCommand | proto-validator/src/nwa.rs:151-157 | the command line is written, with its argument behind a space |
| RequestPrinter.Connection.SendData | proto-validator/src/nwa.rs:159-169 | header and data are written; the size field is the length modulo 2^32 |
| RequestPrinter.Connection.SendRequest | proto-validator/src/nwa.rs:151-169 | a request is written as the round trip expects it |
| RequestPrinter.LowBytes | proto-validator/src/nwa.rs:161-166 | the four masked shifts of any length are those of its low 32 bits |
| EndToEnd.CoreMemoryRead | dummy/Dummy Emulator/dummy.c:272-290 | the handler writes one block with the range, of WRAM, SRAM or CARTROM as the first argument says |
| EndToEnd.CoreReadIsFound | generic poll server/generic_poll_server.c:300-323 | unless a custom entry is a prefix of it, CORE_READ selects the read command |
| EndToEnd.RequestArrives | generic poll server/generic_poll_server.c:355-408 | a read request delivered in any reads is one call with its arguments |
| EndToEnd.ReplyDecodes | proto-validator/src/nwa.rs:120-138 | the handler's reply decodes to the bytes it read |
| EndToEnd.EndToEndRead | dummy/Dummy Emulator/dummy.c:272-290 | printing, parsing, reading and decoding yield exactly the range asked for, of the memory that `WRAM`, `SRAM` or `CARTROM` names, in either notation and letter case; nothing when the size was printed in hexadecimal |
| EndToEnd.HexSizeReadsNothing | dummy/Dummy Emulator/dummy.c:276 | the concrete case: `$5` bytes are none |
| EndToEnd.RefusalReachesClient | generic poll server/generic_poll_server.c:273-293 | every refusal is read by the client as a protocol error with the server's reason |
| EndToEnd.UnexpectedBlockIsRefused | proto-validator/src/main.rs:156-174 | any block that no command announced is refused with one protocol error |
| Savestate.File.ScanSection | dummy/Dummy Emulator/dummy.c:91 | a successful scan leaves the cursor at the payload, a failed one ends the walk |
| Savestate.EmulatorMemory.VisitSection | dummy/Dummy Emulator/dummy.c:93-111 | the payload is loaded or skipped and the cursor stands behind it |
| Savestate.EmulatorMemory.LoadSavestate | dummy/Dummy Emulator/dummy.c:77-114 | the walk terminates on every file, and the memories are what the visited sections load; on a printed file, fourteen bytes and sections, the last payloads of their names |
| Savestate.ScanPrinted | dummy/Dummy Emulator/dummy.c:91 | a printed section head is scanned as its name and size |
| Savestate.WalkMeetsEverySection | dummy/Dummy Emulator/dummy.c:90-112 | on a well-formed file the walk stands on every section boundary and meets every section once, in order |
| Savestate.LastSectionWins | dummy/Dummy Emulator/dummy.c:93-110 | WRAM and SRAM end as the payloads of the last `RAM` and `SRA` sections |
| Savestate.LoadKeepsOrReplaces | dummy/Dummy Emulator/dummy.c:90-112 | a memory without a section of its name keeps its value, any other becomes the last payload of its name |
| Savestate.SavestateRoundTrip | dummy/Dummy Emulator/dummy.c:77-114 | on a whole well-formed file, any fourteen bytes and then sections, the walk meets exactly the sections and leaves these memories |
| Savestate.TwoSectionsAreLoaded | dummy/Dummy Emulator/dummy.c:90-112 | a file with one `RAM` and one `SRA` section, in literal form, loads both |
| Savestate.LooseHeadIsScanned | dummy/Dummy Emulator/dummy.c:91 | blanks before the size, and a sign in place of its first digit, are accepted as `fscanf` does |
| Savestate.NoSecondColon | dummy/Dummy Emulator/dummy.c:91 | so is a missing second colon |

## Left out

- Sockets, `poll`, `accept`, `bind`, the port search and the environment variable: what they answer is the input of a round; writes are appended to a log or to what a socket has sent.
- Handlers are a function of command and arguments: a handler whose result depends on earlier calls is not modelled.
- The bytes a handler writes are modelled for CORE_READ only; the constant dummy handlers are not.
- EndToEnd.CoreMemoryRead: requires at least three arguments, a known memory and a range inside it; the handler checks none of these, and reads a missing argument, a null pointer or memory outside otherwise.
- `generic_poll_server_stop`, `after_poll` and a failing `poll` or `accept`: the server's exits from its loop.
- ReplyReader.GetReply: assumes that everything the server sent has arrived; short reads, and bytes lost with the buffered reader between two replies, are not modelled.
- ReplyReader.GetAsciiReply: text is bytes; the replacement of invalid UTF-8 is not modelled.
- RequestParser.Client.ProcessCommand: a handler that returns -2^63 is taken to announce size zero; its negation (`generic_poll_server.c:414`) is undefined in C.
- Numbers.RenderedOffsets: nothing is claimed of decimal numbers from 2^63 on, nor of hexadecimal ones from 2^64 on: the library functions saturate or are undefined there, where the model's GetOffset takes the remainder.
- Numbers.RenderedSize: nothing is claimed from 2^31 on, where `atoi` is undefined and the model's GetSize takes the remainder.
- Savestate.EmulatorMemory.LoadSavestate: of a payload that the file cuts short the model keeps the bytes that are there; the C buffer is longer and its rest undetermined.
- RequestParser.Client.AllocateBlock: `malloc` is taken to succeed.
- `generic_poll_server_free_memory_argument` and closing descriptors: freeing is not modelled, so nothing is claimed about what is released.
- `write_to_memory` and the write globals of the dummy emulator: the model stops at the write function and its payload.
- Signals, list replies and other text of the drafts that no code here implements.
